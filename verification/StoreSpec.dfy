/**
 The record store as a value: what each operation does to the maps in memory and to the
 disk. Which records may enter is a parameter, the admission: it gives the sequence
 number of an acceptable value under its key.
 */
module StoreSpec {
  import opened Wrappers
  import opened Octets

  type Key = Bytes

  /** An `f64`, as its eight little-endian bytes. */
  type Weight = w: Bytes | |w| == 8 witness [0, 0, 0, 0, 0, 0, 0, 0]

  datatype Record = Record(key: Key, value: Bytes, publisher: Option<Bytes>, expires: Option<nat>)

  datatype StoreError = ValueTooLarge | MaxRecords

  type Admission = (Key, Bytes) -> Option<u64>

  /** The default tree and the tree "weights" of the database. */
  datatype Disk = Disk(cards: map<Key, Bytes>, weights: map<Key, Bytes>)

  datatype Store = Store(
    records: map<Key, Record>,
    seqCache: map<Key, u64>,
    weightCache: map<Key, Weight>,
    maxRecords: nat,
    disk: Option<Disk>)

  function Empty(maxRecords: nat, disk: Option<Disk>): (st: Store)
  {
    Store(map[], map[], map[], maxRecords, disk)
  }

  // --- operations --------------------------------------------------------

  /** Writes may fail silently: `io` says whether this one reaches the disk. */
  function Persist(disk: Option<Disk>, key: Key, value: Bytes, io: bool): (d: Option<Disk>)
  {
    if disk.Some? && io then Some(disk.value.(cards := disk.value.cards[key := value])) else disk
  }

  function Unpersist(disk: Option<Disk>, key: Key, io: bool): (d: Option<Disk>)
  {
    if disk.Some? && io then Some(disk.value.(cards := disk.value.cards - {key})) else disk
  }

  function PersistWeight(disk: Option<Disk>, key: Key, w: Weight, io: bool): (d: Option<Disk>)
  {
    if disk.Some? && io then Some(disk.value.(weights := disk.value.weights[key := w])) else disk
  }

  function PutResult(admit: Admission, st: Store, r: Record): (res: Result<(), StoreError>)
  {
    if |st.records| >= st.maxRecords && r.key !in st.records then Err(MaxRecords)
    else if admit(r.key, r.value).None? then Err(ValueTooLarge)
    else Ok(())
  }

  function Put(admit: Admission, st: Store, r: Record, io: bool): (st': Store)
  {
    if PutResult(admit, st, r).Err? then st else
    var newSeq := admit(r.key, r.value).value;
    if r.key in st.seqCache && newSeq <= st.seqCache[r.key] then st
    else st.(seqCache := st.seqCache[r.key := newSeq],
             records := st.records[r.key := r],
             disk := Persist(st.disk, r.key, r.value, io))
  }

  function Remove(st: Store, key: Key, io: bool): (st': Store)
  {
    st.(records := st.records - {key},
        seqCache := st.seqCache - {key},
        disk := Unpersist(st.disk, key, io))
  }

  function SetWeight(st: Store, key: Key, w: Weight, io: bool): (st': Store)
  {
    st.(weightCache := st.weightCache[key := w], disk := PersistWeight(st.disk, key, w, io))
  }

  // --- loading from disk -------------------------------------------------

  /** One step of iterating a tree: an entry, or one that could not be read. */
  datatype DiskEntry = DiskEntry(key: Key, value: Bytes) | Unreadable

  function LoadCard(admit: Admission, st: Store, e: DiskEntry): (st': Store)
  {
    if e.Unreadable? then st else
    var newSeq := admit(e.key, e.value);
    if newSeq.None? then st
    else st.(seqCache := st.seqCache[e.key := newSeq.value],
             records := st.records[e.key := Record(e.key, e.value, None, None)])
  }

  function LoadCards(admit: Admission, st: Store, entries: seq<DiskEntry>): (st': Store)
    decreases |entries|
  {
    if entries == [] then st else LoadCards(admit, LoadCard(admit, st, entries[0]), entries[1..])
  }

  function LoadWeight(st: Store, e: DiskEntry): (st': Store)
  {
    if e.Unreadable? || |e.value| != 8 then st
    else st.(weightCache := st.weightCache[e.key := e.value])
  }

  function LoadWeights(st: Store, entries: seq<DiskEntry>): (st': Store)
    decreases |entries|
  {
    if entries == [] then st else LoadWeights(LoadWeight(st, entries[0]), entries[1..])
  }

  /** A new store over a disk whose trees iterate as given. */
  function Load(admit: Admission, maxRecords: nat, disk: Option<Disk>,
                cards: seq<DiskEntry>, weights: seq<DiskEntry>): (st: Store)
  {
    var st := Empty(maxRecords, disk);
    if disk.None? then st else LoadWeights(LoadCards(admit, st, cards), weights)
  }

  /** The entries list a tree, in any order. */
  ghost predicate Lists(entries: seq<DiskEntry>, tree: map<Key, Bytes>)
  {
    && (forall i :: 0 <= i < |entries| ==>
          entries[i].DiskEntry? && entries[i].key in tree && tree[entries[i].key] == entries[i].value)
    && (forall k :: k in tree ==> DiskEntry(k, tree[k]) in entries)
  }

  // --- runs --------------------------------------------------------------

  datatype Op =
    | PutOp(record: Record, io: bool)
    | RemoveOp(key: Key, io: bool)
    | WeightOp(key: Key, weight: Weight, io: bool)

  function Step(admit: Admission, st: Store, op: Op): (st': Store)
  {
    match op
    case PutOp(r, io) => Put(admit, st, r, io)
    case RemoveOp(k, io) => Remove(st, k, io)
    case WeightOp(k, w, io) => SetWeight(st, k, w, io)
  }

  function Run(admit: Admission, st: Store, ops: seq<Op>): (st': Store)
  {
    if ops == [] then st
    else Step(admit, Run(admit, st, ops[..|ops| - 1]), ops[|ops| - 1])
  }

  predicate NeverRemoves(ops: seq<Op>, key: Key)
  {
    forall i :: 0 <= i < |ops| ==> !(ops[i].RemoveOp? && ops[i].key == key)
  }

  // --- the invariant -----------------------------------------------------

  /** Memory is coherent: every held value was admitted under its key, with the cached seq. */
  ghost predicate Coherent(admit: Admission, st: Store)
  {
    && st.records.Keys == st.seqCache.Keys
    && forall k :: k in st.records ==>
         st.records[k].key == k && admit(k, st.records[k].value) == Some(st.seqCache[k])
  }

  ghost predicate WithinCapacity(st: Store) { |st.records| <= st.maxRecords }

  lemma KeysSize<V>(m: map<Key, V>)
    ensures |m.Keys| == |m|
  {
  }

  lemma PutKeepsInvariant(admit: Admission, st: Store, r: Record, io: bool)
    requires Coherent(admit, st)
    ensures Coherent(admit, Put(admit, st, r, io))
    ensures WithinCapacity(st) ==> WithinCapacity(Put(admit, st, r, io))
  {
    var st' := Put(admit, st, r, io);
    if r.key in st.records {
      assert st'.records.Keys == st.records.Keys;
    }
    KeysSize(st.records);
    KeysSize(st'.records);
  }

  lemma RemoveKeepsInvariant(admit: Admission, st: Store, key: Key, io: bool)
    requires Coherent(admit, st)
    ensures Coherent(admit, Remove(st, key, io))
    ensures WithinCapacity(st) ==> WithinCapacity(Remove(st, key, io))
  {
    var st' := Remove(st, key, io);
    assert st'.records.Keys == st.records.Keys - {key};
    KeysSize(st.records);
    KeysSize(st'.records);
  }

  /** Every operation keeps the store coherent and within its capacity. */
  lemma StepKeepsInvariant(admit: Admission, st: Store, op: Op)
    requires Coherent(admit, st)
    ensures Coherent(admit, Step(admit, st, op))
    ensures WithinCapacity(st) ==> WithinCapacity(Step(admit, st, op))
    ensures Step(admit, st, op).maxRecords == st.maxRecords
  {
    match op
    case PutOp(r, io) => PutKeepsInvariant(admit, st, r, io);
    case RemoveOp(k, io) => RemoveKeepsInvariant(admit, st, k, io);
    case WeightOp(k, w, io) =>
  }

  lemma {:induction false} RunKeepsInvariant(admit: Admission, st: Store, ops: seq<Op>)
    requires Coherent(admit, st)
    ensures Coherent(admit, Run(admit, st, ops))
    ensures WithinCapacity(st) ==> WithinCapacity(Run(admit, st, ops))
    ensures Run(admit, st, ops).maxRecords == st.maxRecords
  {
    if ops == [] {
    } else {
      var n := |ops| - 1;
      RunKeepsInvariant(admit, st, ops[..n]);
      StepKeepsInvariant(admit, Run(admit, st, ops[..n]), ops[n]);
    }
  }

  /** No run fills a store beyond its capacity, or beyond what it held at the start if that was more. */
  lemma {:induction false} RunBounded(admit: Admission, st: Store, ops: seq<Op>)
    ensures |Run(admit, st, ops).records| <= |st.records| || |Run(admit, st, ops).records| <= st.maxRecords
    ensures Run(admit, st, ops).maxRecords == st.maxRecords
  {
    if ops == [] {
    } else {
      var n := |ops| - 1;
      RunBounded(admit, st, ops[..n]);
      StepBounded(admit, Run(admit, st, ops[..n]), ops[n]);
    }
  }

  lemma StepBounded(admit: Admission, st: Store, op: Op)
    ensures |Step(admit, st, op).records| <= |st.records| || |Step(admit, st, op).records| <= st.maxRecords
  {
    match op
    case PutOp(r, io) => PutBounded(admit, st, r, io);
    case RemoveOp(k, io) => RemoveBounded(st, k, io);
    case WeightOp(k, w, io) =>
  }

  lemma PutBounded(admit: Admission, st: Store, r: Record, io: bool)
    ensures var st' := Put(admit, st, r, io); |st'.records| <= |st.records| || |st'.records| <= st.maxRecords
  {
    var st' := Put(admit, st, r, io);
    if r.key in st.records {
      assert st'.records.Keys == st.records.Keys;
    }
    KeysSize(st.records);
    KeysSize(st'.records);
  }

  lemma RemoveBounded(st: Store, key: Key, io: bool)
    ensures |Remove(st, key, io).records| <= |st.records|
  {
    assert Remove(st, key, io).records.Keys == st.records.Keys - {key};
    KeysSize(st.records);
    KeysSize(Remove(st, key, io).records);
  }

  /**
   Which answer a put gets. A full store refuses every new address, acceptable or not, before
   it looks at the value; otherwise acceptance alone decides.
   */
  lemma PutResultIff(admit: Admission, st: Store, r: Record)
    ensures var res, room := PutResult(admit, st, r), r.key in st.records || |st.records| < st.maxRecords;
            && (res.Ok? <==> room && admit(r.key, r.value).Some?)
            && (res == Err(MaxRecords) <==> !room)
            && (res == Err(ValueTooLarge) <==> room && admit(r.key, r.value).None?)
  {
  }

  /** An update to a held address is never refused for capacity. */
  lemma UpdateNeverRefusedForCapacity(admit: Admission, st: Store, r: Record)
    requires r.key in st.records
    ensures PutResult(admit, st, r) != Err(MaxRecords)
    ensures PutResult(admit, st, r).Ok? <==> admit(r.key, r.value).Some?
  {
  }

  /** A record put twice in a row is put once: the second time changes nothing. */
  lemma PutTwice(admit: Admission, st: Store, r: Record, io: bool, io': bool)
    requires Coherent(admit, st)
    ensures Put(admit, Put(admit, st, r, io), r, io') == Put(admit, st, r, io)
    ensures PutResult(admit, st, r).Ok? ==> PutResult(admit, Put(admit, st, r, io), r).Ok?
  {
  }
}
