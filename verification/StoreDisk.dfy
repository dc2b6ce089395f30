/** The disk copy of the store: what a restart rebuilds from it. */
module StoreDisk {
  import opened Wrappers
  import opened Octets
  import opened StoreSpec
  import opened StoreRuns

  /** A disk entry that the store would accept. */
  predicate ValidOnDisk(admit: Admission, disk: Disk, key: Key)
  {
    key in disk.cards && admit(key, disk.cards[key]).Some?
  }

  // --- what loading rebuilds ---------------------------------------------

  /** `st` holds the acceptable ones among the first entries, and nothing else. */
  ghost predicate LoadedCards(admit: Admission, st: Store, tree: map<Key, Bytes>, entries: seq<DiskEntry>)
  {
    && Coherent(admit, st)
    && (forall k :: k in st.records ==> k in tree && st.records[k] == Record(k, tree[k], None, None))
    && (forall i :: 0 <= i < |entries| && entries[i].DiskEntry? && admit(entries[i].key, entries[i].value).Some?
          ==> entries[i].key in st.records)
  }

  ghost predicate Entries(entries: seq<DiskEntry>, tree: map<Key, Bytes>)
  {
    forall i :: 0 <= i < |entries| && entries[i].DiskEntry? ==>
      entries[i].key in tree && tree[entries[i].key] == entries[i].value
  }

  lemma {:induction false} LoadCardsFollows(
      admit: Admission, st: Store, tree: map<Key, Bytes>, done: seq<DiskEntry>, rest: seq<DiskEntry>)
    requires LoadedCards(admit, st, tree, done) && Entries(rest, tree)
    ensures var st' := LoadCards(admit, st, rest);
            && LoadedCards(admit, st', tree, done + rest)
            && st'.weightCache == st.weightCache && st'.disk == st.disk && st'.maxRecords == st.maxRecords
    decreases |rest|
  {
    if rest == [] {
      assert done + rest == done;
    } else {
      var mid := LoadCard(admit, st, rest[0]);
      assert LoadedCards(admit, mid, tree, done + [rest[0]]);
      LoadCardsFollows(admit, mid, tree, done + [rest[0]], rest[1..]);
      assert done + [rest[0]] + rest[1..] == done + rest;
    }
  }

  lemma {:induction false} LoadWeightsFollows(
      st: Store, tree: map<Key, Bytes>, done: seq<DiskEntry>, rest: seq<DiskEntry>)
    requires Entries(rest, tree)
    requires forall k :: k in st.weightCache ==> k in tree && st.weightCache[k] == tree[k]
    requires forall i :: 0 <= i < |done| && done[i].DiskEntry? && |done[i].value| == 8 ==> done[i].key in st.weightCache
    ensures var st' := LoadWeights(st, rest);
            && (forall k :: k in st'.weightCache ==> k in tree && st'.weightCache[k] == tree[k])
            && (forall i :: 0 <= i < |done + rest| && (done + rest)[i].DiskEntry? && |(done + rest)[i].value| == 8
                  ==> (done + rest)[i].key in st'.weightCache)
            && st'.records == st.records && st'.seqCache == st.seqCache
            && st'.disk == st.disk && st'.maxRecords == st.maxRecords
    decreases |rest|
  {
    if rest == [] {
      assert done + rest == done;
    } else {
      LoadWeightsFollows(LoadWeight(st, rest[0]), tree, done + [rest[0]], rest[1..]);
      assert done + [rest[0]] + rest[1..] == done + rest;
    }
  }

  /**
   Loading is determined by the disk, not by the order in which it iterates: exactly the
   acceptable cards and the eight-byte weights come back.
   */
  ghost predicate IsLoaded(admit: Admission, st: Store, disk: Disk)
  {
    && Coherent(admit, st)
    && (forall k :: k in st.records <==> ValidOnDisk(admit, disk, k))
    && (forall k :: k in st.records ==> st.records[k] == Record(k, disk.cards[k], None, None))
    && (forall k :: k in st.weightCache <==> k in disk.weights && |disk.weights[k]| == 8)
    && (forall k :: k in st.weightCache ==> st.weightCache[k] == disk.weights[k])
  }

  lemma ListedCards(admit: Admission, st: Store, disk: Disk, cards: seq<DiskEntry>)
    requires Lists(cards, disk.cards) && LoadedCards(admit, st, disk.cards, cards)
    ensures forall k :: k in st.records <==> ValidOnDisk(admit, disk, k)
  {
    forall k | ValidOnDisk(admit, disk, k) ensures k in st.records {
      var i :| 0 <= i < |cards| && cards[i] == DiskEntry(k, disk.cards[k]);
    }
  }

  lemma LoadIsLoaded(admit: Admission, maxRecords: nat, disk: Disk, cards: seq<DiskEntry>, weights: seq<DiskEntry>)
    requires Lists(cards, disk.cards) && Lists(weights, disk.weights)
    ensures var st := Load(admit, maxRecords, Some(disk), cards, weights);
            IsLoaded(admit, st, disk) && st.disk == Some(disk) && st.maxRecords == maxRecords
  {
    var empty := Empty(maxRecords, Some(disk));
    LoadCardsFollows(admit, empty, disk.cards, [], cards);
    assert [] + cards == cards;
    var mid := LoadCards(admit, empty, cards);
    ListedCards(admit, mid, disk, cards);
    ListedWeights(mid, disk, weights);
  }

  /** Loading the listed weights brings back those of eight bytes, and leaves the rest of the store alone. */
  lemma ListedWeights(st: Store, disk: Disk, weights: seq<DiskEntry>)
    requires Lists(weights, disk.weights) && st.weightCache == map[]
    ensures var st' := LoadWeights(st, weights);
            && (forall k :: k in st'.weightCache <==> k in disk.weights && |disk.weights[k]| == 8)
            && (forall k :: k in st'.weightCache ==> st'.weightCache[k] == disk.weights[k])
            && st'.records == st.records && st'.seqCache == st.seqCache && st'.disk == st.disk && st'.maxRecords == st.maxRecords
  {
    LoadWeightsFollows(st, disk.weights, [], weights);
    assert [] + weights == weights;
    var st' := LoadWeights(st, weights);
    forall k | k in disk.weights && |disk.weights[k]| == 8 ensures k in st'.weightCache {
      var i :| 0 <= i < |weights| && weights[i] == DiskEntry(k, disk.weights[k]);
    }
  }

  /** Even when some entries cannot be read, only acceptable records are loaded. */
  lemma LoadIsCoherent(admit: Admission, maxRecords: nat, disk: Option<Disk>, cards: seq<DiskEntry>, weights: seq<DiskEntry>)
    requires disk.Some? ==> Entries(cards, disk.value.cards) && Entries(weights, disk.value.weights)
    ensures Coherent(admit, Load(admit, maxRecords, disk, cards, weights))
  {
    if disk.Some? {
      var empty := Empty(maxRecords, disk);
      LoadCardsFollows(admit, empty, disk.value.cards, [], cards);
      LoadWeightsFollows(LoadCards(admit, empty, cards), disk.value.weights, [], weights);
    }
  }

  /** An entry for the key that was read and is acceptable. */
  ghost predicate ReadsCard(admit: Admission, entries: seq<DiskEntry>, key: Key, value: Bytes)
  {
    DiskEntry(key, value) in entries && admit(key, value).Some?
  }

  /**
   An entry that cannot be read costs only itself: held after loading are exactly the addresses
   of the acceptable entries that could be read, wherever the others stand among them.
   */
  lemma {:induction false} LoadSkipsUnreadable(admit: Admission, st: Store, entries: seq<DiskEntry>, key: Key)
    ensures key in LoadCards(admit, st, entries).records <==> key in st.records || ReadsSome(admit, entries, key)
    ensures key in LoadCards(admit, st, entries).records ==>
              || ReadsCard(admit, entries, key, LoadCards(admit, st, entries).records[key].value)
              || (key in st.records && LoadCards(admit, st, entries).records[key] == st.records[key])
    decreases |entries|
  {
    if entries == [] {
    } else {
      var rest := entries[1..];
      LoadSkipsUnreadable(admit, LoadCard(admit, st, entries[0]), rest, key);
      ReadsSomeStep(admit, entries, key);
      forall value ensures ReadsCard(admit, rest, key, value) ==> ReadsCard(admit, entries, key, value) {
        assert entries == [entries[0]] + rest;
      }
    }
  }

  ghost predicate ReadsSome(admit: Admission, entries: seq<DiskEntry>, key: Key)
  {
    exists value :: ReadsCard(admit, entries, key, value)
  }

  lemma ReadsSomeStep(admit: Admission, entries: seq<DiskEntry>, key: Key)
    requires entries != []
    ensures ReadsSome(admit, entries, key) <==>
              || (entries[0].DiskEntry? && entries[0].key == key && admit(key, entries[0].value).Some?)
              || ReadsSome(admit, entries[1..], key)
  {
    var first, rest := entries[0], entries[1..];
    assert entries == [first] + rest;
    if first.DiskEntry? && first.key == key && admit(key, first.value).Some? {
      assert ReadsCard(admit, entries, key, first.value);
    }
    if value :| ReadsCard(admit, rest, key, value) {
      assert ReadsCard(admit, entries, key, value);
    }
    if value :| ReadsCard(admit, entries, key, value) {
      assert first == DiskEntry(key, value) || ReadsCard(admit, rest, key, value);
    }
  }

  ghost predicate ReadsWeight(entries: seq<DiskEntry>, key: Key)
  {
    exists value :: DiskEntry(key, value) in entries && |value| == 8
  }

  /** The same for weights, of which those of eight bytes are loaded. */
  lemma {:induction false} WeightsSkipUnreadable(st: Store, entries: seq<DiskEntry>, key: Key)
    ensures key in LoadWeights(st, entries).weightCache <==> key in st.weightCache || ReadsWeight(entries, key)
    decreases |entries|
  {
    if entries == [] {
    } else {
      WeightsSkipUnreadable(LoadWeight(st, entries[0]), entries[1..], key);
      ReadsWeightStep(entries, key);
    }
  }

  lemma ReadsWeightStep(entries: seq<DiskEntry>, key: Key)
    requires entries != []
    ensures ReadsWeight(entries, key) <==>
              || (entries[0].DiskEntry? && entries[0].key == key && |entries[0].value| == 8)
              || ReadsWeight(entries[1..], key)
  {
    var first, rest := entries[0], entries[1..];
    assert entries == [first] + rest;
    if first.DiskEntry? && first.key == key && |first.value| == 8 {
      assert DiskEntry(key, first.value) in entries;
    }
  }

  lemma LoadKeepsRest(admit: Admission, maxRecords: nat, disk: Option<Disk>, cards: seq<DiskEntry>, weights: seq<DiskEntry>)
    requires disk.Some? ==> Entries(cards, disk.value.cards) && Entries(weights, disk.value.weights)
    ensures Load(admit, maxRecords, disk, cards, weights).maxRecords == maxRecords
    ensures Load(admit, maxRecords, disk, cards, weights).disk == disk
  {
    if disk.Some? {
      var empty := Empty(maxRecords, disk);
      LoadCardsFollows(admit, empty, disk.value.cards, [], cards);
      LoadWeightsFollows(LoadCards(admit, empty, cards), disk.value.weights, [], weights);
    }
  }

  // --- runs whose writes succeed -----------------------------------------

  ghost predicate AllWrites(ops: seq<Op>) { forall i :: 0 <= i < |ops| ==> ops[i].io }

  /** The disk and the memory say the same, publisher and expiry of a record aside. */
  ghost predicate DiskAgrees(admit: Admission, st: Store)
  {
    && st.disk.Some?
    && (forall k :: k in st.records <==> ValidOnDisk(admit, st.disk.value, k))
    && (forall k :: k in st.records ==> st.records[k].value == st.disk.value.cards[k])
    && (forall k :: k in st.weightCache <==> k in st.disk.value.weights && |st.disk.value.weights[k]| == 8)
    && (forall k :: k in st.weightCache ==> st.weightCache[k] == st.disk.value.weights[k])
  }

  lemma StepKeepsDiskAgreement(admit: Admission, st: Store, op: Op)
    requires Coherent(admit, st) && DiskAgrees(admit, st) && op.io
    ensures DiskAgrees(admit, Step(admit, st, op))
  {
  }

  lemma {:induction false} RunKeepsDiskAgreement(admit: Admission, st: Store, ops: seq<Op>)
    requires Coherent(admit, st) && DiskAgrees(admit, st) && AllWrites(ops)
    ensures DiskAgrees(admit, Run(admit, st, ops)) && Coherent(admit, Run(admit, st, ops))
  {
    if ops == [] {
    } else {
      var n := |ops| - 1;
      RunKeepsDiskAgreement(admit, st, ops[..n]);
      StepKeepsDiskAgreement(admit, Run(admit, st, ops[..n]), ops[n]);
      StepKeepsInvariant(admit, Run(admit, st, ops[..n]), ops[n]);
    }
  }

  /**
   Crash recovery. A node starts on any disk contents and runs any operations, all of whose
   writes succeed. A restart, whatever the order its disk iterates in, rebuilds the values,
   the cached seqs and the weights that were in memory.
   */
  lemma RestartRestoresMemory(admit: Admission, maxRecords: nat, disk: Disk, cards: seq<DiskEntry>, weights: seq<DiskEntry>,
                              ops: seq<Op>, cards': seq<DiskEntry>, weights': seq<DiskEntry>)
    requires Lists(cards, disk.cards) && Lists(weights, disk.weights) && AllWrites(ops)
    ensures var st := Run(admit, Load(admit, maxRecords, Some(disk), cards, weights), ops);
            && st.disk.Some?
            && (Lists(cards', st.disk.value.cards) && Lists(weights', st.disk.value.weights) ==>
                  var st' := Load(admit, maxRecords, st.disk, cards', weights');
                  && Values(st') == Values(st) && st'.seqCache == st.seqCache && st'.weightCache == st.weightCache)
  {
    LoadIsLoaded(admit, maxRecords, disk, cards, weights);
    var start := Load(admit, maxRecords, Some(disk), cards, weights);
    RunKeepsDiskAgreement(admit, start, ops);
    var st := Run(admit, start, ops);
    if Lists(cards', st.disk.value.cards) && Lists(weights', st.disk.value.weights) {
      LoadIsLoaded(admit, maxRecords, st.disk.value, cards', weights');
      AgreementRestores(admit, st, Load(admit, maxRecords, st.disk, cards', weights'));
    }
  }

  lemma AgreementRestores(admit: Admission, st: Store, st': Store)
    requires Coherent(admit, st) && DiskAgrees(admit, st) && IsLoaded(admit, st', st.disk.value)
    ensures Values(st') == Values(st) && st'.seqCache == st.seqCache && st'.weightCache == st.weightCache
  {
    assert forall k :: k in st.records <==> k in st'.records;
    assert forall k :: k in st.records ==> admit(k, st.records[k].value) == Some(st.seqCache[k]);
  }

  // --- runs whose writes may fail ----------------------------------------

  /** What is on disk is no newer than memory, and at an address memory knows. */
  ghost predicate DiskLags(admit: Admission, st: Store)
  {
    st.disk.Some? ==>
      forall k :: ValidOnDisk(admit, st.disk.value, k) ==>
        && k in st.records && k in st.seqCache
        && admit(k, st.disk.value.cards[k]).value <= st.seqCache[k]
  }

  lemma StepKeepsDiskLag(admit: Admission, st: Store, op: Op)
    requires Coherent(admit, st) && DiskLags(admit, st) && (op.RemoveOp? ==> op.io)
    ensures DiskLags(admit, Step(admit, st, op))
  {
  }

  lemma {:induction false} RunKeepsDiskLag(admit: Admission, st: Store, ops: seq<Op>)
    requires Coherent(admit, st) && DiskLags(admit, st)
    requires forall i :: 0 <= i < |ops| && ops[i].RemoveOp? ==> ops[i].io
    ensures DiskLags(admit, Run(admit, st, ops)) && Coherent(admit, Run(admit, st, ops))
  {
    if ops == [] {
    } else {
      var n := |ops| - 1;
      RunKeepsDiskLag(admit, st, ops[..n]);
      StepKeepsDiskLag(admit, Run(admit, st, ops[..n]), ops[n]);
      StepKeepsInvariant(admit, Run(admit, st, ops[..n]), ops[n]);
    }
  }

  /**
   Puts and weights may fail to reach the disk, removals reach it. A restart then yields
   only acceptable records, at addresses that were held, none newer than memory was, and no
   more of them than the store may hold.
   */
  lemma RestartAfterFailedWrites(admit: Admission, st: Store, ops: seq<Op>, cards: seq<DiskEntry>, weights: seq<DiskEntry>)
    requires Coherent(admit, st) && DiskLags(admit, st) && WithinCapacity(st) && st.disk.Some?
    requires forall i :: 0 <= i < |ops| && ops[i].RemoveOp? ==> ops[i].io
    ensures var st' := Run(admit, st, ops);
            && st'.disk.Some?
            && (Lists(cards, st'.disk.value.cards) && Lists(weights, st'.disk.value.weights) ==>
                  var again := Load(admit, st.maxRecords, st'.disk, cards, weights);
                  && Coherent(admit, again) && WithinCapacity(again)
                  && forall k :: k in again.records ==>
                       k in st'.seqCache && again.seqCache[k] <= st'.seqCache[k])
  {
    RunKeepsDiskLag(admit, st, ops);
    RunKeepsInvariant(admit, st, ops);
    RunKeepsDisk(admit, st, ops);
    var st' := Run(admit, st, ops);
    if Lists(cards, st'.disk.value.cards) && Lists(weights, st'.disk.value.weights) {
      LoadIsLoaded(admit, st.maxRecords, st'.disk.value, cards, weights);
      var again := Load(admit, st.maxRecords, st'.disk, cards, weights);
      assert again.records.Keys <= st'.records.Keys;
      SubsetSize(again.records.Keys, st'.records.Keys);
      KeysSize(again.records);
      KeysSize(st'.records);
    }
  }

  // --- removals whose writes may fail -------------------------------------

  predicate RemovesKey(op: Op, key: Key) { op.RemoveOp? && op.key == key }

  predicate OnDisk(admit: Admission, st: Store, key: Key)
  {
    st.disk.Some? && ValidOnDisk(admit, st.disk.value, key)
  }

  /** `ops[i]` is the last removal of the key; it failed on disk, where it found an acceptable entry. */
  ghost predicate FailedLast(admit: Admission, st: Store, ops: seq<Op>, key: Key, i: nat)
  {
    && i < |ops| && RemovesKey(ops[i], key) && !ops[i].io && OnDisk(admit, Run(admit, st, ops[..i]), key)
    && forall j :: i < j < |ops| ==> !RemovesKey(ops[j], key)
  }

  lemma FailedLastPrefix(admit: Admission, st: Store, ops: seq<Op>, key: Key, i: nat)
    requires ops != [] && !RemovesKey(ops[|ops| - 1], key)
    ensures FailedLast(admit, st, ops[..|ops| - 1], key, i) <==> FailedLast(admit, st, ops, key, i)
  {
    var front := ops[..|ops| - 1];
    if i < |front| {
      assert front[..i] == ops[..i];
      if FailedLast(admit, st, front, key, i) {
        forall j | i < j < |ops| ensures !RemovesKey(ops[j], key) {
          if j < |front| { assert front[j] == ops[j]; }
        }
      }
      if FailedLast(admit, st, ops, key, i) {
        forall j | i < j < |front| ensures !RemovesKey(front[j], key) {
          assert front[j] == ops[j];
        }
      }
    }
  }

  /** An operation after which the key is absent, and which does not remove it, leaves its disk entry alone. */
  lemma AbsentKeepsDisk(admit: Admission, st: Store, op: Op, key: Key)
    requires !RemovesKey(op, key) && key !in Step(admit, st, op).records
    ensures key !in st.records && (OnDisk(admit, Step(admit, st, op), key) <==> OnDisk(admit, st, key))
  {
    match op
    case PutOp(r, io) =>
      if r.key == key { assert Put(admit, st, r, io) == st; }
    case RemoveOp(k, io) =>
      assert key in st.records ==> key in Remove(st, k, io).records;
    case WeightOp(k, w, io) =>
  }

  lemma RemovalOnDisk(admit: Admission, st: Store, op: Op, key: Key)
    requires RemovesKey(op, key)
    ensures OnDisk(admit, Step(admit, st, op), key) <==> !op.io && OnDisk(admit, st, key)
  {
  }

  lemma LastRemovalOnDisk(admit: Admission, st: Store, ops: seq<Op>, key: Key)
    requires ops != [] && RemovesKey(ops[|ops| - 1], key)
    ensures OnDisk(admit, Run(admit, st, ops), key) <==> exists i: nat :: FailedLast(admit, st, ops, key, i)
  {
    var n := |ops| - 1;
    RemovalOnDisk(admit, Run(admit, st, ops[..n]), ops[n], key);
    if OnDisk(admit, Run(admit, st, ops), key) {
      assert FailedLast(admit, st, ops, key, n);
    }
    if i: nat :| FailedLast(admit, st, ops, key, i) {
      assert i == n;
    }
  }

  /** The last removal of the key failed on disk, or an entry that was there from the start was never removed. */
  ghost predicate LeftOnDisk(admit: Admission, st: Store, ops: seq<Op>, key: Key)
  {
    (exists i: nat :: FailedLast(admit, st, ops, key, i)) || (OnDisk(admit, st, key) && NeverRemoves(ops, key))
  }

  lemma LeftOnDiskPrefix(admit: Admission, st: Store, ops: seq<Op>, key: Key)
    requires ops != [] && !RemovesKey(ops[|ops| - 1], key)
    ensures LeftOnDisk(admit, st, ops[..|ops| - 1], key) <==> LeftOnDisk(admit, st, ops, key)
  {
    var n := |ops| - 1;
    var front := ops[..n];
    forall i: nat ensures FailedLast(admit, st, front, key, i) <==> FailedLast(admit, st, ops, key, i) {
      FailedLastPrefix(admit, st, ops, key, i);
    }
    if NeverRemoves(front, key) {
      forall i | 0 <= i < |ops| ensures !RemovesKey(ops[i], key) {
        if i < n { assert front[i] == ops[i]; }
      }
    }
  }

  /** When an absent key is on disk. */
  lemma {:induction false} AbsentOnDiskIff(admit: Admission, st: Store, ops: seq<Op>, key: Key)
    requires key !in Run(admit, st, ops).records
    ensures OnDisk(admit, Run(admit, st, ops), key) <==> LeftOnDisk(admit, st, ops, key)
  {
    if ops == [] {
    } else {
      var n := |ops| - 1;
      if RemovesKey(ops[n], key) {
        LastRemovalOnDisk(admit, st, ops, key);
      } else {
        AbsentKeepsDisk(admit, Run(admit, st, ops[..n]), ops[n], key);
        AbsentOnDiskIff(admit, st, ops[..n], key);
        LeftOnDiskPrefix(admit, st, ops, key);
      }
    }
  }

  /**
   Exactly when an absent record comes back. After any run from any start, whatever writes
   failed in it, an address that memory does not hold is held again after a restart if and
   only if its last removal failed on disk while an acceptable entry was there, or such an
   entry was there from the start, as one that could not be read when the store was opened,
   and the address was never removed.
   */
  lemma RemovedComesBackIff(admit: Admission, st: Store, ops: seq<Op>, key: Key, maxRecords: nat,
                            cards: seq<DiskEntry>, weights: seq<DiskEntry>)
    requires st.disk.Some? && key !in Run(admit, st, ops).records
    requires ListsDisk(Run(admit, st, ops), cards, weights)
    ensures key in Load(admit, maxRecords, Run(admit, st, ops).disk, cards, weights).records
            <==> LeftOnDisk(admit, st, ops, key)
  {
    AbsentOnDiskIff(admit, st, ops, key);
    RunKeepsDisk(admit, st, ops);
    LoadIsLoaded(admit, maxRecords, Run(admit, st, ops).disk.value, cards, weights);
  }

  /** The entries list both trees of the store's disk, each in any order. */
  ghost predicate ListsDisk(st: Store, cards: seq<DiskEntry>, weights: seq<DiskEntry>)
  {
    st.disk.Some? ==> Lists(cards, st.disk.value.cards) && Lists(weights, st.disk.value.weights)
  }

  // --- the disk in terms of the run ---------------------------------------

  /** The store takes the put: it is at the key, and newer than what is held there. */
  predicate Takes(admit: Admission, st: Store, op: Op, key: Key)
  {
    op.PutOp? && op.record.key == key && Put(admit, st, op.record, true).seqCache != st.seqCache
  }

  /** A removal of the key, or a put that the store takes there, which reaches the disk. */
  predicate Writes(admit: Admission, st: Store, op: Op, key: Key)
  {
    op.io && (RemovesKey(op, key) || Takes(admit, st, op, key))
  }

  /** The last operation that wrote the key's entry. */
  function LastWrite(admit: Admission, st: Store, ops: seq<Op>, key: Key): (i: Option<nat>)
    ensures i.Some? ==> i.value < |ops|
  {
    if ops == [] then None else
    var n := |ops| - 1;
    if Writes(admit, Run(admit, st, ops[..n]), ops[n], key) then Some(n) else LastWrite(admit, st, ops[..n], key)
  }

  /** The last put at the key that the store took. */
  function LastTaken(admit: Admission, st: Store, ops: seq<Op>, key: Key): (i: Option<nat>)
    ensures i.Some? ==> i.value < |ops| && ops[i.value].PutOp?
  {
    if ops == [] then None else
    var n := |ops| - 1;
    if Takes(admit, Run(admit, st, ops[..n]), ops[n], key) then Some(n) else LastTaken(admit, st, ops[..n], key)
  }

  lemma StepWrites(admit: Admission, st: Store, op: Op, key: Key)
    requires st.disk.Some?
    ensures Step(admit, st, op).disk.Some?
    ensures var before, after := st.disk.value.cards, Step(admit, st, op).disk.value.cards;
            if !Writes(admit, st, op, key) then
              (key in after <==> key in before) && (key in after ==> after[key] == before[key])
            else if op.RemoveOp? then key !in after
            else op.PutOp? && key in after && after[key] == op.record.value && admit(key, after[key]).Some?
  {
    if op.PutOp? {
      var r := op.record;
      if PutResult(admit, st, r).Ok? && !(r.key in st.seqCache && admit(r.key, r.value).value <= st.seqCache[r.key]) {
        assert Put(admit, st, r, true).seqCache[r.key] == admit(r.key, r.value).value;
      }
    }
  }

  /**
   The disk in terms of the run alone: what it holds at a key is what the last successful write
   there left, the put value or nothing, and without any such write what it held at the start.
   */
  lemma {:induction false} DiskFollowsLastWrite(admit: Admission, st: Store, ops: seq<Op>, key: Key)
    requires st.disk.Some?
    ensures Run(admit, st, ops).disk.Some?
    ensures var before, after := st.disk.value.cards, Run(admit, st, ops).disk.value.cards;
            match LastWrite(admit, st, ops, key)
            case None => (key in after <==> key in before) && (key in after ==> after[key] == before[key])
            case Some(i) => if ops[i].RemoveOp? then key !in after
                            else ops[i].PutOp? && key in after && after[key] == ops[i].record.value
                                 && admit(key, after[key]).Some?
  {
    if ops == [] {
    } else {
      var n := |ops| - 1;
      DiskFollowsLastWrite(admit, st, ops[..n], key);
      StepWrites(admit, Run(admit, st, ops[..n]), ops[n], key);
    }
  }

  /** What the last write left: a put value, or what was there at the start if nothing was written. */
  ghost predicate Survives(admit: Admission, st: Store, ops: seq<Op>, key: Key)
  {
    match LastWrite(admit, st, ops, key)
    case None => OnDisk(admit, st, key)
    case Some(i) => ops[i].PutOp?
  }

  /**
   What a restart holds, in terms of the run alone and whatever writes failed in it: the address
   is held exactly if its last write was a put, or it was on disk from the start and never
   written, and the value held is the one so written.
   */
  lemma RestartHoldsIff(admit: Admission, st: Store, ops: seq<Op>, key: Key, maxRecords: nat,
                        cards: seq<DiskEntry>, weights: seq<DiskEntry>)
    requires st.disk.Some? && ListsDisk(Run(admit, st, ops), cards, weights)
    ensures var again := Load(admit, maxRecords, Run(admit, st, ops).disk, cards, weights);
            && (key in again.records <==> Survives(admit, st, ops, key))
            && (key in again.records ==>
                  again.records[key].value == match LastWrite(admit, st, ops, key)
                                              case None => st.disk.value.cards[key]
                                              case Some(i) => ops[i].record.value)
  {
    DiskFollowsLastWrite(admit, st, ops, key);
    LoadIsLoaded(admit, maxRecords, Run(admit, st, ops).disk.value, cards, weights);
  }

  // --- what a restart does to held records --------------------------------

  /** Memory and disk hold the same value at the key, or neither holds one. */
  predicate AgreesAt(admit: Admission, st: Store, key: Key)
  {
    && (key in st.records <==> OnDisk(admit, st, key))
    && (key in st.records ==> st.disk.Some? && st.disk.value.cards[key] == st.records[key].value)
  }

  /** What is on disk at the key, if anything, is strictly older than what memory holds. */
  predicate StaleAt(admit: Admission, st: Store, key: Key)
  {
    && key in st.records && key in st.seqCache
    && (OnDisk(admit, st, key) ==> admit(key, st.disk.value.cards[key]).value < st.seqCache[key])
  }

  /** The last put that the store took at the key reached the disk, or it took none. */
  predicate LastTakenWritten(admit: Admission, st: Store, ops: seq<Op>, key: Key)
  {
    match LastTaken(admit, st, ops, key)
    case None => true
    case Some(i) => ops[i].io
  }

  /** Either the disk is up to date at the key, or it is strictly behind memory. */
  predicate Standing(admit: Admission, st: Store, key: Key, written: bool)
  {
    if key !in st.records || written then AgreesAt(admit, st, key) else StaleAt(admit, st, key)
  }

  lemma StepStanding(admit: Admission, st: Store, op: Op, key: Key, written: bool)
    requires Coherent(admit, st) && st.disk.Some? && Standing(admit, st, key, written)
    requires RemovesKey(op, key) ==> op.io
    ensures Standing(admit, Step(admit, st, op), key, if Takes(admit, st, op, key) then op.io else written)
  {
    match op
    case PutOp(r, io) => PutStanding(admit, st, r, io, key, written);
    case RemoveOp(k, io) =>
    case WeightOp(k, w, io) =>
  }

  lemma PutStanding(admit: Admission, st: Store, r: Record, io: bool, key: Key, written: bool)
    requires Coherent(admit, st) && st.disk.Some? && Standing(admit, st, key, written)
    ensures Standing(admit, Put(admit, st, r, io), key, if Takes(admit, st, PutOp(r, io), key) then io else written)
  {
    if Takes(admit, st, PutOp(r, io), key) {
    } else if r.key == key {
      assert Put(admit, st, r, io) == st by { NotTaken(admit, st, r, io); }
    }
  }

  lemma NotTaken(admit: Admission, st: Store, r: Record, io: bool)
    requires Coherent(admit, st) && !Takes(admit, st, PutOp(r, io), r.key)
    ensures Put(admit, st, r, io) == st
  {
    var same := Put(admit, st, r, true).seqCache;
    assert same == st.seqCache;
    assert r.key in same ==> same[r.key] == st.seqCache[r.key];
  }

  lemma LastTakenStep(admit: Admission, st: Store, ops: seq<Op>, key: Key)
    requires ops != []
    ensures var n := |ops| - 1;
            LastTakenWritten(admit, st, ops, key)
            == if Takes(admit, Run(admit, st, ops[..n]), ops[n], key) then ops[n].io
               else LastTakenWritten(admit, st, ops[..n], key)
  {
  }

  lemma {:induction false} RunStanding(admit: Admission, st: Store, ops: seq<Op>, key: Key)
    requires Coherent(admit, st) && st.disk.Some? && AgreesAt(admit, st, key)
    requires forall i :: 0 <= i < |ops| && RemovesKey(ops[i], key) ==> ops[i].io
    ensures Standing(admit, Run(admit, st, ops), key, LastTakenWritten(admit, st, ops, key))
  {
    if ops == [] {
    } else {
      var n := |ops| - 1;
      RunStanding(admit, st, ops[..n], key);
      RunKeepsInvariant(admit, st, ops[..n]);
      RunKeepsDisk(admit, st, ops[..n]);
      StepStanding(admit, Run(admit, st, ops[..n]), ops[n], key, LastTakenWritten(admit, st, ops[..n], key));
      LastTakenStep(admit, st, ops, key);
    }
  }

  /**
   Exactly when a held record survives a restart. Puts may fail to reach the disk, removals of
   the address reach it. A value held comes back if and only if the last put that the store
   took there reached the disk, or none was taken. Otherwise the restarted store holds nothing
   there, or something strictly older.
   */
  lemma HeldSurvivesRestartIff(admit: Admission, st: Store, ops: seq<Op>, key: Key, maxRecords: nat,
                               cards: seq<DiskEntry>, weights: seq<DiskEntry>)
    requires Coherent(admit, st) && st.disk.Some? && AgreesAt(admit, st, key)
    requires forall i :: 0 <= i < |ops| && RemovesKey(ops[i], key) ==> ops[i].io
    requires key in Run(admit, st, ops).records && ListsDisk(Run(admit, st, ops), cards, weights)
    ensures var end := Run(admit, st, ops);
            var again := Load(admit, maxRecords, end.disk, cards, weights);
            && key in end.seqCache && (key in again.records ==> key in again.seqCache)
            && (key in again.records && again.records[key].value == end.records[key].value
                <==> LastTakenWritten(admit, st, ops, key))
            && (!LastTakenWritten(admit, st, ops, key) ==>
                  key in again.records ==> again.seqCache[key] < end.seqCache[key])
  {
    var end := Run(admit, st, ops);
    RunStanding(admit, st, ops, key);
    RunKeepsInvariant(admit, st, ops);
    RunKeepsDisk(admit, st, ops);
    LoadIsLoaded(admit, maxRecords, end.disk.value, cards, weights);
  }

  /** The disk holds exactly this value at the key, and it is acceptable there. */
  predicate SameOnDisk(admit: Admission, st: Store, key: Key, value: Bytes)
  {
    OnDisk(admit, st, key) && st.disk.value.cards[key] == value
  }

  /**
   The last put that the store took at the key reached the disk, or found its own value there;
   without any, the start found there what it held.
   */
  predicate LastTakenOnDisk(admit: Admission, st: Store, ops: seq<Op>, key: Key)
  {
    match LastTaken(admit, st, ops, key)
    case None => key in st.records && SameOnDisk(admit, st, key, st.records[key].value)
    case Some(i) => ops[i].io || SameOnDisk(admit, Run(admit, st, ops[..i]), key, ops[i].record.value)
  }

  lemma LastTakenOnDiskStep(admit: Admission, st: Store, ops: seq<Op>, key: Key)
    requires ops != []
    ensures var n := |ops| - 1;
            var mid := Run(admit, st, ops[..n]);
            LastTakenOnDisk(admit, st, ops, key)
            == if Takes(admit, mid, ops[n], key) then ops[n].io || SameOnDisk(admit, mid, key, ops[n].record.value)
               else LastTakenOnDisk(admit, st, ops[..n], key)
  {
    var n := |ops| - 1;
    var i := LastTaken(admit, st, ops[..n], key);
    if i.Some? { assert ops[..n][..i.value] == ops[..i.value]; }
  }

  lemma TakenOnDisk(admit: Admission, st: Store, op: Op, key: Key)
    requires st.disk.Some? && Takes(admit, st, op, key)
    ensures var st', v := Step(admit, st, op), op.record.value;
            && key in st'.records && st'.records[key].value == v
            && (SameOnDisk(admit, st', key, v) <==> op.io || SameOnDisk(admit, st, key, v))
  {
  }

  lemma UntakenOnDisk(admit: Admission, st: Store, op: Op, key: Key)
    requires Coherent(admit, st) && st.disk.Some? && !Takes(admit, st, op, key) && key in Step(admit, st, op).records
    ensures var st' := Step(admit, st, op);
            && key in st.records && st'.records[key] == st.records[key]
            && forall v :: SameOnDisk(admit, st', key, v) <==> SameOnDisk(admit, st, key, v)
  {
    if op.PutOp? && op.record.key == key { NotTaken(admit, st, op.record, op.io); }
  }

  lemma {:induction false} HeldOnDiskIff(admit: Admission, st: Store, ops: seq<Op>, key: Key)
    requires Coherent(admit, st) && st.disk.Some? && key in Run(admit, st, ops).records
    ensures SameOnDisk(admit, Run(admit, st, ops), key, Run(admit, st, ops).records[key].value)
            <==> LastTakenOnDisk(admit, st, ops, key)
  {
    if ops == [] {
    } else {
      var n := |ops| - 1;
      var mid := Run(admit, st, ops[..n]);
      RunKeepsInvariant(admit, st, ops[..n]);
      RunKeepsDisk(admit, st, ops[..n]);
      LastTakenOnDiskStep(admit, st, ops, key);
      if Takes(admit, mid, ops[n], key) {
        TakenOnDisk(admit, mid, ops[n], key);
      } else {
        UntakenOnDisk(admit, mid, ops[n], key);
        HeldOnDiskIff(admit, st, ops[..n], key);
      }
    }
  }

  /**
   Exactly when a held value comes back, after any run from any coherent start and whatever
   writes failed: the last put that the store took there reached the disk or found its own
   value there, or the store took none and had its value on disk from the start.
   */
  lemma HeldComesBackIff(admit: Admission, st: Store, ops: seq<Op>, key: Key, maxRecords: nat,
                         cards: seq<DiskEntry>, weights: seq<DiskEntry>)
    requires Coherent(admit, st) && st.disk.Some? && key in Run(admit, st, ops).records
    requires ListsDisk(Run(admit, st, ops), cards, weights)
    ensures var end := Run(admit, st, ops);
            var again := Load(admit, maxRecords, end.disk, cards, weights);
            key in again.records && again.records[key].value == end.records[key].value
            <==> LastTakenOnDisk(admit, st, ops, key)
  {
    HeldOnDiskIff(admit, st, ops, key);
    RunKeepsDisk(admit, st, ops);
    LoadIsLoaded(admit, maxRecords, Run(admit, st, ops).disk.value, cards, weights);
  }

  // --- when a restarted store fits ----------------------------------------

  ghost function ValidDiskKeys(admit: Admission, disk: Disk): (s: set<Key>)
  {
    set k | k in disk.cards && ValidOnDisk(admit, disk, k)
  }

  /** A loaded store holds as many records as its disk has acceptable entries, and so fits exactly if they do. */
  lemma LoadFitsIff(admit: Admission, maxRecords: nat, disk: Disk, cards: seq<DiskEntry>, weights: seq<DiskEntry>)
    requires Lists(cards, disk.cards) && Lists(weights, disk.weights)
    ensures Load(admit, maxRecords, Some(disk), cards, weights).records.Keys == ValidDiskKeys(admit, disk)
    ensures WithinCapacity(Load(admit, maxRecords, Some(disk), cards, weights))
            <==> |ValidDiskKeys(admit, disk)| <= maxRecords
  {
    LoadIsLoaded(admit, maxRecords, disk, cards, weights);
    KeysSize(Load(admit, maxRecords, Some(disk), cards, weights).records);
  }

  /** The addresses held at the end of a run that are on disk. */
  ghost function HeldOnDisk(admit: Admission, end: Store): (s: set<Key>)
  {
    set k | k in end.records && OnDisk(admit, end, k)
  }

  /** The addresses not held at the end of a run that it left on disk. */
  ghost function LeftOver(admit: Admission, st: Store, ops: seq<Op>): (s: set<Key>)
    requires Run(admit, st, ops).disk.Some?
  {
    var end := Run(admit, st, ops);
    set k | k in end.disk.value.cards && k !in end.records && LeftOnDisk(admit, st, ops, k)
  }

  lemma DisjointSizes<T>(a: set<T>, b: set<T>, c: set<T>)
    requires c == a + b && a !! b
    ensures |c| == |a| + |b|
  {
  }

  lemma DiskKeysSplit(admit: Admission, st: Store, ops: seq<Op>)
    requires Run(admit, st, ops).disk.Some?
    ensures var end := Run(admit, st, ops);
            |ValidDiskKeys(admit, end.disk.value)| == |HeldOnDisk(admit, end)| + |LeftOver(admit, st, ops)|
  {
    var end := Run(admit, st, ops);
    var valid, held, left := ValidDiskKeys(admit, end.disk.value), HeldOnDisk(admit, end), LeftOver(admit, st, ops);
    forall k ensures k in valid <==> k in held || k in left {
      if k !in end.records { AbsentOnDiskIff(admit, st, ops, k); }
    }
    DisjointSizes(held, left, valid);
  }

  /**
   Exactly when a restarted store fits, after any run from any start and whatever writes failed:
   the held addresses that are on disk and the absent ones that were left there, by a failed
   removal or unread from the start, must together fit.
   */
  lemma RestartFitsIff(admit: Admission, st: Store, ops: seq<Op>, cards: seq<DiskEntry>, weights: seq<DiskEntry>)
    requires st.disk.Some? && ListsDisk(Run(admit, st, ops), cards, weights)
    ensures Run(admit, st, ops).disk.Some?
    ensures var end := Run(admit, st, ops);
            WithinCapacity(Load(admit, st.maxRecords, end.disk, cards, weights))
            <==> |HeldOnDisk(admit, end)| + |LeftOver(admit, st, ops)| <= st.maxRecords
  {
    RunKeepsDisk(admit, st, ops);
    DiskKeysSplit(admit, st, ops);
    LoadFitsIff(admit, st.maxRecords, Run(admit, st, ops).disk.value, cards, weights);
  }

  /** What is held is on disk. */
  ghost predicate AllOnDisk(admit: Admission, st: Store)
  {
    forall k :: k in st.records ==> OnDisk(admit, st, k)
  }

  lemma StepKeepsAllOnDisk(admit: Admission, st: Store, op: Op)
    requires AllOnDisk(admit, st) && st.disk.Some? && (op.PutOp? ==> op.io)
    ensures AllOnDisk(admit, Step(admit, st, op))
  {
    var st' := Step(admit, st, op);
    forall k | k in st'.records ensures OnDisk(admit, st', k) {
      assert k in st.records ==> OnDisk(admit, st, k);
    }
  }

  lemma {:induction false} RunKeepsAllOnDisk(admit: Admission, st: Store, ops: seq<Op>)
    requires AllOnDisk(admit, st) && st.disk.Some?
    requires forall i :: 0 <= i < |ops| && ops[i].PutOp? ==> ops[i].io
    ensures AllOnDisk(admit, Run(admit, st, ops))
  {
    if ops == [] {
    } else {
      var n := |ops| - 1;
      RunKeepsAllOnDisk(admit, st, ops[..n]);
      RunKeepsDisk(admit, st, ops[..n]);
      StepKeepsAllOnDisk(admit, Run(admit, st, ops[..n]), ops[n]);
    }
  }

  /**
   With puts that reach the disk and removals that may fail: the restarted store fits exactly
   if the records held and those left over together do.
   */
  lemma FitsWithLeftOversIff(admit: Admission, st: Store, ops: seq<Op>, cards: seq<DiskEntry>, weights: seq<DiskEntry>)
    requires AllOnDisk(admit, st) && st.disk.Some? && ListsDisk(Run(admit, st, ops), cards, weights)
    requires forall i :: 0 <= i < |ops| && ops[i].PutOp? ==> ops[i].io
    ensures Run(admit, st, ops).disk.Some?
    ensures var end := Run(admit, st, ops);
            WithinCapacity(Load(admit, st.maxRecords, end.disk, cards, weights))
            <==> |end.records| + |LeftOver(admit, st, ops)| <= st.maxRecords
  {
    RunKeepsAllOnDisk(admit, st, ops);
    RestartFitsIff(admit, st, ops, cards, weights);
    var end := Run(admit, st, ops);
    assert HeldOnDisk(admit, end) == end.records.Keys;
    KeysSize(end.records);
  }

  lemma FailedRemovalRun(admit: Admission, a: Record, b: Record)
    requires a.key != b.key && admit(a.key, a.value).Some? && admit(b.key, b.value).Some?
    ensures Run(admit, Empty(1, Some(Disk(map[], map[]))), [PutOp(a, true), RemoveOp(a.key, false), PutOp(b, true)])
         == Store(map[b.key := b], map[b.key := admit(b.key, b.value).value], map[], 1,
                  Some(Disk(map[a.key := a.value, b.key := b.value], map[])))
  {
    var ops := [PutOp(a, true), RemoveOp(a.key, false), PutOp(b, true)];
    var disk := Some(Disk(map[a.key := a.value], map[]));
    var st0 := Empty(1, Some(Disk(map[], map[])));
    assert ops[..2][..1] == [PutOp(a, true)] && [PutOp(a, true)][..0] == [];
    assert Run(admit, st0, [PutOp(a, true)]) == Put(admit, st0, a, true);
    assert Run(admit, st0, ops[..2]) == Remove(Put(admit, st0, a, true), a.key, false);
    assert Run(admit, st0, ops[..2]) == Empty(1, disk);
    assert Run(admit, st0, ops) == Put(admit, Empty(1, disk), b, true);
  }

  /** The smallest case in which it does not fit: a load does not look at the capacity. */
  lemma FailedRemovalComesBack(admit: Admission, a: Record, b: Record)
    requires a.key != b.key && admit(a.key, a.value).Some? && admit(b.key, b.value).Some?
    ensures var ops := [PutOp(a, true), RemoveOp(a.key, false), PutOp(b, true)];
            var st := Run(admit, Empty(1, Some(Disk(map[], map[]))), ops);
            var cards := [DiskEntry(a.key, a.value), DiskEntry(b.key, b.value)];
            && st.disk.Some? && Lists(cards, st.disk.value.cards) && Lists([], st.disk.value.weights)
            && WithinCapacity(st) && a.key !in st.records
            && a.key in Load(admit, 1, st.disk, cards, []).records
            && !WithinCapacity(Load(admit, 1, st.disk, cards, []))
  {
    FailedRemovalRun(admit, a, b);
    BothLoaded(admit, a, b, Disk(map[a.key := a.value, b.key := b.value], map[]));
  }

  lemma BothLoaded(admit: Admission, a: Record, b: Record, disk: Disk)
    requires a.key != b.key && admit(a.key, a.value).Some? && admit(b.key, b.value).Some?
    requires disk == Disk(map[a.key := a.value, b.key := b.value], map[])
    ensures var cards := [DiskEntry(a.key, a.value), DiskEntry(b.key, b.value)];
            && Lists(cards, disk.cards) && Lists([], disk.weights)
            && a.key in Load(admit, 1, Some(disk), cards, []).records
            && |Load(admit, 1, Some(disk), cards, []).records| == 2
            && Load(admit, 1, Some(disk), cards, []).maxRecords == 1
  {
    var cards := [DiskEntry(a.key, a.value), DiskEntry(b.key, b.value)];
    assert cards[0] in cards && cards[1] in cards;
    LoadIsLoaded(admit, 1, disk, cards, []);
    var again := Load(admit, 1, Some(disk), cards, []);
    assert ValidOnDisk(admit, disk, a.key) && ValidOnDisk(admit, disk, b.key);
    assert again.records.Keys == {a.key, b.key};
    KeysSize(again.records);
  }
}
