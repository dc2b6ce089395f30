/** What a store holds after any run of operations, address by address. */
module StoreRuns {
  import opened Wrappers
  import opened Octets
  import opened StoreSpec

  // --- weights and removals along a run ----------------------------------

  predicate Weighs(op: Op, key: Key) { op.WeightOp? && op.key == key }

  lemma RunLast(admit: Admission, st: Store, ops: seq<Op>)
    requires ops != []
    ensures Run(admit, st, ops) == Step(admit, Run(admit, st, ops[..|ops| - 1]), ops[|ops| - 1])
  {
  }

  /** The map holds `w` at the key, or what it held before if `w` is not given. */
  predicate SetTo(before: map<Key, Bytes>, after: map<Key, Bytes>, key: Key, w: Option<Bytes>)
  {
    match w
    case Some(bytes) => key in after && after[key] == bytes
    case None => (key in after <==> key in before) && (key in before ==> after[key] == before[key])
  }

  lemma StepWeighs(admit: Admission, st: Store, op: Op, key: Key)
    ensures var st' := Step(admit, st, op);
            && SetTo(st.weightCache, st'.weightCache, key, if Weighs(op, key) then Some(op.weight) else None)
            && (st'.disk.Some? <==> st.disk.Some?)
            && (st.disk.Some? ==> SetTo(st.disk.value.weights, st'.disk.value.weights, key,
                                        if Weighs(op, key) && op.io then Some(op.weight) else None))
  {
    match op
    case PutOp(_, _) =>
    case RemoveOp(_, _) =>
    case WeightOp(_, _, _) =>
  }

  /** After any run the weight in memory is the one set last. */
  lemma {:induction false} WeightIsLastSet(admit: Admission, st: Store, ops: seq<Op>, key: Key, i: nat)
    requires i < |ops| && Weighs(ops[i], key) && forall j :: i < j < |ops| ==> !Weighs(ops[j], key)
    ensures var weights := Run(admit, st, ops).weightCache; key in weights && weights[key] == ops[i].weight
    decreases |ops|
  {
    var n := |ops| - 1;
    RunLast(admit, st, ops);
    StepWeighs(admit, Run(admit, st, ops[..n]), ops[n], key);
    if i < n {
      WeightIsLastSet(admit, st, ops[..n], key, i);
    }
  }

  /** The weight on disk is the one whose write succeeded last. */
  lemma {:induction false} WeightOnDiskIsLastWritten(admit: Admission, st: Store, ops: seq<Op>, key: Key, i: nat)
    requires st.disk.Some? && i < |ops| && Weighs(ops[i], key) && ops[i].io
    requires forall j :: i < j < |ops| && Weighs(ops[j], key) ==> !ops[j].io
    ensures var disk := Run(admit, st, ops).disk;
            disk.Some? && key in disk.value.weights && disk.value.weights[key] == ops[i].weight
    decreases |ops|
  {
    var n := |ops| - 1;
    RunLast(admit, st, ops);
    StepWeighs(admit, Run(admit, st, ops[..n]), ops[n], key);
    if i < n {
      WeightOnDiskIsLastWritten(admit, st, ops[..n], key, i);
    } else {
      RunKeepsDisk(admit, st, ops[..n]);
    }
  }

  lemma {:induction false} RunKeepsDisk(admit: Admission, st: Store, ops: seq<Op>)
    ensures Run(admit, st, ops).disk.Some? <==> st.disk.Some?
  {
    if ops == [] {
    } else {
      RunKeepsDisk(admit, st, ops[..|ops| - 1]);
    }
  }

  /** A weight that no operation sets is not touched, in memory or on disk. */
  lemma {:induction false} WeightUntouched(admit: Admission, st: Store, ops: seq<Op>, key: Key)
    requires forall i :: 0 <= i < |ops| ==> !Weighs(ops[i], key)
    ensures var st' := Run(admit, st, ops);
            && SetTo(st.weightCache, st'.weightCache, key, None)
            && (st'.disk.Some? <==> st.disk.Some?)
            && (st.disk.Some? ==> SetTo(st.disk.value.weights, st'.disk.value.weights, key, None))
  {
    if ops == [] {
    } else {
      var n := |ops| - 1;
      WeightUntouched(admit, st, ops[..n], key);
      RunLast(admit, st, ops);
      StepWeighs(admit, Run(admit, st, ops[..n]), ops[n], key);
    }
  }

  /** Once removed, an address stays unheld until something acceptable is put there. */
  lemma {:induction false} RemovedStaysAbsent(admit: Admission, st: Store, ops: seq<Op>, key: Key, i: nat)
    requires i < |ops| && ops[i].RemoveOp? && ops[i].key == key
    requires forall j: nat :: i < j ==> !ValidPut(admit, ops, key, j)
    ensures key !in Run(admit, st, ops).records && key !in Run(admit, st, ops).seqCache
    decreases |ops|
  {
    var n := |ops| - 1;
    if i < n {
      forall j: nat | i < j ensures !ValidPut(admit, ops[..n], key, j) {
        if j < n { ValidPutPrefix(admit, ops, n, key, j); }
      }
      RemovedStaysAbsent(admit, st, ops[..n], key, i);
      assert !ValidPut(admit, ops, key, n);
    }
  }

  // --- one address along a run -------------------------------------------

  /** `ops[i]` puts an acceptable value at `key`. */
  predicate ValidPut(admit: Admission, ops: seq<Op>, key: Key, i: nat)
  {
    && i < |ops| && ops[i].PutOp? && ops[i].record.key == key
    && admit(key, ops[i].record.value).Some?
  }

  function SeqAt(admit: Admission, ops: seq<Op>, key: Key, i: nat): (s: u64)
    requires ValidPut(admit, ops, key, i)
  {
    admit(key, ops[i].record.value).value
  }

  /** `ops[i]` is the first put at `key` that attains the greatest seq put there. */
  ghost predicate FirstMax(admit: Admission, ops: seq<Op>, key: Key, i: nat)
  {
    && ValidPut(admit, ops, key, i)
    && forall j: nat :: ValidPut(admit, ops, key, j) ==>
         && SeqAt(admit, ops, key, j) <= SeqAt(admit, ops, key, i)
         && (j < i ==> SeqAt(admit, ops, key, j) < SeqAt(admit, ops, key, i))
  }

  /** The addresses at which something acceptable is put. */
  ghost function ValidKeys(admit: Admission, ops: seq<Op>): (s: set<Key>)
  {
    set i | 0 <= i < |ops| && ops[i].PutOp? && ValidPut(admit, ops, ops[i].record.key, i) :: ops[i].record.key
  }

  lemma {:induction false} HeldKeysAreValid(admit: Admission, maxRecords: nat, disk: Option<Disk>, ops: seq<Op>)
    ensures Run(admit, Empty(maxRecords, disk), ops).records.Keys <= ValidKeys(admit, ops)
  {
    if ops == [] {
    } else {
      var n := |ops| - 1;
      HeldKeysAreValid(admit, maxRecords, disk, ops[..n]);
      forall k | k in ValidKeys(admit, ops[..n]) ensures k in ValidKeys(admit, ops) {
        var i :| 0 <= i < n && ops[..n][i].PutOp? && ValidPut(admit, ops[..n], ops[..n][i].record.key, i)
                 && ops[..n][i].record.key == k;
        assert ValidPut(admit, ops, ops[i].record.key, i);
      }
      if ops[n].PutOp? && admit(ops[n].record.key, ops[n].record.value).Some? {
        assert ValidPut(admit, ops, ops[n].record.key, n);
      }
    }
  }

  lemma {:induction false} CapacityConstant(admit: Admission, st: Store, ops: seq<Op>)
    ensures Run(admit, st, ops).maxRecords == st.maxRecords
  {
    if ops == [] {
    } else {
      CapacityConstant(admit, st, ops[..|ops| - 1]);
    }
  }

  lemma ValidPutPrefix(admit: Admission, ops: seq<Op>, n: nat, key: Key, i: nat)
    requires n <= |ops| && i < n
    ensures ValidPut(admit, ops[..n], key, i) <==> ValidPut(admit, ops, key, i)
    ensures ValidPut(admit, ops, key, i) ==> SeqAt(admit, ops[..n], key, i) == SeqAt(admit, ops, key, i)
  {
  }

  /** What a run holds at `key`: nothing before the first valid put, then the first maximum. */
  ghost predicate HoldsFirstMax(admit: Admission, st: Store, ops: seq<Op>, key: Key)
  {
    if key in st.records && key in st.seqCache then
      exists i: nat :: FirstMax(admit, ops, key, i) && st.records[key] == ops[i].record
                  && st.seqCache[key] == SeqAt(admit, ops, key, i)
    else key !in st.records && key !in st.seqCache && forall i: nat :: !ValidPut(admit, ops, key, i)
  }

  lemma {:induction false} RunHoldsFirstMax(
      admit: Admission, maxRecords: nat, disk: Option<Disk>, ops: seq<Op>, key: Key)
    requires |ValidKeys(admit, ops)| <= maxRecords && NeverRemoves(ops, key)
    ensures HoldsFirstMax(admit, Run(admit, Empty(maxRecords, disk), ops), ops, key)
  {
    if ops == [] {
    } else {
      var n := |ops| - 1;
      var front, st := ops[..n], Run(admit, Empty(maxRecords, disk), ops[..n]);
      ValidKeysGrow(admit, ops, n);
      RunHoldsFirstMax(admit, maxRecords, disk, front, key);
      HeldKeysAreValid(admit, maxRecords, disk, front);
      CapacityConstant(admit, Empty(maxRecords, disk), front);
      forall i | 0 <= i < n
        ensures ValidPut(admit, front, key, i) <==> ValidPut(admit, ops, key, i)
        ensures ValidPut(admit, ops, key, i) ==> SeqAt(admit, front, key, i) == SeqAt(admit, ops, key, i) {
        ValidPutPrefix(admit, ops, n, key, i);
      }
      if ValidPut(admit, ops, key, n) {
        RoomForValid(admit, ops, st, key, maxRecords);
        LastPutHoldsFirstMax(admit, st, ops, key);
      } else {
        OtherStepHoldsFirstMax(admit, st, ops, key);
      }
    }
  }

  lemma ValidKeysGrow(admit: Admission, ops: seq<Op>, n: nat)
    requires n <= |ops|
    ensures ValidKeys(admit, ops[..n]) <= ValidKeys(admit, ops)
    ensures |ValidKeys(admit, ops[..n])| <= |ValidKeys(admit, ops)|
  {
    forall k | k in ValidKeys(admit, ops[..n]) ensures k in ValidKeys(admit, ops) {
      var i :| 0 <= i < n && ops[..n][i].PutOp? && ValidPut(admit, ops[..n], ops[..n][i].record.key, i)
               && ops[..n][i].record.key == k;
      assert ValidPut(admit, ops, ops[i].record.key, i);
    }
    SubsetSize(ValidKeys(admit, ops[..n]), ValidKeys(admit, ops));
  }

  lemma {:induction false} SubsetSize<T>(a: set<T>, b: set<T>)
    requires a <= b
    ensures |a| <= |b|
    ensures |a| == |b| ==> a == b
  {
    assert b == a + (b - a);
  }

  /** While the valid addresses fit, a valid put at an address not yet held finds room. */
  lemma RoomForValid(admit: Admission, ops: seq<Op>, st: Store, key: Key, maxRecords: nat)
    requires ops != [] && ValidPut(admit, ops, key, |ops| - 1)
    requires st.records.Keys <= ValidKeys(admit, ops[..|ops| - 1]) && |ValidKeys(admit, ops)| <= maxRecords
    ensures key in st.records || |st.records| < maxRecords
  {
    if key !in st.records {
      var n := |ops| - 1;
      ValidKeysGrow(admit, ops, n);
      assert key in ValidKeys(admit, ops);
      SubsetSize(st.records.Keys + {key}, ValidKeys(admit, ops));
      KeysSize(st.records);
    }
  }

  ghost predicate SamePuts(admit: Admission, ops: seq<Op>, key: Key)
    requires ops != []
  {
    forall i: nat :: i < |ops| - 1 ==>
      && (ValidPut(admit, ops[..|ops| - 1], key, i) <==> ValidPut(admit, ops, key, i))
      && (ValidPut(admit, ops, key, i) ==> SeqAt(admit, ops[..|ops| - 1], key, i) == SeqAt(admit, ops, key, i))
  }

  lemma LastPutHoldsFirstMax(admit: Admission, st: Store, ops: seq<Op>, key: Key)
    requires ops != [] && ValidPut(admit, ops, key, |ops| - 1) && SamePuts(admit, ops, key)
    requires HoldsFirstMax(admit, st, ops[..|ops| - 1], key)
    requires key in st.records || |st.records| < st.maxRecords
    ensures HoldsFirstMax(admit, Step(admit, st, ops[|ops| - 1]), ops, key)
  {
    var n := |ops| - 1;
    if key in st.records {
      var i: nat :| FirstMax(admit, ops[..n], key, i) && st.records[key] == ops[..n][i].record
               && st.seqCache[key] == SeqAt(admit, ops[..n], key, i);
      assert ValidPut(admit, ops, key, i);
      if SeqAt(admit, ops, key, n) <= st.seqCache[key] {
        assert FirstMax(admit, ops, key, i);
      } else {
        assert FirstMax(admit, ops, key, n);
      }
    } else {
      assert FirstMax(admit, ops, key, n);
    }
  }

  lemma OtherStepHoldsFirstMax(admit: Admission, st: Store, ops: seq<Op>, key: Key)
    requires ops != [] && !ValidPut(admit, ops, key, |ops| - 1) && SamePuts(admit, ops, key)
    requires NeverRemoves(ops, key)
    requires HoldsFirstMax(admit, st, ops[..|ops| - 1], key)
    ensures HoldsFirstMax(admit, Step(admit, st, ops[|ops| - 1]), ops, key)
  {
    var n := |ops| - 1;
    if key in st.records {
      var i: nat :| FirstMax(admit, ops[..n], key, i) && st.records[key] == ops[..n][i].record
               && st.seqCache[key] == SeqAt(admit, ops[..n], key, i);
      assert ValidPut(admit, ops, key, i);
      assert FirstMax(admit, ops, key, i);
    }
  }

  // --- closed form and monotonicity --------------------------------------

  /**
   The closed form of a run. From an empty store, if the addresses that valid records name
   fit in it and `key` is never removed, then `key` is held exactly when a valid record was
   put there, and the record held is the first one that attains the greatest seq.
   */
  lemma HeldIsFirstMax(admit: Admission, maxRecords: nat, disk: Option<Disk>, ops: seq<Op>, key: Key)
    requires |ValidKeys(admit, ops)| <= maxRecords && NeverRemoves(ops, key)
    ensures var st := Run(admit, Empty(maxRecords, disk), ops);
            && (key in st.records <==> exists i: nat :: ValidPut(admit, ops, key, i))
            && (key in st.records <==> exists i: nat :: FirstMax(admit, ops, key, i))
            && forall i: nat :: FirstMax(admit, ops, key, i) ==>
                 && key in st.records && st.records[key] == ops[i].record
                 && key in st.seqCache && st.seqCache[key] == SeqAt(admit, ops, key, i)
  {
    RunHoldsFirstMax(admit, maxRecords, disk, ops, key);
    RunKeepsInvariant(admit, Empty(maxRecords, disk), ops);
    HeldGivesFirstMax(admit, Run(admit, Empty(maxRecords, disk), ops), ops, key);
  }

  lemma HeldGivesFirstMax(admit: Admission, st: Store, ops: seq<Op>, key: Key)
    requires HoldsFirstMax(admit, st, ops, key) && Coherent(admit, st)
    ensures key in st.records <==> exists i: nat :: ValidPut(admit, ops, key, i)
    ensures key in st.records <==> exists i: nat :: FirstMax(admit, ops, key, i)
    ensures forall i: nat :: FirstMax(admit, ops, key, i) ==>
              && key in st.records && st.records[key] == ops[i].record
              && key in st.seqCache && st.seqCache[key] == SeqAt(admit, ops, key, i)
  {
  }

  /** A held seq never decreases while its address is not removed. */
  lemma {:induction false} SeqNeverDecreases(admit: Admission, st: Store, ops: seq<Op>, key: Key)
    requires Coherent(admit, st) && key in st.records && NeverRemoves(ops, key)
    ensures var st' := Run(admit, st, ops);
            key in st'.records && key in st'.seqCache && st.seqCache[key] <= st'.seqCache[key]
  {
    if ops == [] {
    } else {
      var n := |ops| - 1;
      SeqNeverDecreases(admit, st, ops[..n], key);
    }
  }

  /**
   A held record is replaced only by a valid put with a greater seq: after any run without
   removes of `key` it is still there, or it is the record of such a put.
   */
  lemma {:induction false} ReplacedOnlyByGreaterSeq(admit: Admission, st: Store, ops: seq<Op>, key: Key)
    requires Coherent(admit, st) && key in st.records && NeverRemoves(ops, key)
    ensures var st' := Run(admit, st, ops);
            && key in st'.records
            && (st'.records[key] == st.records[key]
                || exists i: nat :: && ValidPut(admit, ops, key, i) && st'.records[key] == ops[i].record
                                    && SeqAt(admit, ops, key, i) > st.seqCache[key])
  {
    if ops == [] {
    } else {
      var n := |ops| - 1;
      var front, mid := ops[..n], Run(admit, st, ops[..n]);
      ReplacedOnlyByGreaterSeq(admit, st, front, key);
      SeqNeverDecreases(admit, st, front, key);
      var st' := Run(admit, st, ops);
      if st'.records[key] != mid.records[key] {
        assert ValidPut(admit, ops, key, n);
      } else if mid.records[key] != st.records[key] {
        var i: nat :| ValidPut(admit, front, key, i) && mid.records[key] == front[i].record
                      && SeqAt(admit, front, key, i) > st.seqCache[key];
        ValidPutPrefix(admit, ops, n, key, i);
      }
    }
  }

  /** `ops[i]` puts an acceptable value at the key with a seq above `n`. */
  predicate PutsAbove(admit: Admission, ops: seq<Op>, key: Key, n: u64, i: nat)
  {
    ValidPut(admit, ops, key, i) && SeqAt(admit, ops, key, i) > n
  }

  ghost predicate Superseded(admit: Admission, ops: seq<Op>, key: Key, n: u64)
  {
    exists i: nat :: PutsAbove(admit, ops, key, n, i)
  }

  lemma SupersededSplit(admit: Admission, ops: seq<Op>, key: Key, n: u64)
    requires ops != []
    ensures Superseded(admit, ops, key, n) <==>
              Superseded(admit, ops[..|ops| - 1], key, n) || PutsAbove(admit, ops, key, n, |ops| - 1)
  {
    var last := |ops| - 1;
    forall i: nat | i < last ensures PutsAbove(admit, ops[..last], key, n, i) <==> PutsAbove(admit, ops, key, n, i) {
      ValidPutPrefix(admit, ops, last, key, i);
    }
    if i: nat :| PutsAbove(admit, ops, key, n, i) {
      assert i == last || PutsAbove(admit, ops[..last], key, n, i);
    }
    if i: nat :| PutsAbove(admit, ops[..last], key, n, i) {
      assert PutsAbove(admit, ops, key, n, i);
    }
  }

  /** What is held at the key gets newer if it is superseded, and otherwise stays. */
  ghost predicate NewerIff(st: Store, st': Store, key: Key, superseded: bool)
  {
    && key in st.records && key in st.seqCache && key in st'.records && key in st'.seqCache
    && if superseded then st'.seqCache[key] > st.seqCache[key]
       else st'.records[key] == st.records[key] && st'.seqCache[key] == st.seqCache[key]
  }

  lemma StepNewerIff(admit: Admission, st: Store, ops: seq<Op>, key: Key)
    requires ops != [] && Coherent(admit, st) && key in st.records && NeverRemoves(ops, key)
    ensures NewerIff(st, Step(admit, st, ops[|ops| - 1]), key, PutsAbove(admit, ops, key, st.seqCache[key], |ops| - 1))
  {
  }

  /** Superseded in the first part, or in the second by something that supersedes what came out of the first. */
  lemma NewerTwice(st: Store, mid: Store, st': Store, key: Key, first: bool, second: bool, all: bool)
    requires NewerIff(st, mid, key, first) && NewerIff(mid, st', key, second)
    requires if first then all else all == second
    ensures NewerIff(st, st', key, all)
  {
  }

  /** A held record is replaced exactly when an acceptable value with a greater seq is put at its address. */
  lemma {:induction false} ReplacedIff(admit: Admission, st: Store, ops: seq<Op>, key: Key)
    requires Coherent(admit, st) && key in st.records && NeverRemoves(ops, key)
    ensures NewerIff(st, Run(admit, st, ops), key, Superseded(admit, ops, key, st.seqCache[key]))
  {
    if ops == [] {
    } else {
      var n := |ops| - 1;
      var mid := Run(admit, st, ops[..n]);
      ReplacedIff(admit, st, ops[..n], key);
      RunKeepsInvariant(admit, st, ops[..n]);
      SupersededSplit(admit, ops, key, st.seqCache[key]);
      StepNewerIff(admit, mid, ops, key);
      var held := st.seqCache[key];
      NewerTwice(st, mid, Run(admit, st, ops), key, Superseded(admit, ops[..n], key, held),
                 PutsAbove(admit, ops, key, mid.seqCache[key], n), Superseded(admit, ops, key, held));
    }
  }

  // --- convergence -------------------------------------------------------

  function Values(st: Store): (m: map<Key, Bytes>)
  {
    map k | k in st.records :: st.records[k].value
  }

  /** The acceptable values that a run puts, with their addresses. */
  ghost function ValidValues(admit: Admission, ops: seq<Op>): (s: set<(Key, Bytes)>)
  {
    set i | 0 <= i < |ops| && ops[i].PutOp? && ValidPut(admit, ops, ops[i].record.key, i)
      :: (ops[i].record.key, ops[i].record.value)
  }

  /** `m` is an acceptable value with the greatest seq at its address; ties leave several. */
  ghost predicate Newest(admit: Admission, values: set<(Key, Bytes)>, m: (Key, Bytes))
  {
    && m in values && admit(m.0, m.1).Some?
    && forall q :: q in values && q.0 == m.0 && admit(q.0, q.1).Some? ==> admit(q.0, q.1).value <= admit(m.0, m.1).value
  }

  /** No two different values tie for the greatest seq at the address. */
  ghost predicate UniqueNewest(admit: Admission, values: set<(Key, Bytes)>, key: Key)
  {
    forall v, w :: Newest(admit, values, (key, v)) && Newest(admit, values, (key, w)) ==> v == w
  }

  ghost predicate NoRemoves(ops: seq<Op>) { forall i :: 0 <= i < |ops| ==> !ops[i].RemoveOp? }

  lemma ValuePut(admit: Admission, ops: seq<Op>, key: Key, v: Bytes) returns (j: nat)
    requires (key, v) in ValidValues(admit, ops)
    ensures ValidPut(admit, ops, key, j) && ops[j].record.value == v
  {
    j :| j < |ops| && ops[j].PutOp? && ValidPut(admit, ops, ops[j].record.key, j)
         && (ops[j].record.key, ops[j].record.value) == (key, v);
  }

  /** The first maximum of a run is a newest value of what it puts. */
  lemma FirstMaxIsNewest(admit: Admission, ops: seq<Op>, key: Key, i: nat)
    requires FirstMax(admit, ops, key, i)
    ensures Newest(admit, ValidValues(admit, ops), (key, ops[i].record.value))
  {
    var values := ValidValues(admit, ops);
    assert ops[i].PutOp? && ValidPut(admit, ops, ops[i].record.key, i);
    assert (key, ops[i].record.value) in values;
    forall q | q in values && q.0 == key && admit(q.0, q.1).Some?
      ensures admit(q.0, q.1).value <= SeqAt(admit, ops, key, i) {
      var j := ValuePut(admit, ops, key, q.1);
    }
  }

  lemma SameValuesSamePlace(admit: Admission, ops1: seq<Op>, ops2: seq<Op>, key: Key)
    requires ValidValues(admit, ops1) == ValidValues(admit, ops2)
    requires exists i: nat :: ValidPut(admit, ops1, key, i)
    ensures exists j: nat :: ValidPut(admit, ops2, key, j)
  {
    var i: nat :| ValidPut(admit, ops1, key, i);
    assert (key, ops1[i].record.value) in ValidValues(admit, ops1);
    var j := ValuePut(admit, ops2, key, ops1[i].record.value);
  }

  /** What two stores hold at one address, when fed the same acceptable records of which one is newest there. */
  lemma ConvergenceAt(admit: Admission, max1: nat, disk1: Option<Disk>, ops1: seq<Op>,
                      max2: nat, disk2: Option<Disk>, ops2: seq<Op>, key: Key)
    requires NeverRemoves(ops1, key) && NeverRemoves(ops2, key)
    requires ValidValues(admit, ops1) == ValidValues(admit, ops2) && UniqueNewest(admit, ValidValues(admit, ops1), key)
    requires |ValidKeys(admit, ops1)| <= max1 && |ValidKeys(admit, ops2)| <= max2
    ensures var st1, st2 := Run(admit, Empty(max1, disk1), ops1), Run(admit, Empty(max2, disk2), ops2);
            && (key in st1.records <==> key in st2.records)
            && (key in st1.records ==> st1.records[key].value == st2.records[key].value)
  {
    HeldIsFirstMax(admit, max1, disk1, ops1, key);
    HeldIsFirstMax(admit, max2, disk2, ops2, key);
    if exists i: nat :: ValidPut(admit, ops1, key, i) {
      SameValuesSamePlace(admit, ops1, ops2, key);
      var i: nat :| FirstMax(admit, ops1, key, i);
      var j: nat :| FirstMax(admit, ops2, key, j);
      FirstMaxIsNewest(admit, ops1, key, i);
      FirstMaxIsNewest(admit, ops2, key, j);
    } else if exists j: nat :: ValidPut(admit, ops2, key, j) {
      SameValuesSamePlace(admit, ops2, ops1, key);
      assert false;
    }
  }

  /**
   Convergence. Two stores fed the same set of acceptable records, in whatever order, with
   whatever repetitions and with any unacceptable records mixed in, hold the same values, if
   at no address two values tie for the greatest seq and both stores are large enough.
   */
  lemma Convergence(admit: Admission, max1: nat, disk1: Option<Disk>, ops1: seq<Op>,
                    max2: nat, disk2: Option<Disk>, ops2: seq<Op>)
    requires NoRemoves(ops1) && NoRemoves(ops2)
    requires ValidValues(admit, ops1) == ValidValues(admit, ops2)
    requires forall key :: UniqueNewest(admit, ValidValues(admit, ops1), key)
    requires |ValidKeys(admit, ops1)| <= max1 && |ValidKeys(admit, ops2)| <= max2
    ensures var st1, st2 := Run(admit, Empty(max1, disk1), ops1), Run(admit, Empty(max2, disk2), ops2);
            Values(st1) == Values(st2) && st1.seqCache == st2.seqCache
  {
    var st1, st2 := Run(admit, Empty(max1, disk1), ops1), Run(admit, Empty(max2, disk2), ops2);
    RunKeepsInvariant(admit, Empty(max1, disk1), ops1);
    RunKeepsInvariant(admit, Empty(max2, disk2), ops2);
    forall key
      ensures key in st1.records <==> key in st2.records
      ensures key in st1.records ==> st1.records[key].value == st2.records[key].value
    {
      ConvergenceAt(admit, max1, disk1, ops1, max2, disk2, ops2, key);
    }
    SameEverywhere(admit, st1, st2);
  }

  lemma SameEverywhere(admit: Admission, st1: Store, st2: Store)
    requires Coherent(admit, st1) && Coherent(admit, st2)
    requires forall key :: key in st1.records <==> key in st2.records
    requires forall key :: key in st1.records ==> st1.records[key].value == st2.records[key].value
    ensures Values(st1) == Values(st2) && st1.seqCache == st2.seqCache
  {
  }

  /** After `r` and then `ops`, `r` is still held, if nothing put at its address afterwards has a greater seq. */
  lemma FirstStays(admit: Admission, maxRecords: nat, disk: Option<Disk>, r: Record, io: bool, ops: seq<Op>)
    requires admit(r.key, r.value).Some? && NeverRemoves(ops, r.key)
    requires forall i: nat :: ValidPut(admit, ops, r.key, i) ==>
               SeqAt(admit, ops, r.key, i) <= admit(r.key, r.value).value
    requires |ValidKeys(admit, [PutOp(r, io)] + ops)| <= maxRecords
    ensures var st := Run(admit, Empty(maxRecords, disk), [PutOp(r, io)] + ops);
            r.key in st.records && st.records[r.key] == r
  {
    var all := [PutOp(r, io)] + ops;
    assert all[0] == PutOp(r, io) && ValidPut(admit, all, r.key, 0);
    forall i: nat | ValidPut(admit, all, r.key, i) ensures SeqAt(admit, all, r.key, i) <= SeqAt(admit, all, r.key, 0) {
      if i > 0 { assert all[i] == ops[i - 1] && ValidPut(admit, ops, r.key, i - 1); }
    }
    assert FirstMax(admit, all, r.key, 0);
    HeldIsFirstMax(admit, maxRecords, disk, all, r.key);
  }

  /**
   Two stores that first get different values of one seq differ at that address, whatever
   each is fed afterwards, as long as nothing with a greater seq is put there.
   */
  lemma ConflictDiverges(admit: Admission, max1: nat, disk1: Option<Disk>, a: Record, ops1: seq<Op>,
                         max2: nat, disk2: Option<Disk>, b: Record, ops2: seq<Op>)
    requires a.key == b.key && a.value != b.value
    requires admit(a.key, a.value).Some? && admit(a.key, a.value) == admit(b.key, b.value)
    requires NeverRemoves(ops1, a.key) && NeverRemoves(ops2, a.key)
    requires forall i: nat :: ValidPut(admit, ops1, a.key, i) ==>
               SeqAt(admit, ops1, a.key, i) <= admit(a.key, a.value).value
    requires forall i: nat :: ValidPut(admit, ops2, a.key, i) ==>
               SeqAt(admit, ops2, a.key, i) <= admit(a.key, a.value).value
    requires |ValidKeys(admit, [PutOp(a, true)] + ops1)| <= max1 && |ValidKeys(admit, [PutOp(b, true)] + ops2)| <= max2
    ensures var st1 := Run(admit, Empty(max1, disk1), [PutOp(a, true)] + ops1);
            var st2 := Run(admit, Empty(max2, disk2), [PutOp(b, true)] + ops2);
            && a.key in st1.records && st1.records[a.key].value == a.value
            && a.key in st2.records && st2.records[a.key].value == b.value
            && Values(st1) != Values(st2)
  {
    FirstStays(admit, max1, disk1, a, true, ops1);
    FirstStays(admit, max2, disk2, b, true, ops2);
    var st1 := Run(admit, Empty(max1, disk1), [PutOp(a, true)] + ops1);
    var st2 := Run(admit, Empty(max2, disk2), [PutOp(b, true)] + ops2);
    assert Values(st1)[a.key] == a.value && Values(st2)[a.key] == b.value;
  }

  // --- exactly when runs agree -------------------------------------------

  /** A run without removes whose acceptable records are exactly `values`. */
  ghost predicate Feeds(admit: Admission, ops: seq<Op>, values: set<(Key, Bytes)>)
  {
    NoRemoves(ops) && ValidValues(admit, ops) == values
  }

  /** However `values` is fed to the two stores, they hold the same values afterwards. */
  ghost predicate AlwaysAgree(admit: Admission, max1: nat, disk1: Option<Disk>, max2: nat, disk2: Option<Disk>,
                              values: set<(Key, Bytes)>)
  {
    forall ops1, ops2 :: Feeds(admit, ops1, values) && Feeds(admit, ops2, values) ==>
      Values(Run(admit, Empty(max1, disk1), ops1)) == Values(Run(admit, Empty(max2, disk2), ops2))
  }

  ghost function KeysOf(values: set<(Key, Bytes)>): (s: set<Key>)
  {
    set m | m in values :: m.0
  }

  lemma FedKeys(admit: Admission, ops: seq<Op>, values: set<(Key, Bytes)>)
    requires Feeds(admit, ops, values)
    ensures ValidKeys(admit, ops) == KeysOf(values)
  {
    forall k | k in ValidKeys(admit, ops) ensures k in KeysOf(values) {
      var i :| 0 <= i < |ops| && ops[i].PutOp? && ValidPut(admit, ops, ops[i].record.key, i) && ops[i].record.key == k;
      assert (k, ops[i].record.value) in values;
    }
    forall m | m in values ensures m.0 in ValidKeys(admit, ops) {
      var j := ValuePut(admit, ops, m.0, m.1);
      assert ops[j].PutOp? && ValidPut(admit, ops, ops[j].record.key, j);
    }
  }

  function PutOf(m: (Key, Bytes)): (op: Op) { PutOp(Record(m.0, m.1, None, None), true) }

  lemma FeedsMore(admit: Admission, m: (Key, Bytes), ops: seq<Op>, values: set<(Key, Bytes)>)
    requires Feeds(admit, ops, values) && admit(m.0, m.1).Some?
    ensures Feeds(admit, [PutOf(m)] + ops, values + {m})
  {
    var all := [PutOf(m)] + ops;
    assert all[0] == PutOf(m) && ValidPut(admit, all, m.0, 0);
    forall q | q in values + {m} ensures q in ValidValues(admit, all) {
      if q in values {
        var j := ValuePut(admit, ops, q.0, q.1);
        assert all[j + 1] == ops[j] && ValidPut(admit, all, all[j + 1].record.key, j + 1);
      }
    }
    forall q | q in ValidValues(admit, all) ensures q in values + {m} {
      var j := ValuePut(admit, all, q.0, q.1);
      if j > 0 {
        assert all[j] == ops[j - 1] && ValidPut(admit, ops, ops[j - 1].record.key, j - 1);
      }
    }
  }

  /** Every set of acceptable values can be fed. */
  lemma {:induction false} FeedingRun(admit: Admission, values: set<(Key, Bytes)>) returns (ops: seq<Op>)
    requires forall m :: m in values ==> admit(m.0, m.1).Some?
    ensures Feeds(admit, ops, values)
    decreases |values|
  {
    if values == {} {
      ops := [];
    } else {
      var m :| m in values;
      var rest := FeedingRun(admit, values - {m});
      FeedsMore(admit, m, rest, values - {m});
      ops := [PutOf(m)] + rest;
      assert values - {m} + {m} == values;
    }
  }

  lemma TieDiverges(admit: Admission, max1: nat, disk1: Option<Disk>, max2: nat, disk2: Option<Disk>,
                    values: set<(Key, Bytes)>, key: Key, v: Bytes, w: Bytes)
    requires forall m :: m in values ==> admit(m.0, m.1).Some?
    requires |KeysOf(values)| <= max1 && |KeysOf(values)| <= max2
    requires Newest(admit, values, (key, v)) && Newest(admit, values, (key, w)) && v != w
    ensures !AlwaysAgree(admit, max1, disk1, max2, disk2, values)
  {
    var ops := FeedingRun(admit, values);
    var a, b := Record(key, v, None, None), Record(key, w, None, None);
    FeedsMore(admit, (key, v), ops, values);
    FeedsMore(admit, (key, w), ops, values);
    assert values + {(key, v)} == values && values + {(key, w)} == values;
    FedKeys(admit, [PutOf((key, v))] + ops, values);
    FedKeys(admit, [PutOf((key, w))] + ops, values);
    forall i: nat | ValidPut(admit, ops, key, i) ensures SeqAt(admit, ops, key, i) <= admit(key, v).value {
      assert (key, ops[i].record.value) in ValidValues(admit, ops);
    }
    ConflictDiverges(admit, max1, disk1, a, ops, max2, disk2, b, ops);
    assert Feeds(admit, [PutOf((key, v))] + ops, values) && Feeds(admit, [PutOf((key, w))] + ops, values);
  }

  /**
   Exactly when stores converge: however a set of acceptable values is fed to two stores with
   room for it, they end up equal, if and only if at no address two values tie for the
   greatest seq. Equal seqs below the greatest do no harm.
   */
  lemma ConvergesIff(admit: Admission, max1: nat, disk1: Option<Disk>, max2: nat, disk2: Option<Disk>,
                     values: set<(Key, Bytes)>)
    requires forall m :: m in values ==> admit(m.0, m.1).Some?
    requires |KeysOf(values)| <= max1 && |KeysOf(values)| <= max2
    ensures AlwaysAgree(admit, max1, disk1, max2, disk2, values) <==> forall key :: UniqueNewest(admit, values, key)
  {
    if forall key :: UniqueNewest(admit, values, key) {
      forall ops1, ops2 | Feeds(admit, ops1, values) && Feeds(admit, ops2, values)
        ensures Values(Run(admit, Empty(max1, disk1), ops1)) == Values(Run(admit, Empty(max2, disk2), ops2)) {
        FedKeys(admit, ops1, values);
        FedKeys(admit, ops2, values);
        Convergence(admit, max1, disk1, ops1, max2, disk2, ops2);
      }
    } else {
      var key :| !UniqueNewest(admit, values, key);
      var v, w :| Newest(admit, values, (key, v)) && Newest(admit, values, (key, w)) && v != w;
      TieDiverges(admit, max1, disk1, max2, disk2, values, key, v, w);
    }
  }
}
