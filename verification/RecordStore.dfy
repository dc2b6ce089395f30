/** The store of a node: maps in memory, an optional database, and the check on what may enter. */
module RecordStore {
  import opened Wrappers
  import opened Octets
  import Schema
  import opened CardOps
  import opened StoreSpec
  import StoreDisk

  /** Decodes the value, checks the signature, and checks that the key is the hash of the card's own key. */
  function ValidateAndExtractSeq(env: Env, r: Record): (seqNo: Result<u64, StoreError>)
  {
    var decoded := env.decode(r.value);
    if decoded.None? then Err(ValueTooLarge) else
    var card := decoded.value;
    if VerifyCard(env, card).Err? then Err(ValueTooLarge) else
    var expected := ComputeAddress(env, card.record.pubkey);
    if VerifyAddress(env, card, expected).Err? then Err(ValueTooLarge)
    else if r.key != expected then Err(ValueTooLarge)
    else Ok(card.record.seqNo)
  }

  function Admit(env: Env): (admit: Admission)
  {
    (key: Key, value: Bytes) =>
      match ValidateAndExtractSeq(env, Record(key, value, None, None))
      case Ok(n) => Some(n)
      case Err(_) => None
  }

  /** What admission means: an authentic card under the hash of its own key. */
  ghost predicate GenuineCard(env: Env, key: Key, value: Bytes, c: Schema.SignedCard)
  {
    && env.decode(value) == Some(c)
    && Authentic(env, c)
    && key == env.hash(c.record.pubkey)
  }

  lemma AdmittedIffGenuine(env: Env, key: Key, value: Bytes)
    ensures Admit(env)(key, value).Some? <==> exists c :: GenuineCard(env, key, value, c)
    ensures forall c :: GenuineCard(env, key, value, c) ==> Admit(env)(key, value) == Some(c.record.seqNo)
  {
    var decoded := env.decode(value);
    if decoded.Some? {
      VerifiesIffAuthentic(env, decoded.value);
      assert Admit(env)(key, value).Some? <==> GenuineCard(env, key, value, decoded.value);
    }
  }

  lemma PutKeepsValid(admit: Admission, st: Store, r: Record, io: bool)
    ensures Coherent(admit, st) ==>
              && Coherent(admit, StoreSpec.Put(admit, st, r, io))
              && (WithinCapacity(st) ==> WithinCapacity(StoreSpec.Put(admit, st, r, io)))
  {
    if Coherent(admit, st) { PutKeepsInvariant(admit, st, r, io); }
  }

  class CardRecordStore {
    const env: Env
    const maxRecords: nat
    var records: map<Key, Record>
    var seqCache: map<Key, u64>
    var weightCache: map<Key, Weight>
    var db: Option<Disk>

    ghost function State(): (st: Store)
      reads this
    {
      Store(records, seqCache, weightCache, maxRecords, db)
    }

    /** Every held value is a verified card under the hash of its key, with its seq cached. */
    ghost predicate Valid()
      reads this
    {
      Coherent(Admit(env), State())
    }

    constructor (env: Env, maxRecords: nat)
      ensures Valid() && this.env == env && State() == Empty(maxRecords, None)
    {
      this.env := env;
      this.maxRecords := maxRecords;
      records, seqCache, weightCache, db := map[], map[], map[], None;
    }

    /** Opens the database, if it can be opened, and loads what it holds. */
    constructor WithPersistence(env: Env, maxRecords: nat, db: Option<Disk>,
                                cards: seq<DiskEntry>, weights: seq<DiskEntry>)
      requires db.Some? ==> StoreDisk.Entries(cards, db.value.cards) && StoreDisk.Entries(weights, db.value.weights)
      ensures Valid() && this.env == env && State() == Load(Admit(env), maxRecords, db, cards, weights)
    {
      this.env := env;
      this.maxRecords := maxRecords;
      records, seqCache, weightCache := map[], map[], map[];
      this.db := db;
      new;
      LoadFromDisk(cards, weights);
      StoreDisk.LoadIsCoherent(Admit(env), maxRecords, db, cards, weights);
    }

    /** `cards` and `weights` are what iterating the two trees yields. */
    method LoadFromDisk(cards: seq<DiskEntry>, weights: seq<DiskEntry>)
      modifies this
      ensures State() == if old(db).None? then old(State())
                         else LoadWeights(LoadCards(Admit(env), old(State()), cards), weights)
    {
      if db.None? {
        return;
      }
      var i := 0;
      while i < |cards|
        invariant 0 <= i <= |cards|
        invariant LoadCards(Admit(env), State(), cards[i..]) == LoadCards(Admit(env), old(State()), cards)
      {
        assert cards[i..][1..] == cards[i + 1..];
        if cards[i].DiskEntry? {
          var record := Record(cards[i].key, cards[i].value, None, None);
          var seqNo := ValidateAndExtractSeq(env, record);
          if seqNo.Ok? {
            seqCache := seqCache[record.key := seqNo.value];
            records := records[record.key := record];
          }
        }
        i := i + 1;
      }
      assert State() == LoadCards(Admit(env), old(State()), cards);
      i := 0;
      while i < |weights|
        invariant 0 <= i <= |weights|
        invariant LoadWeights(State(), weights[i..])
               == LoadWeights(LoadCards(Admit(env), old(State()), cards), weights)
      {
        assert weights[i..][1..] == weights[i + 1..];
        if weights[i].DiskEntry? && |weights[i].value| == 8 {
          weightCache := weightCache[weights[i].key := weights[i].value];
        }
        i := i + 1;
      }
    }

    method SetTrustWeight(key: Key, weight: Weight, io: bool)
      modifies this
      ensures State() == SetWeight(old(State()), key, weight, io)
      ensures old(Valid()) ==> Valid()
    {
      weightCache := weightCache[key := weight];
      db := PersistWeight(db, key, weight, io);
    }

    function Get(key: Key): (r: Option<Record>)
      reads this
    {
      if key in records then Some(records[key]) else None
    }

    /** `io` says whether the write to the database succeeds. */
    method Put(record: Record, io: bool) returns (res: Result<(), StoreError>)
      modifies this
      ensures State() == StoreSpec.Put(Admit(env), old(State()), record, io)
      ensures res == PutResult(Admit(env), old(State()), record)
      ensures old(Valid()) ==> Valid()
      ensures old(Valid()) && old(|records|) <= maxRecords ==> |records| <= maxRecords
    {
      PutKeepsValid(Admit(env), State(), record, io);
      SameValidation(env, record);
      if |records| >= maxRecords && record.key !in records {
        return Err(MaxRecords);
      }
      var newSeq := ValidateAndExtractSeq(env, record);
      if newSeq.Err? {
        return Err(newSeq.error);
      }
      if record.key in seqCache && newSeq.value <= seqCache[record.key] {
        return Ok(());
      }
      seqCache := seqCache[record.key := newSeq.value];
      db := Persist(db, record.key, record.value, io);
      records := records[record.key := record];
      return Ok(());
    }

    method Remove(key: Key, io: bool)
      modifies this
      ensures State() == StoreSpec.Remove(old(State()), key, io)
      ensures old(Valid()) ==> Valid()
    {
      records := records - {key};
      seqCache := seqCache - {key};
      db := Unpersist(db, key, io);
    }
  }

  /** Publisher and expiry of a record play no part in its validation. */
  lemma SameValidation(env: Env, r: Record)
    ensures ValidateAndExtractSeq(env, r) == ValidateAndExtractSeq(env, Record(r.key, r.value, None, None))
    ensures match ValidateAndExtractSeq(env, r)
            case Ok(n) => Admit(env)(r.key, r.value) == Some(n)
            case Err(e) => Admit(env)(r.key, r.value) == None && e == ValueTooLarge
  {
  }
}
