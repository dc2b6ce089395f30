/** A card's way from its publisher through a store to a consumer. */
module EndToEnd {
  import opened Wrappers
  import opened Octets
  import Schema
  import opened Codec
  import opened CardOps
  import opened StoreSpec
  import opened StoreRuns
  import opened StoreDisk
  import opened RecordStore

  datatype Verdict = NotHeld | Undecodable | Checked(result: Result<(), ConsumerError>)

  /** What a consumer concludes who fetches an address from a store. */
  function Fetch(env: Env, st: Store, address: Address): (v: Verdict)
  {
    if address !in st.records then NotHeld else
    var card := env.decode(st.records[address].value);
    if card.None? then Undecodable else Checked(VerifyFetchedCard(env, card.value, address))
  }

  /** What a fetch yields in full: nothing held, something that is no card, or the consumer's verdict on the card. */
  lemma FetchIff(env: Env, st: Store, address: Address, v: Verdict)
    ensures Fetch(env, st, address) == v <==>
              match v
              case NotHeld => address !in st.records
              case Undecodable => address in st.records && env.decode(st.records[address].value).None?
              case Checked(result) =>
                && address in st.records
                && exists c :: env.decode(st.records[address].value) == Some(c) && VerifyFetchedCard(env, c, address) == result
  {
  }

  /** The card held at an address. */
  function HeldCard(env: Env, st: Store, address: Address): (c: Option<Schema.SignedCard>)
  {
    if address in st.records then env.decode(st.records[address].value) else None
  }

  /**
   A consumer finds nothing wrong with a card that a coherent store holds, but that it may be
   revoked: the check passes exactly when the card is Active.
   */
  lemma HeldCardPassesIffActive(env: Env, st: Store, address: Address)
    requires Coherent(Admit(env), st) && address in st.records
    ensures var card := HeldCard(env, st, address);
            && card.Some? && card.value.record.seqNo == st.seqCache[address]
            && Fetch(env, st, address) == Checked(if card.value.record.status.Active? then Ok(()) else Err(CardRevoked))
  {
    var c := GenuineFromAdmitted(env, address, st.records[address].value);
    FetchOfGenuine(env, st, address, c);
  }

  /**
   The consumer trusts no node. Whatever a store holds, coherent or not, a fetch passes exactly
   when the value is an Active card that every honest node would admit under that address.
   */
  lemma ConsumerTrustsNoNode(env: Env, st: Store, address: Address)
    ensures Fetch(env, st, address) == Checked(Ok(())) <==>
              exists c :: && address in st.records && GenuineCard(env, address, st.records[address].value, c)
                          && c.record.status.Active?
    ensures Fetch(env, st, address) == Checked(Ok(())) ==>
              Admit(env)(address, st.records[address].value).Some?
  {
    if address in st.records {
      var value := st.records[address].value;
      var card := env.decode(value);
      if card.Some? {
        VerifiesIffAuthentic(env, card.value);
        AdmittedIffGenuine(env, address, value);
        assert Fetch(env, st, address) == Checked(Ok(())) ==> GenuineCard(env, address, value, card.value);
      }
    }
  }

  /**
   Publish, then fetch. A record signed by the holder of its key, encoded, and put under its
   address into a store that has room and holds no seq as high, is accepted; what is then
   fetched and decoded is the same card, and it passes exactly when it is Active.
   */
  lemma PublishThenFetch(env: Env, record: Schema.CardRecord, sk: Bytes, st: Store, io: bool)
    requires SignatureLaw(env) && DecoderLaw(env) && record.pubkey == env.publicKey(sk)
    requires Coherent(Admit(env), st)
    requires var address := ComputeAddress(env, record.pubkey);
             if address in st.records then st.seqCache[address] < record.seqNo else |st.records| < st.maxRecords
    ensures var address := ComputeAddress(env, record.pubkey);
            var card := SignCard(env, record, sk);
            var put := Record(address, EncodeSignedCard(card), None, None);
            var st' := Put(Admit(env), st, put, io);
            && PutResult(Admit(env), st, put) == Ok(())
            && HeldCard(env, st', address) == Some(card)
            && Fetch(env, st', address) == Checked(if record.status.Active? then Ok(()) else Err(CardRevoked))
  {
    var address := ComputeAddress(env, record.pubkey);
    var card := SignCard(env, record, sk);
    var put := Record(address, EncodeSignedCard(card), None, None);
    SignedIsGenuine(env, record, sk);
    FreshPutHeld(Admit(env), st, put, io);
    FetchOfGenuine(env, Put(Admit(env), st, put, io), address, card);
  }

  lemma SignedIsGenuine(env: Env, record: Schema.CardRecord, sk: Bytes)
    requires SignatureLaw(env) && DecoderLaw(env) && record.pubkey == env.publicKey(sk)
    ensures var address, value := ComputeAddress(env, record.pubkey), EncodeSignedCard(SignCard(env, record, sk));
            && GenuineCard(env, address, value, SignCard(env, record, sk))
            && Admit(env)(address, value) == Some(record.seqNo)
  {
    var card := SignCard(env, record, sk);
    SignedCardVerifies(env, record, sk);
    VerifiesIffAuthentic(env, card);
    assert env.decode(EncodeSignedCard(card)) == Some(card);
    AdmittedIffGenuine(env, ComputeAddress(env, record.pubkey), EncodeSignedCard(card));
  }

  lemma FreshPutHeld(admit: Admission, st: Store, r: Record, io: bool)
    requires Coherent(admit, st) && admit(r.key, r.value).Some?
    requires if r.key in st.records then st.seqCache[r.key] < admit(r.key, r.value).value else |st.records| < st.maxRecords
    ensures PutResult(admit, st, r) == Ok(())
    ensures r.key in Put(admit, st, r, io).records && Put(admit, st, r, io).records[r.key] == r
  {
  }

  lemma FetchOfGenuine(env: Env, st: Store, address: Address, c: Schema.SignedCard)
    requires address in st.records && GenuineCard(env, address, st.records[address].value, c)
    ensures HeldCard(env, st, address) == Some(c)
    ensures Fetch(env, st, address) == Checked(if c.record.status.Active? then Ok(()) else Err(CardRevoked))
  {
    VerifiesIffAuthentic(env, c);
  }

  /** Some put among `ops` brings a genuine card for the address with a seq above `n`. */
  ghost predicate PutsNewer(env: Env, ops: seq<Op>, address: Address, n: u64)
  {
    exists i, c :: && 0 <= i < |ops| && ops[i].PutOp? && ops[i].record.key == address
                   && GenuineCard(env, address, ops[i].record.value, c) && c.record.seqNo > n
  }

  lemma PutsNewerIff(env: Env, ops: seq<Op>, address: Address, n: u64)
    ensures PutsNewer(env, ops, address, n) <==> Superseded(Admit(env), ops, address, n)
  {
    if Superseded(Admit(env), ops, address, n) { SupersededPutsNewer(env, ops, address, n); }
    if PutsNewer(env, ops, address, n) { NewerSupersedes(env, ops, address, n); }
  }

  lemma SupersededPutsNewer(env: Env, ops: seq<Op>, address: Address, n: u64)
    requires Superseded(Admit(env), ops, address, n)
    ensures PutsNewer(env, ops, address, n)
  {
    var i: nat :| PutsAbove(Admit(env), ops, address, n, i);
    var c := GenuineFromAdmitted(env, address, ops[i].record.value);
  }

  lemma NewerSupersedes(env: Env, ops: seq<Op>, address: Address, n: u64)
    requires PutsNewer(env, ops, address, n)
    ensures Superseded(Admit(env), ops, address, n)
  {
    var i: nat, c :| && i < |ops| && ops[i].PutOp? && ops[i].record.key == address
                     && GenuineCard(env, address, ops[i].record.value, c) && c.record.seqNo > n;
    AdmittedIffGenuine(env, address, ops[i].record.value);
    assert PutsAbove(Admit(env), ops, address, n, i);
  }

  /** What is held at an address stays exactly as long as no genuine card with a greater seq is put there. */
  lemma UnchangedIff(env: Env, st: Store, ops: seq<Op>, address: Address)
    requires Coherent(Admit(env), st) && NeverRemoves(ops, address) && address in st.records
    ensures var st' := Run(Admit(env), st, ops);
            && address in st'.records
            && (st'.records[address] == st.records[address] <==> !PutsNewer(env, ops, address, st.seqCache[address]))
  {
    ReplacedIff(Admit(env), st, ops, address);
    PutsNewerIff(env, ops, address, st.seqCache[address]);
    RunKeepsInvariant(Admit(env), st, ops);
  }

  /**
   Revocation lasts. Once a revoked card with seq n is held, every later fetch is refused as
   revoked, whatever is put and however often, until a genuine card with a greater seq is put
   at the address; no operation but a remove of the address can change that.
   */
  lemma RevocationLasts(env: Env, st: Store, ops: seq<Op>, address: Address)
    requires Coherent(Admit(env), st) && NeverRemoves(ops, address)
    requires Fetch(env, st, address) == Checked(Err(CardRevoked))
    ensures Fetch(env, Run(Admit(env), st, ops), address) == Checked(Err(CardRevoked))
         || PutsNewer(env, ops, address, st.seqCache[address])
  {
    UnchangedIff(env, st, ops, address);
    var st' := Run(Admit(env), st, ops);
    if st'.records[address] == st.records[address] {
      FetchByRecord(env, st, st', address);
    }
  }

  lemma GenuineFromAdmitted(env: Env, key: Key, value: Bytes) returns (c: Schema.SignedCard)
    requires Admit(env)(key, value).Some?
    ensures GenuineCard(env, key, value, c) && Admit(env)(key, value) == Some(c.record.seqNo)
  {
    AdmittedIffGenuine(env, key, value);
    c :| GenuineCard(env, key, value, c);
  }

  lemma FetchByRecord(env: Env, st: Store, st': Store, address: Address)
    requires address in st.records && address in st'.records && st.records[address].value == st'.records[address].value
    ensures Fetch(env, st, address) == Fetch(env, st', address)
  {
  }

  /** A verdict depends on the values held only. */
  lemma FetchByValues(env: Env, st: Store, st': Store, address: Address)
    requires Values(st) == Values(st')
    ensures Fetch(env, st, address) == Fetch(env, st', address)
  {
    assert address in st.records <==> address in Values(st);
    assert address in st'.records <==> address in Values(st');
    if address in st.records {
      assert st.records[address].value == Values(st)[address] == Values(st')[address];
      FetchByRecord(env, st, st', address);
    }
  }

  /** Consumers see no difference after a restart, at any address, if the disk writes succeeded. */
  lemma FetchSurvivesRestart(env: Env, maxRecords: nat, disk: Disk, cards: seq<DiskEntry>, weights: seq<DiskEntry>,
                             ops: seq<Op>, cards': seq<DiskEntry>, weights': seq<DiskEntry>, address: Address)
    requires Lists(cards, disk.cards) && Lists(weights, disk.weights) && AllWrites(ops)
    ensures var st := Run(Admit(env), Load(Admit(env), maxRecords, Some(disk), cards, weights), ops);
            && st.disk.Some?
            && (Lists(cards', st.disk.value.cards) && Lists(weights', st.disk.value.weights) ==>
                  Fetch(env, Load(Admit(env), maxRecords, st.disk, cards', weights'), address) == Fetch(env, st, address))
  {
    RestartRestoresMemory(Admit(env), maxRecords, disk, cards, weights, ops, cards', weights');
    var st := Run(Admit(env), Load(Admit(env), maxRecords, Some(disk), cards, weights), ops);
    if Lists(cards', st.disk.value.cards) && Lists(weights', st.disk.value.weights) {
      FetchByValues(env, Load(Admit(env), maxRecords, st.disk, cards', weights'), st, address);
    }
  }

  /**
   Exactly when a consumer finds the same card after a restart. Puts may fail to reach the disk,
   removals of the address reach it. The card is the same, and with it a revocation, if and only
   if the last put that the store took at the address reached the disk, or none was taken.
   */
  lemma CardSurvivesRestartIff(env: Env, st: Store, ops: seq<Op>, address: Address, maxRecords: nat,
                               cards: seq<DiskEntry>, weights: seq<DiskEntry>)
    requires Coherent(Admit(env), st) && st.disk.Some? && AgreesAt(Admit(env), st, address)
    requires forall i :: 0 <= i < |ops| && RemovesKey(ops[i], address) ==> ops[i].io
    requires var end := Run(Admit(env), st, ops); address in end.records && ListsDisk(end, cards, weights)
    ensures var end := Run(Admit(env), st, ops);
            var again := Load(Admit(env), maxRecords, end.disk, cards, weights);
            && (HeldCard(env, again, address) == HeldCard(env, end, address)
                <==> LastTakenWritten(Admit(env), st, ops, address))
            && (LastTakenWritten(Admit(env), st, ops, address) ==>
                  Fetch(env, again, address) == Fetch(env, end, address))
  {
    var end := Run(Admit(env), st, ops);
    var again := Load(Admit(env), maxRecords, end.disk, cards, weights);
    HeldSurvivesRestartIff(Admit(env), st, ops, address, maxRecords, cards, weights);
    RunKeepsInvariant(Admit(env), st, ops);
    RunKeepsDisk(Admit(env), st, ops);
    LoadIsLoaded(Admit(env), maxRecords, end.disk.value, cards, weights);
    HeldCardPassesIffActive(env, end, address);
    if address in again.records {
      HeldCardPassesIffActive(env, again, address);
    }
  }
}
