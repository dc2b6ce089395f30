/**
 The four signed types and their canonical bytes. Each struct becomes a CBOR map whose
 keys are the field names in declaration order; an absent label is left out.
 */
module Schema {
  import opened Wrappers
  import opened Octets
  import opened Cbor

  datatype CardStatus = Active | Revoked

  datatype CardRecord = CardRecord(
    pubkey: Blob,
    seqNo: u64,
    status: CardStatus,
    endpoint: Text,
    manifestHash: Blob,
    domain: Text,
    labelText: Option<Text>)

  datatype SignedCard = SignedCard(record: CardRecord, sig: Blob)

  datatype MandateRecord = MandateRecord(nodePubkey: Blob, issuedAt: u64, expiresAt: u64)

  datatype SignedMandate = SignedMandate(record: MandateRecord, validatorSig: Blob)

  // --- structs as maps ---------------------------------------------------

  /** The field names the four structs use. */
  datatype Name =
    | Pubkey | Seq | Status | Endpoint | ManifestHash | Domain | Label
    | Record | Sig | NodePubkey | IssuedAt | ExpiresAt | ValidatorSig

  /** A name's ASCII bytes, the CBOR key of the field. */
  function NameBytes(name: Name): (b: Bytes)
    ensures 3 <= |b| < 16 && forall i :: 0 <= i < |b| ==> b[i] < 0x80
  {
    match name
    case Pubkey => [0x70, 0x75, 0x62, 0x6B, 0x65, 0x79] // pubkey
    case Seq => [0x73, 0x65, 0x71] // seq
    case Status => [0x73, 0x74, 0x61, 0x74, 0x75, 0x73] // status
    case Endpoint => [0x65, 0x6E, 0x64, 0x70, 0x6F, 0x69, 0x6E, 0x74] // endpoint
    case ManifestHash => [0x6D, 0x61, 0x6E, 0x69, 0x66, 0x65, 0x73, 0x74, 0x5F, 0x68, 0x61, 0x73, 0x68] // manifest_hash
    case Domain => [0x64, 0x6F, 0x6D, 0x61, 0x69, 0x6E] // domain
    case Label => [0x6C, 0x61, 0x62, 0x65, 0x6C] // label
    case Record => [0x72, 0x65, 0x63, 0x6F, 0x72, 0x64] // record
    case Sig => [0x73, 0x69, 0x67] // sig
    case NodePubkey => [0x6E, 0x6F, 0x64, 0x65, 0x5F, 0x70, 0x75, 0x62, 0x6B, 0x65, 0x79] // node_pubkey
    case IssuedAt => [0x69, 0x73, 0x73, 0x75, 0x65, 0x64, 0x5F, 0x61, 0x74] // issued_at
    case ExpiresAt => [0x65, 0x78, 0x70, 0x69, 0x72, 0x65, 0x73, 0x5F, 0x61, 0x74] // expires_at
    case ValidatorSig => [0x76, 0x61, 0x6C, 0x69, 0x64, 0x61, 0x74, 0x6F, 0x72, 0x5F, 0x73, 0x69, 0x67] // validator_sig
  }

  lemma NameBytesInjective(a: Name, b: Name)
    ensures NameBytes(a) == NameBytes(b) <==> a == b
  {
    var x, y := NameBytes(a), NameBytes(b);
    if a != b {
      assert |x| != |y| || x[0] != y[0] || x[1] != y[1];
    }
  }

  function NameText(name: Name): (t: Text)
    ensures t == NameBytes(name)
  {
    AsciiIsUtf8(NameBytes(name));
    NameBytes(name)
  }

  datatype Field = Field(name: Name, value: Item)

  function EntryOf(f: Field): (e: Entry) { Entry(TextString(NameText(f.name)), f.value) }

  function Struct(fields: seq<Field>): (es: seq<Entry>)
    ensures |es| == |fields|
    ensures forall i :: 0 <= i < |fields| ==> es[i] == EntryOf(fields[i])
  {
    if fields == [] then [] else [EntryOf(fields[0])] + Struct(fields[1..])
  }

  function StatusText(s: CardStatus): (t: Text)
  {
    var b: Bytes := match s
      case Active => [0x61, 0x63, 0x74, 0x69, 0x76, 0x65] // active
      case Revoked => [0x72, 0x65, 0x76, 0x6F, 0x6B, 0x65, 0x64]; // revoked
    AsciiIsUtf8(b);
    b
  }

  function CardFields(c: CardRecord): (fs: seq<Field>)
  {
    [ Field(Pubkey, ByteString(c.pubkey)),
      Field(Seq, UInt(c.seqNo)),
      Field(Status, TextString(StatusText(c.status))),
      Field(Endpoint, TextString(c.endpoint)),
      Field(ManifestHash, ByteString(c.manifestHash)),
      Field(Domain, TextString(c.domain)) ]
    + if c.labelText.Some? then [Field(Label, TextString(c.labelText.value))] else []
  }

  function CardItem(c: CardRecord): (x: Item) { Map(Struct(CardFields(c))) }

  function SignedCardFields(c: SignedCard): (fs: seq<Field>)
  {
    [Field(Record, CardItem(c.record)), Field(Sig, ByteString(c.sig))]
  }

  function SignedCardItem(c: SignedCard): (x: Item) { Map(Struct(SignedCardFields(c))) }

  function MandateFields(m: MandateRecord): (fs: seq<Field>)
  {
    [ Field(NodePubkey, ByteString(m.nodePubkey)),
      Field(IssuedAt, UInt(m.issuedAt)),
      Field(ExpiresAt, UInt(m.expiresAt)) ]
  }

  function MandateItem(m: MandateRecord): (x: Item) { Map(Struct(MandateFields(m))) }

  function SignedMandateFields(m: SignedMandate): (fs: seq<Field>)
  {
    [Field(Record, MandateItem(m.record)), Field(ValidatorSig, ByteString(m.validatorSig))]
  }

  function SignedMandateItem(m: SignedMandate): (x: Item) { Map(Struct(SignedMandateFields(m))) }

  // What is on the wire, entry by entry.

  /** The entry's key is the text of that name, and this is its value. */
  predicate IsEntry(e: Entry, name: string, value: Item)
  {
    e.key.TextString? && Spells(e.key.text, name) && e.value == value
  }

  lemma RecordNamesSpelled()
    ensures Spells(NameBytes(Pubkey), "pubkey") && Spells(NameBytes(Seq), "seq") && Spells(NameBytes(Status), "status")
    ensures Spells(NameBytes(Endpoint), "endpoint") && Spells(NameBytes(ManifestHash), "manifest_hash")
    ensures Spells(NameBytes(Domain), "domain") && Spells(NameBytes(Label), "label")
  {
  }

  lemma OtherNamesSpelled()
    ensures Spells(NameBytes(Record), "record") && Spells(NameBytes(Sig), "sig")
    ensures Spells(NameBytes(NodePubkey), "node_pubkey") && Spells(NameBytes(IssuedAt), "issued_at")
    ensures Spells(NameBytes(ExpiresAt), "expires_at") && Spells(NameBytes(ValidatorSig), "validator_sig")
  {
  }

  lemma StatusSpelled(s: CardStatus)
    ensures Spells(StatusText(s), if s == Active then "active" else "revoked")
  {
  }

  /** The entries have these names and values, in this order. */
  predicate AreEntries(x: Item, names: seq<string>, values: seq<Item>)
  {
    && x.Map? && |x.entries| == |names| == |values|
    && forall i :: 0 <= i < |names| ==> IsEntry(x.entries[i], names[i], values[i])
  }

  lemma FieldsAreEntries(fs: seq<Field>, names: seq<string>, values: seq<Item>)
    requires |fs| == |names| == |values|
    requires forall i :: 0 <= i < |fs| ==> Spells(NameBytes(fs[i].name), names[i]) && fs[i].value == values[i]
    ensures AreEntries(Map(Struct(fs)), names, values)
  {
  }

  lemma CardKeysSpelled(c: CardRecord)
    ensures |CardFields(c)| == |CardKeys(c.labelText.Some?)|
    ensures forall i :: 0 <= i < |CardFields(c)| ==>
              Spells(NameBytes(CardFields(c)[i].name), CardKeys(c.labelText.Some?)[i])
  {
    RecordNamesSpelled();
    var fs := CardFields(c);
    forall i | 0 <= i < |fs| ensures Spells(NameBytes(fs[i].name), CardKeys(c.labelText.Some?)[i]) {
      assert fs[i].name == [Pubkey, Seq, Status, Endpoint, ManifestHash, Domain, Label][i];
    }
  }

  lemma CardValuesAre(c: CardRecord)
    ensures var fs, values := CardFields(c), CardValues(c, StatusText(c.status));
            |fs| == |values| && forall i :: 0 <= i < |fs| ==> fs[i].value == values[i]
  {
  }

  /** The fields of a card in order; the status is the word, and there is a seventh field only for a label. */
  lemma CardEntries(c: CardRecord) returns (status: Text)
    ensures Spells(status, if c.status == Active then "active" else "revoked")
    ensures AreEntries(CardItem(c), CardKeys(c.labelText.Some?), CardValues(c, status))
  {
    status := StatusText(c.status);
    StatusSpelled(c.status);
    CardKeysSpelled(c);
    CardValuesAre(c);
    FieldsAreEntries(CardFields(c), CardKeys(c.labelText.Some?), CardValues(c, status));
  }

  function CardKeys(labelled: bool): (keys: seq<string>)
  {
    ["pubkey", "seq", "status", "endpoint", "manifest_hash", "domain"] + if labelled then ["label"] else []
  }

  function CardValues(c: CardRecord, status: Text): (values: seq<Item>)
  {
    [ByteString(c.pubkey), UInt(c.seqNo), TextString(status), TextString(c.endpoint), ByteString(c.manifestHash),
     TextString(c.domain)]
    + if c.labelText.Some? then [TextString(c.labelText.value)] else []
  }

  lemma SignedCardEntries(c: SignedCard)
    ensures AreEntries(SignedCardItem(c), ["record", "sig"], [CardItem(c.record), ByteString(c.sig)])
  {
    OtherNamesSpelled();
  }

  lemma MandateEntries(m: MandateRecord)
    ensures AreEntries(MandateItem(m), ["node_pubkey", "issued_at", "expires_at"],
                       [ByteString(m.nodePubkey), UInt(m.issuedAt), UInt(m.expiresAt)])
  {
    OtherNamesSpelled();
  }

  lemma SignedMandateEntries(m: SignedMandate)
    ensures AreEntries(SignedMandateItem(m), ["record", "validator_sig"], [MandateItem(m.record), ByteString(m.validatorSig)])
  {
    OtherNamesSpelled();
  }

  lemma {:induction false} AllEncodableFromEach(es: seq<Entry>)
    requires forall i :: 0 <= i < |es| ==> EncodableEntry(es[i])
    ensures AllEncodable(es)
  {
    if es == [] {
    } else {
      AllEncodableFromEach(es[1..]);
    }
  }

  lemma StructEncodable(fields: seq<Field>)
    requires |fields| < U64_LIMIT
    requires forall i :: 0 <= i < |fields| ==> Encodable(fields[i].value)
    ensures Encodable(Map(Struct(fields)))
  {
    AllEncodableFromEach(Struct(fields));
  }

  lemma CardItemEncodable(c: CardRecord)
    ensures Encodable(CardItem(c))
  {
    StructEncodable(CardFields(c));
  }

  lemma SignedCardItemEncodable(c: SignedCard)
    ensures Encodable(SignedCardItem(c))
  {
    CardItemEncodable(c.record);
    StructEncodable(SignedCardFields(c));
  }

  lemma MandateItemEncodable(m: MandateRecord)
    ensures Encodable(MandateItem(m))
  {
    StructEncodable(MandateFields(m));
  }

  lemma SignedMandateItemEncodable(m: SignedMandate)
    ensures Encodable(SignedMandateItem(m))
  {
    MandateItemEncodable(m.record);
    StructEncodable(SignedMandateFields(m));
  }

  // --- maps back to structs ----------------------------------------------

  /** The bytes by which a map key names a field; other key kinds name none. */
  function Identifier(key: Item): (id: Option<Bytes>)
  {
    match key
    case TextString(t) => Some(t)
    case ByteString(b) => Some(b)
    case _ => None
  }

  /** The field that some key bytes name, if any. */
  function NameFrom(b: Bytes): (n: Option<Name>)
  {
    if b == NameBytes(Pubkey) then Some(Pubkey)
    else if b == NameBytes(Seq) then Some(Seq)
    else if b == NameBytes(Status) then Some(Status)
    else if b == NameBytes(Endpoint) then Some(Endpoint)
    else if b == NameBytes(ManifestHash) then Some(ManifestHash)
    else if b == NameBytes(Domain) then Some(Domain)
    else if b == NameBytes(Label) then Some(Label)
    else if b == NameBytes(Record) then Some(Record)
    else if b == NameBytes(Sig) then Some(Sig)
    else if b == NameBytes(NodePubkey) then Some(NodePubkey)
    else if b == NameBytes(IssuedAt) then Some(IssuedAt)
    else if b == NameBytes(ExpiresAt) then Some(ExpiresAt)
    else if b == NameBytes(ValidatorSig) then Some(ValidatorSig)
    else None
  }

  /** The fields of a map that have a known name, in the map's order. */
  function KnownFields(es: seq<Entry>): (fs: seq<Field>)
  {
    if es == [] then [] else
    var id := Identifier(es[0].key);
    var name := if id.Some? then NameFrom(id.value) else None;
    (if name.Some? then [Field(name.value, es[0].value)] else []) + KnownFields(es[1..])
  }

  /** Every key of the map can name a field; other keys are a decoding error. */
  predicate Identified(x: Item)
  {
    x.Map? && forall i :: 0 <= i < |x.entries| ==> Identifier(x.entries[i].key).Some?
  }

  function FieldsOf(x: Item): (fs: Option<seq<Field>>)
  {
    if Identified(x) then Some(KnownFields(x.entries)) else None
  }

  datatype Lookup = Missing | Once(value: Item) | Repeated

  /** What a struct holds under a field name. Fields may come in any order. */
  function Find(fs: seq<Field>, name: Name): (r: Lookup)
  {
    if fs == [] then Missing else
    var rest := Find(fs[1..], name);
    if fs[0].name != name then rest
    else if rest.Missing? then Once(fs[0].value) else Repeated
  }

  function StatusFrom(t: Text): (s: Option<CardStatus>)
  {
    if t == StatusText(Active) then Some(Active)
    else if t == StatusText(Revoked) then Some(Revoked)
    else None
  }

  /** An absent or null label is no label; anything but text is an error. */
  function LabelFrom(l: Lookup): (r: Option<Option<Text>>)
  {
    match l
    case Missing => Some(None)
    case Once(Null) => Some(None)
    case Once(TextString(t)) => Some(Some(t))
    case _ => None
  }

  function CardFrom(x: Item): (r: Option<CardRecord>)
  {
    var fs := FieldsOf(x);
    if fs.None? then None else CardFromFields(fs.value)
  }

  function CardFromFields(fs: seq<Field>): (r: Option<CardRecord>)
  {
    match (Find(fs, Pubkey), Find(fs, Seq), Find(fs, Status), Find(fs, Endpoint), Find(fs, ManifestHash), Find(fs, Domain))
    case (Once(ByteString(pk)), Once(UInt(n)), Once(TextString(st)),
          Once(TextString(ep)), Once(ByteString(mh)), Once(TextString(dom))) =>
      var status := StatusFrom(st);
      var labelText := LabelFrom(Find(fs, Label));
      if status.None? || labelText.None? then None
      else Some(CardRecord(pk, n, status.value, ep, mh, dom, labelText.value))
    case _ => None
  }

  function SignedCardFrom(x: Item): (r: Option<SignedCard>)
  {
    var fs := FieldsOf(x);
    if fs.None? then None else SignedCardFromFields(fs.value)
  }

  function SignedCardFromFields(fs: seq<Field>): (r: Option<SignedCard>)
  {
    match (Find(fs, Record), Find(fs, Sig))
    case (Once(record), Once(ByteString(sig))) =>
      var card := CardFrom(record);
      if card.None? then None else Some(SignedCard(card.value, sig))
    case _ => None
  }

  function MandateFrom(x: Item): (r: Option<MandateRecord>)
  {
    var fs := FieldsOf(x);
    if fs.None? then None else MandateFromFields(fs.value)
  }

  function MandateFromFields(fs: seq<Field>): (r: Option<MandateRecord>)
  {
    match (Find(fs, NodePubkey), Find(fs, IssuedAt), Find(fs, ExpiresAt))
    case (Once(ByteString(pk)), Once(UInt(from)), Once(UInt(to))) => Some(MandateRecord(pk, from, to))
    case _ => None
  }

  function SignedMandateFrom(x: Item): (r: Option<SignedMandate>)
  {
    var fs := FieldsOf(x);
    if fs.None? then None else SignedMandateFromFields(fs.value)
  }

  function SignedMandateFromFields(fs: seq<Field>): (r: Option<SignedMandate>)
  {
    match (Find(fs, Record), Find(fs, ValidatorSig))
    case (Once(record), Once(ByteString(sig))) =>
      var mandate := MandateFrom(record);
      if mandate.None? then None else Some(SignedMandate(mandate.value, sig))
    case _ => None
  }

  // --- round trips of the structs ----------------------------------------

  lemma NameRoundTrip(name: Name)
    ensures NameFrom(NameBytes(name)) == Some(name)
  {
    forall other ensures NameBytes(name) == NameBytes(other) <==> name == other {
      NameBytesInjective(name, other);
    }
  }

  /** No other bytes than its own are read as a name. */
  lemma NameFromIff(b: Bytes, name: Name)
    ensures NameFrom(b) == Some(name) <==> b == NameBytes(name)
  {
    NameRoundTrip(name);
    OnlyOwnName(b);
  }

  lemma OnlyOwnName(b: Bytes)
    ensures NameFrom(b).Some? ==> b == NameBytes(NameFrom(b).value)
  {
  }

  lemma {:induction false} KnownFieldsOfStruct(fs: seq<Field>)
    ensures KnownFields(Struct(fs)) == fs
  {
    if fs == [] {
    } else {
      NameRoundTrip(fs[0].name);
      KnownFieldsOfStruct(fs[1..]);
      assert Struct(fs)[1..] == Struct(fs[1..]);
    }
  }

  /** The key names the field: as text, or as a byte string of the same bytes. */
  predicate Names(key: Item, name: Name)
  {
    match key
    case TextString(t) => t == NameBytes(name)
    case ByteString(b) => b == NameBytes(name)
    case _ => false
  }

  /** An entry counts exactly if its key names a field, and whatever stands before and behind it. */
  lemma {:induction false} KnownFieldsAround(front: seq<Entry>, e: Entry, back: seq<Entry>, name: Name)
    ensures Names(e.key, name) ==>
              KnownFields(front + [e] + back) == KnownFields(front) + [Field(name, e.value)] + KnownFields(back)
    ensures (forall n :: !Names(e.key, n)) ==> KnownFields(front + [e] + back) == KnownFields(front) + KnownFields(back)
    decreases |front|
  {
    var all := front + [e] + back;
    if front == [] {
      assert all[1..] == back && all[0] == e;
      KnownFirst(all, name);
    } else {
      assert all[0] == front[0] && all[1..] == front[1..] + [e] + back;
      KnownFieldsAround(front[1..], e, back, name);
    }
  }

  lemma KnownFirst(es: seq<Entry>, name: Name)
    requires es != []
    ensures Names(es[0].key, name) ==> KnownFields(es) == [Field(name, es[0].value)] + KnownFields(es[1..])
    ensures (forall n :: !Names(es[0].key, n)) ==> KnownFields(es) == KnownFields(es[1..])
  {
    var id := Identifier(es[0].key);
    if id.Some? {
      NameFromIff(id.value, name);
      if NameFrom(id.value).Some? {
        NameFromIff(id.value, NameFrom(id.value).value);
        assert Names(es[0].key, NameFrom(id.value).value);
      }
    }
  }

  lemma FieldsOfStruct(fs: seq<Field>)
    ensures FieldsOf(Map(Struct(fs))) == Some(fs)
  {
    KnownFieldsOfStruct(fs);
  }

  lemma {:induction false} FindAbsent(fs: seq<Field>, name: Name)
    requires forall i :: 0 <= i < |fs| ==> fs[i].name != name
    ensures Find(fs, name) == Missing
  {
    if fs == [] {
    } else {
      FindAbsent(fs[1..], name);
    }
  }

  /** A field whose name occurs once is found, wherever in the map it stands. */
  lemma {:induction false} FindUnique(fs: seq<Field>, k: nat)
    requires k < |fs|
    requires forall i :: 0 <= i < |fs| && i != k ==> fs[i].name != fs[k].name
    ensures Find(fs, fs[k].name) == Once(fs[k].value)
  {
    if k == 0 {
      FindAbsent(fs[1..], fs[0].name);
    } else {
      FindUnique(fs[1..], k - 1);
    }
  }

  /** Only one field has the name, the one at `k`, and it holds the value. */
  ghost predicate OnlyAt(fs: seq<Field>, name: Name, value: Item, k: nat)
  {
    k < |fs| && fs[k] == Field(name, value) && Lacks(fs[..k], name) && Lacks(fs[k + 1..], name)
  }

  ghost predicate Lacks(fs: seq<Field>, name: Name) { forall i :: 0 <= i < |fs| ==> fs[i].name != name }

  lemma LacksStep(fs: seq<Field>, name: Name)
    requires fs != []
    ensures Lacks(fs, name) <==> fs[0].name != name && Lacks(fs[1..], name)
  {
    assert fs == [fs[0]] + fs[1..];
  }

  lemma {:induction false} FindMissingIff(fs: seq<Field>, name: Name)
    ensures Find(fs, name) == Missing <==> Lacks(fs, name)
  {
    if fs == [] {
    } else {
      FindMissingIff(fs[1..], name);
      LacksStep(fs, name);
    }
  }

  lemma OnlyAtStep(fs: seq<Field>, name: Name, value: Item, k: nat)
    requires fs != []
    ensures OnlyAt(fs, name, value, 0) <==> fs[0] == Field(name, value) && Lacks(fs[1..], name)
    ensures OnlyAt(fs, name, value, k + 1) <==> fs[0].name != name && OnlyAt(fs[1..], name, value, k)
  {
    var rest := fs[1..];
    if k < |rest| {
      assert fs[..k + 1][1..] == rest[..k] && fs[k + 2..] == rest[k + 1..];
      LacksStep(fs[..k + 1], name);
    }
  }

  /** A lookup finds a value exactly if one field only has the name and holds it. */
  lemma {:induction false} FindOnceIff(fs: seq<Field>, name: Name, value: Item)
    ensures Find(fs, name) == Once(value) <==> exists k: nat :: OnlyAt(fs, name, value, k)
  {
    if fs == [] {
    } else {
      FindOnceIff(fs[1..], name, value);
      FindMissingIff(fs[1..], name);
      if Find(fs, name) == Once(value) && fs[0].name != name {
        var k: nat :| OnlyAt(fs[1..], name, value, k);
        OnlyAtStep(fs, name, value, k);
      } else if Find(fs, name) == Once(value) {
        OnlyAtStep(fs, name, value, 0);
      }
      if k: nat :| OnlyAt(fs, name, value, k) {
        OnlyAtStep(fs, name, value, if k == 0 then 0 else k - 1);
      }
    }
  }

  lemma StatusRoundTrip(s: CardStatus)
    ensures StatusFrom(StatusText(s)) == Some(s)
  {
    assert |StatusText(Active)| == 6 && |StatusText(Revoked)| == 7;
  }

  /** The map holds the value under that name, once and under no other key of the name. */
  ghost predicate Holds(x: Item, name: Name, value: Item)
    requires x.Map?
  {
    exists k: nat :: OnlyAt(KnownFields(x.entries), name, value, k)
  }

  ghost predicate HoldsLabel(x: Item, labelText: Option<Text>)
    requires x.Map?
  {
    match labelText
    case Some(t) => Holds(x, Label, TextString(t))
    case None => Lacks(KnownFields(x.entries), Label) || Holds(x, Label, Null)
  }

  lemma HoldsIff(x: Item, name: Name, value: Item)
    requires x.Map?
    ensures Find(KnownFields(x.entries), name) == Once(value) <==> Holds(x, name, value)
  {
    FindOnceIff(KnownFields(x.entries), name, value);
  }

  lemma HoldsLabelIff(x: Item, labelText: Option<Text>)
    requires x.Map?
    ensures LabelFrom(Find(KnownFields(x.entries), Label)) == Some(labelText) <==> HoldsLabel(x, labelText)
  {
    FindMissingIff(KnownFields(x.entries), Label);
    HoldsIff(x, Label, Null);
    if labelText.Some? { HoldsIff(x, Label, TextString(labelText.value)); }
  }

  /**
   Which maps are read as a card: whatever their order and whatever unknown keys they hold,
   those that hold each of the six fields exactly once, and a label at most once.
   */
  lemma CardFromIff(x: Item, c: CardRecord)
    ensures CardFrom(x) == Some(c) <==>
              && Identified(x)
              && Holds(x, Pubkey, ByteString(c.pubkey)) && Holds(x, Seq, UInt(c.seqNo))
              && Holds(x, Status, TextString(StatusText(c.status)))
              && Holds(x, Endpoint, TextString(c.endpoint)) && Holds(x, ManifestHash, ByteString(c.manifestHash))
              && Holds(x, Domain, TextString(c.domain)) && HoldsLabel(x, c.labelText)
  {
    if Identified(x) {
      StatusRoundTrip(c.status);
      HoldsIff(x, Pubkey, ByteString(c.pubkey));
      HoldsIff(x, Seq, UInt(c.seqNo));
      HoldsIff(x, Status, TextString(StatusText(c.status)));
      HoldsIff(x, Endpoint, TextString(c.endpoint));
      HoldsIff(x, ManifestHash, ByteString(c.manifestHash));
      HoldsIff(x, Domain, TextString(c.domain));
      HoldsLabelIff(x, c.labelText);
      CardFromFindsIff(KnownFields(x.entries), c);
    }
  }

  lemma CardFromFindsIff(fs: seq<Field>, c: CardRecord)
    ensures CardFromFields(fs) == Some(c) <==>
              && Find(fs, Pubkey) == Once(ByteString(c.pubkey)) && Find(fs, Seq) == Once(UInt(c.seqNo))
              && Find(fs, Status) == Once(TextString(StatusText(c.status)))
              && Find(fs, Endpoint) == Once(TextString(c.endpoint))
              && Find(fs, ManifestHash) == Once(ByteString(c.manifestHash))
              && Find(fs, Domain) == Once(TextString(c.domain)) && LabelFrom(Find(fs, Label)) == Some(c.labelText)
  {
    StatusRoundTrip(c.status);
  }

  lemma CardFromFinds(fs: seq<Field>, c: CardRecord)
    requires Find(fs, Pubkey) == Once(ByteString(c.pubkey))
    requires Find(fs, Seq) == Once(UInt(c.seqNo))
    requires Find(fs, Status) == Once(TextString(StatusText(c.status)))
    requires Find(fs, Endpoint) == Once(TextString(c.endpoint))
    requires Find(fs, ManifestHash) == Once(ByteString(c.manifestHash))
    requires Find(fs, Domain) == Once(TextString(c.domain))
    requires LabelFrom(Find(fs, Label)) == Some(c.labelText)
    ensures CardFromFields(fs) == Some(c)
  {
    StatusRoundTrip(c.status);
  }

  lemma CardFieldsRoundTrip(c: CardRecord)
    ensures CardFromFields(CardFields(c)) == Some(c)
  {
    var fs := CardFields(c);
    forall k | 0 <= k < |fs| ensures Find(fs, fs[k].name) == Once(fs[k].value) {
      FindUnique(fs, k);
    }
    assert fs[0].name == Pubkey && fs[1].name == Seq && fs[2].name == Status;
    assert fs[3].name == Endpoint && fs[4].name == ManifestHash && fs[5].name == Domain;
    if c.labelText.Some? {
      assert fs[6].name == Label;
    } else {
      FindAbsent(fs, Label);
    }
    CardFromFinds(fs, c);
  }

  lemma CardItemRoundTrip(c: CardRecord)
    ensures CardFrom(CardItem(c)) == Some(c)
  {
    FieldsOfStruct(CardFields(c));
    CardFieldsRoundTrip(c);
  }

  lemma SignedCardFieldsRoundTrip(c: SignedCard)
    ensures SignedCardFromFields(SignedCardFields(c)) == Some(c)
  {
    var fs := SignedCardFields(c);
    FindUnique(fs, 0);
    FindUnique(fs, 1);
    CardItemRoundTrip(c.record);
  }

  lemma SignedCardItemRoundTrip(c: SignedCard)
    ensures SignedCardFrom(SignedCardItem(c)) == Some(c)
  {
    FieldsOfStruct(SignedCardFields(c));
    SignedCardFieldsRoundTrip(c);
  }

  lemma MandateFieldsRoundTrip(m: MandateRecord)
    ensures MandateFromFields(MandateFields(m)) == Some(m)
  {
    var fs := MandateFields(m);
    FindUnique(fs, 0);
    FindUnique(fs, 1);
    FindUnique(fs, 2);
  }

  lemma MandateItemRoundTrip(m: MandateRecord)
    ensures MandateFrom(MandateItem(m)) == Some(m)
  {
    FieldsOfStruct(MandateFields(m));
    MandateFieldsRoundTrip(m);
  }

  lemma SignedMandateFieldsRoundTrip(m: SignedMandate)
    ensures SignedMandateFromFields(SignedMandateFields(m)) == Some(m)
  {
    var fs := SignedMandateFields(m);
    FindUnique(fs, 0);
    FindUnique(fs, 1);
    MandateItemRoundTrip(m.record);
  }

  lemma SignedMandateItemRoundTrip(m: SignedMandate)
    ensures SignedMandateFrom(SignedMandateItem(m)) == Some(m)
  {
    FieldsOfStruct(SignedMandateFields(m));
    SignedMandateFieldsRoundTrip(m);
  }
}
