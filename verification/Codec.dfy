/**
 `canonical_encode` and `canonical_decode` for the signed types: functions for the
 bytes, and the writer that fills a buffer with them.
 */
module Codec {
  import opened Wrappers
  import opened Octets
  import opened Cbor
  import opened Schema
  import Wire

  // --- encoding ----------------------------------------------------------

  function EncodeCard(c: CardRecord): (b: Bytes)
  {
    CardItemEncodable(c);
    Encode(CardItem(c))
  }

  function EncodeSignedCard(c: SignedCard): (b: Bytes)
  {
    SignedCardItemEncodable(c);
    Encode(SignedCardItem(c))
  }

  function EncodeMandate(m: MandateRecord): (b: Bytes)
  {
    MandateItemEncodable(m);
    Encode(MandateItem(m))
  }

  function EncodeSignedMandate(m: SignedMandate): (b: Bytes)
  {
    SignedMandateItemEncodable(m);
    Encode(SignedMandateItem(m))
  }

  // What is on the wire: maps that announce as many fields as there are, whose entries `Schema` lists.

  lemma MapFirstByte(x: Item)
    requires x.Map? && |x.entries| < 24 && Encodable(x)
    ensures Encode(x)[0] == 0xA0 + |x.entries|
  {
    Wire.EncodingIs(x);
  }

  /** A card is written as a map of six fields, or of seven with a label. */
  lemma CardFirstByte(c: CardRecord)
    ensures |EncodeCard(c)| > 0 && EncodeCard(c)[0] == if c.labelText.Some? then 0xA7 else 0xA6
  {
    var _ := CardEntries(c);
    CardItemEncodable(c);
    MapFirstByte(CardItem(c));
  }

  lemma OtherFirstBytes(c: SignedCard, m: MandateRecord, sm: SignedMandate)
    ensures |EncodeSignedCard(c)| > 0 && EncodeSignedCard(c)[0] == 0xA2
    ensures |EncodeMandate(m)| > 0 && EncodeMandate(m)[0] == 0xA3
    ensures |EncodeSignedMandate(sm)| > 0 && EncodeSignedMandate(sm)[0] == 0xA2
  {
    SignedCardEntries(c);
    SignedCardItemEncodable(c);
    MapFirstByte(SignedCardItem(c));
    MandateEntries(m);
    MandateItemEncodable(m);
    MapFirstByte(MandateItem(m));
    SignedMandateEntries(sm);
    SignedMandateItemEncodable(sm);
    MapFirstByte(SignedMandateItem(sm));
  }

  // --- decoding ----------------------------------------------------------

  /** A decoded value and the bytes after it. */
  function DecodeWith<T>(b: Bytes, from: Item -> Option<T>): (r: Option<(T, Bytes)>)
  {
    var item := Parse(b);
    if item.None? then None else
    var value := from(item.value.0);
    if value.None? then None else Some((value.value, item.value.1))
  }

  /** `canonical_decode` reads one value and leaves any bytes after it unread. */
  function CanonicalDecode<T>(b: Bytes, from: Item -> Option<T>): (r: Option<T>)
  {
    var read := DecodeWith(b, from);
    if read.None? then None else Some(read.value.0)
  }

  function DecodeSignedCard(b: Bytes): (r: Option<SignedCard>)
  {
    CanonicalDecode(b, SignedCardFrom)
  }

  lemma CardRoundTrip(c: CardRecord, r: Bytes)
    ensures DecodeWith(EncodeCard(c) + r, CardFrom) == Some((c, r))
  {
    CardItemEncodable(c);
    ItemRoundTrip(CardItem(c), r);
    CardItemRoundTrip(c);
  }

  lemma SignedCardRoundTrip(c: SignedCard, r: Bytes)
    ensures DecodeWith(EncodeSignedCard(c) + r, SignedCardFrom) == Some((c, r))
    ensures DecodeSignedCard(EncodeSignedCard(c) + r) == Some(c)
  {
    SignedCardItemEncodable(c);
    ItemRoundTrip(SignedCardItem(c), r);
    SignedCardItemRoundTrip(c);
  }

  lemma MandateRoundTrip(m: MandateRecord, r: Bytes)
    ensures DecodeWith(EncodeMandate(m) + r, MandateFrom) == Some((m, r))
  {
    MandateItemEncodable(m);
    ItemRoundTrip(MandateItem(m), r);
    MandateItemRoundTrip(m);
  }

  lemma SignedMandateRoundTrip(m: SignedMandate, r: Bytes)
    ensures DecodeWith(EncodeSignedMandate(m) + r, SignedMandateFrom) == Some((m, r))
  {
    SignedMandateItemEncodable(m);
    ItemRoundTrip(SignedMandateItem(m), r);
    SignedMandateItemRoundTrip(m);
  }

  /** Whoever signs a card's bytes signs that card only. */
  lemma CardEncodingInjective(c: CardRecord, d: CardRecord, r: Bytes, q: Bytes)
    requires EncodeCard(c) + r == EncodeCard(d) + q
    ensures c == d && r == q
  {
    CardRoundTrip(c, r);
    CardRoundTrip(d, q);
  }

  lemma SignedCardEncodingInjective(c: SignedCard, d: SignedCard, r: Bytes, q: Bytes)
    requires EncodeSignedCard(c) + r == EncodeSignedCard(d) + q
    ensures c == d && r == q
  {
    SignedCardRoundTrip(c, r);
    SignedCardRoundTrip(d, q);
  }

  lemma MandateEncodingInjective(m: MandateRecord, n: MandateRecord, r: Bytes, q: Bytes)
    requires EncodeMandate(m) + r == EncodeMandate(n) + q
    ensures m == n && r == q
  {
    MandateRoundTrip(m, r);
    MandateRoundTrip(n, q);
  }

  /**
   The two kinds of signed bytes are disjoint, even as prefixes of longer streams, so a
   signature over a card is never a signature over a mandate, or the other way round.
   */
  lemma CardAndMandateBytesDisjoint(c: CardRecord, m: MandateRecord, r: Bytes, q: Bytes)
    ensures EncodeCard(c) + r != EncodeMandate(m) + q
  {
    assert |CardFields(c)| >= 6 && |MandateFields(m)| == 3;
    CardItemEncodable(c);
    MandateItemEncodable(m);
    ItemRoundTrip(CardItem(c), r);
    ItemRoundTrip(MandateItem(m), q);
  }

  // --- the writer --------------------------------------------------------

  /** The byte buffer that `into_writer` appends to. */
  class Writer {
    var buf: Bytes

    constructor ()
      ensures buf == []
    {
      buf := [];
    }

    method Push(bytes: Bytes)
      modifies this
      ensures buf == old(buf) + bytes
    {
      buf := buf + bytes;
    }

    method PushBoth(head: Bytes, body: Bytes)
      modifies this
      ensures buf == old(buf) + (head + body)
    {
      Push(head);
      Push(body);
    }

    method WriteItem(x: Item)
      requires Encodable(x)
      modifies this
      ensures buf == old(buf) + Encode(x)
      decreases x, 1
    {
      match x
      case UInt(n) =>
        Push(Head(UINT, n));
      case ByteString(s) =>
        PushBoth(Head(BYTES, |s|), s);
      case TextString(t) =>
        PushBoth(Head(TEXT, |t|), t);
      case Map(es) =>
        ghost var before := buf;
        Push(Head(MAP, |es|));
        WriteEntries(es);
        assert before + Head(MAP, |es|) + EncodeEntries(es) == before + (Head(MAP, |es|) + EncodeEntries(es));
      case Null =>
        Push([NULL_BYTE]);
    }

    method WriteEntry(e: Entry)
      requires EncodableEntry(e)
      modifies this
      ensures buf == old(buf) + EncodeEntry(e)
      decreases e
    {
      WriteItem(e.key);
      WriteItem(e.value);
    }

    /** Serializes the fields of a struct one after the other. */
    method WriteEntries(es: seq<Entry>)
      requires AllEncodable(es)
      modifies this
      ensures buf == old(buf) + EncodeEntries(es)
      decreases es, 0
    {
      var i := 0;
      while i < |es|
        invariant 0 <= i <= |es|
        invariant AllEncodable(es[i..])
        invariant buf + EncodeEntries(es[i..]) == old(buf) + EncodeEntries(es)
      {
        assert es[i..][1..] == es[i + 1..];
        WriteEntry(es[i]);
        i := i + 1;
      }
    }
  }

  method CanonicalEncodeSignedCard(c: SignedCard) returns (buf: Bytes)
    ensures buf == EncodeSignedCard(c)
    ensures CanonicalDecode(buf, SignedCardFrom) == Some(c)
  {
    var w := new Writer();
    SignedCardItemEncodable(c);
    w.WriteItem(SignedCardItem(c));
    buf := w.buf;
    SignedCardRoundTrip(c, []);
    assert buf + [] == buf;
  }

  method CanonicalEncodeMandate(m: MandateRecord) returns (buf: Bytes)
    ensures buf == EncodeMandate(m)
    ensures CanonicalDecode(buf, MandateFrom) == Some(m)
  {
    var w := new Writer();
    MandateItemEncodable(m);
    w.WriteItem(MandateItem(m));
    buf := w.buf;
    MandateRoundTrip(m, []);
    assert buf + [] == buf;
  }
}
