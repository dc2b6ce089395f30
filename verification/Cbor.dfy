/**
 The part of CBOR that the signed records use (section 3.1 of RFC 8949): unsigned
 integers, byte strings, text strings and definite-length maps, and the simple
 value null. The writer always emits the shortest head (section 4.1 of RFC 8949);
 the reader also accepts longer heads.
 */
module Cbor {
  import opened Wrappers
  import opened Octets

  datatype Item =
    | UInt(n: u64)
    | ByteString(bytes: Blob)
    | TextString(text: Text)
    | Map(entries: seq<Entry>)
    | Null

  datatype Entry = Entry(key: Item, value: Item)

  const UINT := 0
  const BYTES := 2
  const TEXT := 3
  const MAP := 5
  const NULL_BYTE: byte := 0xF6

  /** Every map has few enough entries for its head to count them. */
  predicate Encodable(x: Item)
    decreases x, 1
  {
    x.Map? ==> |x.entries| < U64_LIMIT && AllEncodable(x.entries)
  }

  predicate EncodableEntry(e: Entry)
    decreases e
  {
    Encodable(e.key) && Encodable(e.value)
  }

  predicate AllEncodable(es: seq<Entry>)
    decreases es, 0
  {
    es == [] || (EncodableEntry(es[0]) && AllEncodable(es[1..]))
  }

  // --- heads -------------------------------------------------------------

  /** How many bytes the shortest head spends on its argument beyond the first. */
  function ShortestWidth(arg: u64): (w: nat)
    ensures w > 0 ==> arg < Pow256(w)
  {
    WordSizes();
    if arg < 24 then 0
    else if arg < 0x100 then 1
    else if arg < 0x1_0000 then 2
    else if arg < 0x1_0000_0000 then 4
    else 8
  }

  /** The low five bits that announce a `w`-byte argument. */
  function WidthCode(w: nat): (info: nat)
  {
    if w == 1 then 24 else if w == 2 then 25 else if w == 4 then 26 else 27
  }

  function WidthOf(info: nat): (w: nat)
  {
    if info == 24 then 1 else if info == 25 then 2 else if info == 26 then 4 else 8
  }

  function Head(major: nat, arg: u64): (h: Bytes)
    requires major < 8
    ensures |h| == 1 + ShortestWidth(arg)
  {
    var w := ShortestWidth(arg);
    if w == 0 then [major * 32 + arg]
    else [major * 32 + WidthCode(w)] + BigEndian(arg, w)
  }

  datatype HeadRead = HeadRead(major: nat, arg: u64, rest: Bytes)

  function ReadHead(b: Bytes): (r: Option<HeadRead>)
    ensures r.Some? ==> r.value.major < 8 && |r.value.rest| < |b|
  {
    if b == [] then None else
    var info := b[0] % 32;
    if info < 24 then Some(HeadRead(b[0] / 32, info, b[1..]))
    else if info < 28 && WidthOf(info) < |b| then
      WordSizes();
      var w := WidthOf(info);
      Some(HeadRead(b[0] / 32, FromBigEndian(b[1..1 + w]), b[1 + w..]))
    else None
  }

  lemma FirstByte(major: nat, info: nat)
    requires major < 8 && info < 32
    ensures (major * 32 + info) / 32 == major
    ensures (major * 32 + info) % 32 == info
  {
  }

  lemma ReadLongHead(first: byte, n: Bytes, r: Bytes)
    requires |n| in {1, 2, 4, 8} && first % 32 == WidthCode(|n|)
    ensures FromBigEndian(n) < U64_LIMIT
    ensures ReadHead([first] + n + r) == Some(HeadRead(first / 32, FromBigEndian(n), r))
  {
    WordSizes();
    var b := [first] + n + r;
    assert b[1..1 + |n|] == n && b[1 + |n|..] == r;
  }

  lemma HeadRoundTrip(major: nat, arg: u64, r: Bytes)
    requires major < 8
    ensures ReadHead(Head(major, arg) + r) == Some(HeadRead(major, arg, r))
  {
    var w := ShortestWidth(arg);
    if w == 0 {
      FirstByte(major, arg);
      assert ([major * 32 + arg] + r)[1..] == r;
    } else {
      var first, n := major * 32 + WidthCode(w), BigEndian(arg, w);
      FirstByte(major, WidthCode(w));
      BigEndianRoundTrip(arg, w);
      ReadLongHead(first, n, r);
      assert Head(major, arg) == [first] + n;
    }
  }

  /** `front` is no longer than what was read off `b`, and as long only if it is what was read. */
  ghost predicate Shortest(b: Bytes, front: Bytes, rest: Bytes)
  {
    && |front| + |rest| <= |b|
    && (|front| + |rest| == |b| ==> b == front + rest)
  }

  /** A head with an explicit argument is no shorter than the writer's, equal only if it is the writer's. */
  lemma LongHeadIsShortest(first: byte, n: Bytes, rest: Bytes)
    requires |n| in {1, 2, 4, 8} && first % 32 == WidthCode(|n|)
    ensures FromBigEndian(n) < U64_LIMIT
    ensures Shortest([first] + n + rest, Head(first / 32, FromBigEndian(n)), rest)
  {
    WordSizes();
    var arg: u64 := FromBigEndian(n);
    var w := ShortestWidth(arg);
    WidthFits(arg, |n|);
    if w == |n| {
      FromBigEndianRoundTrip(n);
      FirstByteParts(first);
      assert Head(first / 32, arg) == [first] + n;
    }
  }

  /** A number that fits a width is written with no greater one. */
  lemma WidthFits(arg: u64, w: nat)
    requires w in {1, 2, 4, 8} && arg < Pow256(w)
    ensures ShortestWidth(arg) <= w
  {
    WordSizes();
  }

  lemma FirstByteParts(first: byte)
    ensures first / 32 * 32 + first % 32 == first
  {
  }

  /** No head is shorter than the one the writer emits, and no other is as short. */
  lemma HeadIsShortest(b: Bytes)
    requires ReadHead(b).Some?
    ensures var h := ReadHead(b).value; Shortest(b, Head(h.major, h.arg), h.rest)
  {
    var h := ReadHead(b).value;
    var info := b[0] % 32;
    if info < 24 {
      assert b == [b[0]] + b[1..];
    } else {
      var w := WidthOf(info);
      assert b == [b[0]] + b[1..1 + w] + h.rest;
      LongHeadIsShortest(b[0], b[1..1 + w], h.rest);
    }
  }

  // --- items -------------------------------------------------------------

  function Encode(x: Item): (b: Bytes)
    requires Encodable(x)
    ensures |b| > 0
    decreases x, 1
  {
    match x
    case UInt(n) => Head(UINT, n)
    case ByteString(s) => Head(BYTES, |s|) + s
    case TextString(t) => Head(TEXT, |t|) + t
    case Map(es) => Head(MAP, |es|) + EncodeEntries(es)
    case Null => [NULL_BYTE]
  }

  function EncodeEntry(e: Entry): (b: Bytes)
    requires EncodableEntry(e)
    decreases e
  {
    Encode(e.key) + Encode(e.value)
  }

  function EncodeEntries(es: seq<Entry>): (b: Bytes)
    requires AllEncodable(es)
    decreases es, 0
  {
    if es == [] then [] else EncodeEntry(es[0]) + EncodeEntries(es[1..])
  }

  /** Reads one item off the front of `b`; what follows it is returned unread. */
  function Parse(b: Bytes): (r: Option<(Item, Bytes)>)
    ensures r.Some? ==> |r.value.1| < |b| && Encodable(r.value.0)
    decreases |b|, 0
  {
    var head := ReadHead(b);
    if head.None? then None else
    var HeadRead(major, arg, rest) := head.value;
    if major == UINT then Some((UInt(arg), rest))
    else if major == BYTES && arg <= |rest| then Some((ByteString(rest[..arg]), rest[arg..]))
    else if major == TEXT && arg <= |rest| && Utf8(rest[..arg]) then
      Some((TextString(rest[..arg]), rest[arg..]))
    else if major == MAP then
      var es := ParseEntries(arg, rest);
      if es.None? then None else Some((Map(es.value.0), es.value.1))
    else if b[0] == NULL_BYTE then Some((Null, rest))
    else None
  }

  function ParseEntry(b: Bytes): (r: Option<(Entry, Bytes)>)
    ensures r.Some? ==> |r.value.1| < |b| && EncodableEntry(r.value.0)
    decreases |b|, 1
  {
    var key := Parse(b);
    if key.None? then None else
    var value := Parse(key.value.1);
    if value.None? then None
    else Some((Entry(key.value.0, value.value.0), value.value.1))
  }

  function ParseEntries(count: u64, b: Bytes): (r: Option<(seq<Entry>, Bytes)>)
    ensures r.Some? ==> |r.value.0| == count && |r.value.1| <= |b| && AllEncodable(r.value.0)
    decreases |b|, count + 2
  {
    if count == 0 then Some(([], b)) else
    var e := ParseEntry(b);
    if e.None? then None else
    var tail := ParseEntries(count - 1, e.value.1);
    if tail.None? then None else
    var es := [e.value.0] + tail.value.0;
    assert es[1..] == tail.value.0;
    Some((es, tail.value.1))
  }

  lemma StringRoundTrip(major: nat, s: Blob, r: Bytes)
    requires major == BYTES || (major == TEXT && Utf8(s))
    ensures Parse(Head(major, |s|) + s + r) == Some((if major == BYTES then ByteString(s) else TextString(s), r))
  {
    var b := Head(major, |s|) + s + r;
    assert b == Head(major, |s|) + (s + r);
    HeadRoundTrip(major, |s|, s + r);
    assert (s + r)[..|s|] == s && (s + r)[|s|..] == r;
  }

  lemma {:induction false} ItemRoundTrip(x: Item, r: Bytes)
    requires Encodable(x)
    ensures Parse(Encode(x) + r) == Some((x, r))
    decreases x, 1
  {
    match x
    case UInt(n) =>
      HeadRoundTrip(UINT, n, r);
    case ByteString(s) =>
      StringRoundTrip(BYTES, s, r);
    case TextString(t) =>
      StringRoundTrip(TEXT, t, r);
    case Map(es) =>
      assert Encode(x) + r == Head(MAP, |es|) + (EncodeEntries(es) + r);
      HeadRoundTrip(MAP, |es|, EncodeEntries(es) + r);
      EntriesRoundTrip(es, r);
    case Null =>
      assert ([NULL_BYTE] + r)[1..] == r;
  }

  lemma {:induction false} EntryRoundTrip(e: Entry, r: Bytes)
    requires EncodableEntry(e)
    ensures ParseEntry(EncodeEntry(e) + r) == Some((e, r))
    decreases e
  {
    assert EncodeEntry(e) + r == Encode(e.key) + (Encode(e.value) + r);
    ItemRoundTrip(e.key, Encode(e.value) + r);
    ItemRoundTrip(e.value, r);
  }

  lemma {:induction false} EntriesRoundTrip(es: seq<Entry>, r: Bytes)
    requires |es| < U64_LIMIT && AllEncodable(es)
    ensures ParseEntries(|es|, EncodeEntries(es) + r) == Some((es, r))
    decreases es, 0
  {
    if es == [] {
      assert [] + r == r;
    } else {
      var tail := EncodeEntries(es[1..]) + r;
      assert EncodeEntries(es) + r == EncodeEntry(es[0]) + tail;
      EntryRoundTrip(es[0], tail);
      EntriesRoundTrip(es[1..], r);
      assert es == [es[0]] + es[1..];
    }
  }

  /** Encodings are prefix-free: two of them agree on a common stream only if the items do. */
  lemma EncodingPrefixFree(x: Item, y: Item, r: Bytes, q: Bytes)
    requires Encodable(x) && Encodable(y) && Encode(x) + r == Encode(y) + q
    ensures x == y && r == q
  {
    ItemRoundTrip(x, r);
    ItemRoundTrip(y, q);
  }

  lemma ShortestCompose(b: Bytes, x: Bytes, mid: Bytes, y: Bytes, rest: Bytes)
    requires Shortest(b, x, mid) && Shortest(mid, y, rest)
    ensures Shortest(b, x + y, rest)
  {
    if |x + y| + |rest| == |b| {
      assert x + y + rest == x + (y + rest);
    }
  }

  lemma StringIsShortest(b: Bytes, major: nat, s: Blob, rest: Bytes)
    requires major < 8 && ReadHead(b) == Some(HeadRead(major, |s|, s + rest))
    ensures Shortest(b, Head(major, |s|) + s, rest)
  {
    HeadIsShortest(b);
    ShortestCompose(b, Head(major, |s|), s + rest, s, rest);
  }

  lemma NullIsShortest(b: Bytes)
    requires ReadHead(b).Some? && b[0] == NULL_BYTE
    ensures Shortest(b, [NULL_BYTE], ReadHead(b).value.rest)
  {
    assert b == [b[0]] + b[1..];
  }

  /**
   The writer's output is the unique shortest byte string that reads as `x`: this is
   what makes the encoding deterministic although the reader accepts others.
   */
  lemma {:induction false} EncodingIsShortest(b: Bytes)
    requires Parse(b).Some?
    ensures Shortest(b, Encode(Parse(b).value.0), Parse(b).value.1)
    decreases |b|, 0
  {
    var h := ReadHead(b).value;
    var (x, r) := Parse(b).value;
    match x
    case UInt(_) =>
      HeadIsShortest(b);
    case ByteString(s) =>
      assert h.rest == s + r;
      StringIsShortest(b, BYTES, s, r);
    case TextString(t) =>
      assert h.rest == t + r;
      StringIsShortest(b, TEXT, t, r);
    case Map(es) =>
      EntriesAreShortest(h.arg, h.rest);
      MapIsShortest(b, h, es, r);
    case Null =>
      NullIsShortest(b);
  }

  lemma MapIsShortest(b: Bytes, h: HeadRead, es: seq<Entry>, r: Bytes)
    requires AllEncodable(es) && |es| < U64_LIMIT
    requires ReadHead(b) == Some(h) && h.major == MAP && h.arg == |es|
    requires Shortest(h.rest, EncodeEntries(es), r)
    ensures Shortest(b, Head(MAP, |es|) + EncodeEntries(es), r)
  {
    HeadIsShortest(b);
    ShortestCompose(b, Head(MAP, |es|), h.rest, EncodeEntries(es), r);
  }

  lemma {:induction false} EntryIsShortest(b: Bytes)
    requires ParseEntry(b).Some?
    ensures Shortest(b, EncodeEntry(ParseEntry(b).value.0), ParseEntry(b).value.1)
    decreases |b|, 1
  {
    var (key, mid) := Parse(b).value;
    var (value, r) := Parse(mid).value;
    EncodingIsShortest(b);
    EncodingIsShortest(mid);
    ShortestCompose(b, Encode(key), mid, Encode(value), r);
  }

  lemma {:induction false} EntriesAreShortest(count: u64, b: Bytes)
    requires ParseEntries(count, b).Some?
    ensures Shortest(b, EncodeEntries(ParseEntries(count, b).value.0), ParseEntries(count, b).value.1)
    decreases |b|, count + 2
  {
    if count == 0 {
      assert b == [] + b;
    } else {
      var (e, mid) := ParseEntry(b).value;
      var (tail, r) := ParseEntries(count - 1, mid).value;
      EntryIsShortest(b);
      EntriesAreShortest(count - 1, mid);
      ShortestCompose(b, EncodeEntry(e), mid, EncodeEntries(tail), r);
      assert ParseEntries(count, b).value.0[1..] == tail;
    }
  }
}
