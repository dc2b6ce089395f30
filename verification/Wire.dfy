/** What the CBOR writer puts on the wire, byte by byte, and what the reader takes beyond that. */
module Wire {
  import opened Wrappers
  import opened Octets
  import opened Cbor

  /** The bytes of a head, section 3 of RFC 8949: the major type above, the shortest argument below and behind. */
  predicate IsHead(h: Bytes, major: nat, arg: u64)
    requires major < 8
  {
    if arg < 24 then h == [major * 32 + arg]
    else if arg < 0x100 then h == [major * 32 + 24, arg]
    else if arg < 0x1_0000 then |h| == 3 && h[0] == major * 32 + 25 && arg == Spelled(0, 0, h[1], h[2])
    else if arg < 0x1_0000_0000 then |h| == 5 && h[0] == major * 32 + 26 && arg == Spelled(h[1], h[2], h[3], h[4])
    else
      && |h| == 9 && h[0] == major * 32 + 27
      && arg == Spelled(h[1], h[2], h[3], h[4]) * 0x1_0000_0000 + Spelled(h[5], h[6], h[7], h[8])
  }

  lemma HeadIs(major: nat, arg: u64)
    requires major < 8
    ensures IsHead(Head(major, arg), major, arg)
  {
    if arg < 24 {
    } else if arg < 0x1_0000 {
      ShortHeadIs(major, arg);
    } else if arg < 0x1_0000_0000 {
      LongHeadIs(major, arg);
    } else {
      LongestHeadIs(major, arg);
    }
  }

  lemma ShortHeadIs(major: nat, arg: u64)
    requires major < 8 && 24 <= arg < 0x1_0000
    ensures IsHead(Head(major, arg), major, arg)
  {
    if arg < 0x100 { BigEndianOne(arg); } else { BigEndianTwo(arg); }
  }

  lemma LongHeadIs(major: nat, arg: u64)
    requires major < 8 && 0x1_0000 <= arg < 0x1_0000_0000
    ensures IsHead(Head(major, arg), major, arg)
  {
    BigEndianFour(arg);
    assert ShortestWidth(arg) == 4;
  }

  lemma LongestHeadIs(major: nat, arg: u64)
    requires major < 8 && arg >= 0x1_0000_0000
    ensures IsHead(Head(major, arg), major, arg)
  {
    WordSizes();
    BigEndianEight(arg);
  }

  /** The bytes of an item: a head of its own major type, and what it counts behind it. */
  ghost predicate IsEncoding(b: Bytes, x: Item)
    requires Encodable(x)
  {
    match x
    case UInt(n) => IsHead(b, 0, n)
    case ByteString(s) => exists h :: IsHead(h, 2, |s|) && b == h + s
    case TextString(t) => exists h :: IsHead(h, 3, |t|) && b == h + t
    case Map(es) => exists h :: IsHead(h, 5, |es|) && b == h + EncodeEntries(es)
    case Null => b == [0xF6]
  }

  lemma EncodingIs(x: Item)
    requires Encodable(x)
    ensures IsEncoding(Encode(x), x)
  {
    match x
    case UInt(n) => HeadIs(0, n);
    case ByteString(s) => HeadIs(2, |s|);
    case TextString(t) => HeadIs(3, |t|);
    case Map(es) => HeadIs(5, |es|);
    case Null =>
  }

  /** Entries follow one another in the map's order, each its key and then its value. */
  lemma EntriesFollow(e: Entry, es: seq<Entry>)
    requires EncodableEntry(e) && AllEncodable(es)
    ensures AllEncodable([e] + es) && EncodeEntries([e] + es) == Encode(e.key) + Encode(e.value) + EncodeEntries(es)
  {
    assert ([e] + es)[1..] == es;
  }

  /** Examples of Appendix A of RFC 8949. */
  lemma StandardNumbers()
    ensures Encode(UInt(23)) == [0x17] && Encode(UInt(24)) == [0x18, 0x18]
    ensures Encode(UInt(1000)) == [0x19, 0x03, 0xE8]
    ensures Encode(UInt(1000000)) == [0x1A, 0x00, 0x0F, 0x42, 0x40]
  {
    HeadIs(0, 23);
    HeadIs(0, 24);
    HeadIs(0, 1000);
    HeadIs(0, 1000000);
  }

  /** Further examples, of strings and maps: `h'01020304'`, `"a"`, `{}` and `{"a": "A"}`. */
  lemma StandardStrings(a: Text, b: Text)
    requires a == [0x61] && b == [0x41]
    ensures Encode(ByteString([0x01, 0x02, 0x03, 0x04])) == [0x44, 0x01, 0x02, 0x03, 0x04]
    ensures Encode(TextString(a)) == [0x61, 0x61] && Encode(Null) == [0xF6] && Encode(Map([])) == [0xA0]
    ensures var es := [Entry(TextString(a), TextString(b))];
            AllEncodable(es) && Encode(Map(es)) == [0xA1, 0x61, 0x61, 0x61, 0x41]
  {
    HeadIs(2, 4);
    HeadIs(3, 1);
    HeadIs(5, 0);
    HeadIs(5, 1);
    EntriesFollow(Entry(TextString(a), TextString(b)), []);
  }

  /** A number or string is read behind any head that announces it, also one longer than the writer's. */
  lemma AnyHeadReads(first: byte, n: Bytes, s: Blob, r: Bytes)
    requires |n| in {1, 2, 4, 8}
    requires first % 32 == if |n| == 1 then 24 else if |n| == 2 then 25 else if |n| == 4 then 26 else 27
    requires first / 32 != 0 ==> FromBigEndian(n) == |s|
    ensures first / 32 == 0 ==>
              FromBigEndian(n) < U64_LIMIT && Parse([first] + n + r) == Some((UInt(FromBigEndian(n)), r))
    ensures first / 32 == 2 ==> Parse([first] + n + (s + r)) == Some((ByteString(s), r))
    ensures first / 32 == 3 && Utf8(s) ==> Parse([first] + n + (s + r)) == Some((TextString(s), r))
  {
    ReadLongHead(first, n, r);
    ReadLongHead(first, n, s + r);
    assert (s + r)[..|s|] == s && (s + r)[|s|..] == r;
  }
}
