/** Bytes, 64-bit words, UTF-8 text and big-endian numbers. */
module Octets {

  type byte = n: int | 0 <= n < 0x100

  const U64_LIMIT := 0x1_0000_0000_0000_0000

  type u64 = n: int | 0 <= n < 0x1_0000_0000_0000_0000

  type Bytes = seq<byte>

  /** A byte string whose length fits a 64-bit word, as every Rust `Vec<u8>` does. */
  type Blob = b: Bytes | |b| < 0x1_0000_0000_0000_0000

  predicate Continuation(b: byte) { 0x80 <= b < 0xC0 }

  /** Well-formed UTF-8, section 4 of RFC 3629. */
  predicate Utf8(b: Bytes)
    decreases |b|
  {
    if b == [] then true
    else if b[0] < 0x80 then Utf8(b[1..])
    else if 0xC2 <= b[0] < 0xE0 then |b| >= 2 && Continuation(b[1]) && Utf8(b[2..])
    else if 0xE0 <= b[0] < 0xF0 then
      && |b| >= 3 && Continuation(b[1]) && Continuation(b[2])
      && (b[0] == 0xE0 ==> b[1] >= 0xA0)
      && (b[0] == 0xED ==> b[1] < 0xA0)
      && Utf8(b[3..])
    else if 0xF0 <= b[0] < 0xF5 then
      && |b| >= 4 && Continuation(b[1]) && Continuation(b[2]) && Continuation(b[3])
      && (b[0] == 0xF0 ==> b[1] >= 0x90)
      && (b[0] == 0xF4 ==> b[1] < 0x90)
      && Utf8(b[4..])
    else false
  }

  /** A Rust `String`, as its UTF-8 bytes. */
  type Text = b: Bytes | |b| < 0x1_0000_0000_0000_0000 && Utf8(b) witness []

  lemma {:induction false} AsciiIsUtf8(b: Bytes)
    requires forall i :: 0 <= i < |b| ==> b[i] < 0x80
    ensures Utf8(b)
  {
    if b == [] {
    } else {
      AsciiIsUtf8(b[1..]);
    }
  }

  /** A Unicode scalar value. */
  predicate Scalar(n: nat) { n < 0xD800 || 0xE000 <= n < 0x11_0000 }

  /** The bytes of a scalar value, section 3 of RFC 3629. */
  function EncodeScalar(n: nat): (b: Bytes)
    requires Scalar(n)
  {
    if n < 0x80 then [n]
    else if n < 0x800 then [0xC0 + n / 0x40, 0x80 + n % 0x40]
    else if n < 0x1_0000 then [0xE0 + n / 0x1000, 0x80 + n / 0x40 % 0x40, 0x80 + n % 0x40]
    else [0xF0 + n / 0x4_0000, 0x80 + n / 0x1000 % 0x40, 0x80 + n / 0x40 % 0x40, 0x80 + n % 0x40]
  }

  predicate AllScalars(ns: seq<nat>) { forall i :: 0 <= i < |ns| ==> Scalar(ns[i]) }

  function EncodeScalars(ns: seq<nat>): (b: Bytes)
    requires AllScalars(ns)
  {
    if ns == [] then [] else EncodeScalar(ns[0]) + EncodeScalars(ns[1..])
  }

  lemma ScalarIsUtf8(n: nat, rest: Bytes)
    requires Scalar(n) && Utf8(rest)
    ensures Utf8(EncodeScalar(n) + rest)
  {
    var e := EncodeScalar(n);
    var b := e + rest;
    assert b[|e|..] == rest;
  }

  lemma TwoByteScalar(b: Bytes) returns (n: nat)
    requires |b| == 2 && 0xC2 <= b[0] < 0xE0 && Continuation(b[1])
    ensures Scalar(n) && b == EncodeScalar(n)
  {
    n := (b[0] as int - 0xC0) * 0x40 + (b[1] as int - 0x80);
  }

  lemma ThreeByteScalar(b: Bytes) returns (n: nat)
    requires |b| == 3 && 0xE0 <= b[0] < 0xF0 && Continuation(b[1]) && Continuation(b[2])
    requires (b[0] == 0xE0 ==> b[1] >= 0xA0) && (b[0] == 0xED ==> b[1] < 0xA0)
    ensures Scalar(n) && b == EncodeScalar(n)
  {
    var y, z, w := b[0] as int - 0xE0, b[1] as int - 0x80, b[2] as int - 0x80;
    n := y * 0x1000 + z * 0x40 + w;
    assert n / 0x40 == y * 0x40 + z;
    SixBitParts(0, y, z, w);
  }

  lemma FourByteScalar(b: Bytes) returns (n: nat)
    requires |b| == 4 && 0xF0 <= b[0] < 0xF5 && Continuation(b[1]) && Continuation(b[2]) && Continuation(b[3])
    requires (b[0] == 0xF0 ==> b[1] >= 0x90) && (b[0] == 0xF4 ==> b[1] < 0x90)
    ensures Scalar(n) && b == EncodeScalar(n)
  {
    var x, y, z, w := b[0] as int - 0xF0, b[1] as int - 0x80, b[2] as int - 0x80, b[3] as int - 0x80;
    n := x * 0x4_0000 + y * 0x1000 + z * 0x40 + w;
    SixBitParts(x, y, z, w);
  }

  lemma SixBitParts(x: nat, y: nat, z: nat, w: nat)
    requires y < 0x40 && z < 0x40 && w < 0x40
    ensures var n := x * 0x4_0000 + y * 0x1000 + z * 0x40 + w;
            n / 0x4_0000 == x && n / 0x1000 % 0x40 == y && n / 0x40 % 0x40 == z && n % 0x40 == w
  {
    var n := x * 0x4_0000 + y * 0x1000 + z * 0x40 + w;
    assert n / 0x40 == x * 0x1000 + y * 0x40 + z;
    assert n / 0x1000 == x * 0x40 + y;
  }

  lemma FirstScalar(b: Bytes) returns (n: nat, k: nat)
    requires b != [] && Utf8(b)
    ensures Scalar(n) && 0 < k <= |b| && b[..k] == EncodeScalar(n) && Utf8(b[k..])
  {
    if b[0] < 0x80 {
      n, k := b[0], 1;
    } else if b[0] < 0xE0 {
      n := TwoByteScalar(b[..2]);
      k := 2;
    } else if b[0] < 0xF0 {
      n := ThreeByteScalar(b[..3]);
      k := 3;
    } else {
      n := FourByteScalar(b[..4]);
      k := 4;
    }
  }

  lemma {:induction false} EncodedIsUtf8(ns: seq<nat>)
    requires AllScalars(ns)
    ensures Utf8(EncodeScalars(ns))
  {
    if ns == [] {
    } else {
      EncodedIsUtf8(ns[1..]);
      ScalarIsUtf8(ns[0], EncodeScalars(ns[1..]));
    }
  }

  lemma {:induction false} Utf8IsEncoded(b: Bytes) returns (ns: seq<nat>)
    requires Utf8(b)
    ensures AllScalars(ns) && EncodeScalars(ns) == b
    decreases |b|
  {
    ns := [];
    if b == [] {
    } else {
      var n, k := FirstScalar(b);
      var rest := Utf8IsEncoded(b[k..]);
      ns := [n] + rest;
      assert ns[1..] == rest && b == b[..k] + b[k..];
    }
  }

  /** Well-formed are exactly the encodings of sequences of scalar values. */
  lemma Utf8Iff(b: Bytes)
    ensures Utf8(b) <==> exists ns :: AllScalars(ns) && EncodeScalars(ns) == b
  {
    if Utf8(b) {
      var ns := Utf8IsEncoded(b);
    }
    if ns :| AllScalars(ns) && EncodeScalars(ns) == b {
      EncodedIsUtf8(ns);
    }
  }

  /** The bytes are the ASCII codes of the text. */
  predicate Spells(b: Bytes, s: string)
  {
    |b| == |s| && forall i :: 0 <= i < |s| ==> b[i] == s[i] as int
  }

  function Pow256(w: nat): (p: nat)
    ensures p >= 1
  {
    if w == 0 then 1 else 256 * Pow256(w - 1)
  }

  lemma WordSizes()
    ensures Pow256(1) == 0x100
    ensures Pow256(2) == 0x1_0000
    ensures Pow256(4) == 0x1_0000_0000
    ensures Pow256(8) == 0x1_0000_0000_0000_0000
  {
    assert Pow256(3) == 256 * Pow256(2);
    assert Pow256(4) == 256 * Pow256(3);
    assert Pow256(5) == 256 * Pow256(4);
    assert Pow256(6) == 256 * Pow256(5);
    assert Pow256(7) == 256 * Pow256(6);
    assert Pow256(8) == 256 * Pow256(7);
  }

  /** The `w` bytes of `n`, most significant first. */
  function BigEndian(n: nat, w: nat): (b: Bytes)
    requires n < Pow256(w)
    ensures |b| == w
  {
    if w == 0 then [] else BigEndian(n / 256, w - 1) + [n % 256]
  }

  function FromBigEndian(b: Bytes): (n: nat)
    ensures n < Pow256(|b|)
  {
    if b == [] then 0 else FromBigEndian(b[..|b| - 1]) * 256 + b[|b| - 1]
  }

  /** The most significant byte stands first. */
  lemma BigEndianStep(n: nat, w: nat)
    requires w > 0 && n < Pow256(w)
    ensures n / 256 < Pow256(w - 1) && BigEndian(n, w) == BigEndian(n / 256, w - 1) + [n % 256]
  {
  }

  /** The number that four bytes spell, most significant first. */
  function Spelled(b3: nat, b2: nat, b1: nat, b0: nat): (n: nat)
  {
    b3 * 0x100_0000 + b2 * 0x1_0000 + b1 * 0x100 + b0
  }

  lemma BigEndianOne(n: nat)
    requires n < 0x100
    ensures n < Pow256(1) && BigEndian(n, 1) == [n]
  {
    WordSizes();
    assert BigEndian(n / 256, 0) == [];
  }

  lemma BigEndianTwo(n: nat)
    requires n < 0x1_0000
    ensures n < Pow256(2)
    ensures var b := BigEndian(n, 2); n == Spelled(0, 0, b[0], b[1])
  {
    WordSizes();
    BigEndianStep(n, 2);
    BigEndianOne(n / 256);
  }

  lemma BigEndianFour(n: nat)
    requires n < 0x1_0000_0000
    ensures n < Pow256(4)
    ensures var b := BigEndian(n, 4); n == Spelled(b[0], b[1], b[2], b[3])
  {
    WordSizes();
    BigEndianStep(n, 4);
    BigEndianStep(n / 256, 3);
    BigEndianTwo(n / 256 / 256);
  }

  lemma BigEndianEight(n: nat)
    requires n < U64_LIMIT
    ensures n < Pow256(8)
    ensures var b := BigEndian(n, 8);
            n == Spelled(b[0], b[1], b[2], b[3]) * 0x1_0000_0000 + Spelled(b[4], b[5], b[6], b[7])
  {
    WordSizes();
    BigEndianStep(n, 8);
    BigEndianStep(n / 256, 7);
    BigEndianStep(n / 256 / 256, 6);
    BigEndianStep(n / 256 / 256 / 256, 5);
    BigEndianFour(n / 256 / 256 / 256 / 256);
  }

  lemma {:induction false} BigEndianRoundTrip(n: nat, w: nat)
    requires n < Pow256(w)
    ensures FromBigEndian(BigEndian(n, w)) == n
  {
    if w == 0 {
    } else {
      BigEndianRoundTrip(n / 256, w - 1);
      assert BigEndian(n, w)[..w - 1] == BigEndian(n / 256, w - 1);
    }
  }

  lemma {:induction false} FromBigEndianRoundTrip(b: Bytes)
    ensures BigEndian(FromBigEndian(b), |b|) == b
  {
    if b == [] {
    } else {
      FromBigEndianRoundTrip(b[..|b| - 1]);
      assert b == b[..|b| - 1] + [b[|b| - 1]];
    }
  }
}
