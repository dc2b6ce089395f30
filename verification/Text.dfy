/** Searching, replacing and scanning in texts. */
module Text {
  import opened Wrappers

  // --- occurrences -------------------------------------------------------

  /** `p` stands in `s` at position `i`. */
  predicate At(s: string, p: string, i: int)
  {
    0 <= i <= |s| - |p| && forall k {:trigger p[k]} :: 0 <= k < |p| ==> p[k] == s[i + k]
  }

  predicate Contains(s: string, p: string)
  {
    exists i :: 0 <= i <= |s| - |p| && At(s, p, i)
  }

  /** The first position of `p` in `s` from `i` on. */
  function FindFrom(s: string, p: string, i: nat): (r: Option<nat>)
    ensures r.Some? ==> i <= r.value && At(s, p, r.value) && forall j :: i <= j < r.value ==> !At(s, p, j)
    ensures r.None? ==> forall j :: i <= j ==> !At(s, p, j)
    decreases |s| - i
  {
    if i + |p| > |s| then None
    else if At(s, p, i) then Some(i)
    else FindFrom(s, p, i + 1)
  }

  /** The first position of `p` in `s`, as `str::find`. */
  function Find(s: string, p: string): (r: Option<nat>) { FindFrom(s, p, 0) }

  /** Finding in the rest of a text is finding in the text from there on. */
  lemma FindInRest(s: string, p: string, n: nat)
    requires n <= |s|
    ensures Find(s[n..], p) == match FindFrom(s, p, n) case Some(i) => Some(i - n) case None => None
  {
    FindShift(s, p, n, n);
  }

  lemma {:induction false} FindShift(s: string, p: string, n: nat, i: nat)
    requires n <= i && n <= |s|
    ensures FindFrom(s[n..], p, i - n) == match FindFrom(s, p, i) case Some(j) => Some(j - n) case None => None
    decreases |s| - i
  {
    if i + |p| > |s| {
    } else {
      AtPart(s, p, i, n);
      FindShift(s, p, n, i + 1);
    }
  }

  /** An occurrence that ends before `n`, or starts from `n` on, is one of the part. */
  lemma AtPart(s: string, p: string, i: int, n: nat)
    requires n <= |s|
    ensures i + |p| <= n ==> (At(s, p, i) <==> At(s[..n], p, i))
    ensures i >= n ==> (At(s, p, i) <==> At(s[n..], p, i - n))
  {
  }

  lemma CrossingChars(a: string, b: string, p: string, i: int)
    requires At(a + b, p, i) && i < |a| < i + |p|
    ensures a != "" && a[|a| - 1] in p && b != "" && b[0] in p
  {
    assert p[|a| - i] == (a + b)[|a|] == b[0];
    assert p[|a| - 1 - i] == (a + b)[|a| - 1] == a[|a| - 1];
  }

  /**
   Joining two texts creates no occurrence of `p` if `p` cannot cross the seam: the second
   text starts with a character that `p` lacks, or the first ends with one.
   */
  lemma AtJoin(a: string, b: string, p: string, i: int)
    requires At(a + b, p, i) && |p| > 0
    requires (b == "" || b[0] !in p) || (a == "" || a[|a| - 1] !in p)
    ensures At(a, p, i) || At(b, p, i - |a|)
  {
    var s := a + b;
    if i < |a| < i + |p| {
      CrossingChars(a, b, p, i);
    }
    AtPart(s, p, i, |a|);
    assert s[..|a|] == a && s[|a|..] == b;
  }

  lemma ContainsJoin(a: string, b: string, p: string)
    requires |p| > 0 && ((b == "" || b[0] !in p) || (a == "" || a[|a| - 1] !in p))
    ensures Contains(a + b, p) <==> Contains(a, p) || Contains(b, p)
  {
    if Contains(a + b, p) {
      var i :| 0 <= i <= |a + b| - |p| && At(a + b, p, i);
      AtJoin(a, b, p, i);
    }
    assert (a + b)[..|a|] == a && (a + b)[|a|..] == b;
    if Contains(a, p) {
      var i :| 0 <= i <= |a| - |p| && At(a, p, i);
      AtPart(a + b, p, i, |a|);
    }
    if Contains(b, p) {
      var i :| 0 <= i <= |b| - |p| && At(b, p, i);
      AtPart(a + b, p, i + |a|, |a|);
    }
  }

  // --- counting ----------------------------------------------------------

  /** How many times `p` occurs in `s`. */
  function Count(s: string, p: string): (n: nat)
    decreases |s|
  {
    if |s| < |p| || s == "" then 0 else (if p <= s then 1 else 0) + Count(s[1..], p)
  }

  /** A pattern occurs at the front or in the rest. */
  lemma ContainsStep(s: string, p: string)
    requires s != ""
    ensures Contains(s, p) <==> p <= s || Contains(s[1..], p)
  {
    if Contains(s, p) {
      var i :| 0 <= i <= |s| - |p| && At(s, p, i);
      AtPart(s, p, i, 1);
      assert i > 0 ==> At(s[1..], p, i - 1);
    }
    if p <= s {
      assert At(s, p, 0);
    }
    if Contains(s[1..], p) {
      var i :| 0 <= i <= |s[1..]| - |p| && At(s[1..], p, i);
      AtPart(s, p, i + 1, 1);
    }
  }

  lemma {:induction false} CountZero(s: string, p: string)
    requires |p| > 0
    ensures Count(s, p) == 0 <==> !Contains(s, p)
    decreases |s|
  {
    if |s| < |p| {
    } else {
      CountZero(s[1..], p);
      ContainsStep(s, p);
    }
  }

  /** Counts add up over a seam that `p` cannot cross. */
  lemma {:induction false} CountJoin(a: string, b: string, p: string)
    requires |p| > 0 && ((b == "" || b[0] !in p) || (a == "" || a[|a| - 1] !in p))
    ensures Count(a + b, p) == Count(a, p) + Count(b, p)
    decreases |a|
  {
    if a == "" {
      assert a + b == b;
    } else {
      CountJoin(a[1..], b, p);
      assert (a + b)[1..] == a[1..] + b;
      if p <= a + b {
        assert At(a + b, p, 0);
        AtJoin(a, b, p, 0);
      }
      if p <= a {
        assert p <= a + b;
      }
    }
  }

  /** The positions ascend. */
  ghost predicate Ascend(positions: seq<nat>)
  {
    forall x, y :: 0 <= x < y < |positions| ==> positions[x] < positions[y]
  }

  /** The positions one further on, after 0 if that is one of them. */
  function Later(positions: seq<nat>, zero: bool): (r: seq<nat>)
  {
    (if zero then [0] else []) + seq(|positions|, x requires 0 <= x < |positions| => positions[x] + 1)
  }

  lemma LaterAscend(positions: seq<nat>, zero: bool)
    requires Ascend(positions)
    ensures Ascend(Later(positions, zero))
    ensures 0 in Later(positions, zero) <==> zero
    ensures forall i: nat {:trigger i in positions} :: i + 1 in Later(positions, zero) <==> i in positions
  {
    var r, d := Later(positions, zero), if zero then 1 else 0;
    forall i: nat | i in positions ensures i + 1 in r {
      var x :| 0 <= x < |positions| && positions[x] == i;
      assert r[x + d] == i + 1;
    }
    assert zero ==> r[0] == 0;
  }

  /** A count is the number of positions at which the pattern stands. */
  lemma {:induction false} CountIsPositions(s: string, p: string) returns (positions: seq<nat>)
    requires p != ""
    ensures Ascend(positions) && |positions| == Count(s, p)
    ensures forall i: nat :: i in positions <==> At(s, p, i)
    decreases |s|
  {
    positions := [];
    if |s| < |p| {
    } else {
      var rest := CountIsPositions(s[1..], p);
      positions := Later(rest, p <= s);
      LaterAscend(rest, p <= s);
      forall i: nat ensures i in positions <==> At(s, p, i) {
        AtPart(s, p, i, 1);
        assert i > 0 ==> (i in positions <==> i - 1 in rest);
      }
    }
  }

  // --- subsequences ------------------------------------------------------

  /** `a` arises from `b` by deleting characters. */
  ghost predicate Deletes(b: string, a: string)
    decreases |b|
  {
    a == "" || (b != "" && ((a[0] == b[0] && Deletes(b[1..], a[1..])) || Deletes(b[1..], a)))
  }

  /** Each character of `a` stands in `b` at its own of these positions, in order. */
  ghost predicate Embeds(b: string, a: string, positions: seq<nat>)
  {
    Ascend(positions) && |positions| == |a| && forall x :: 0 <= x < |a| ==> positions[x] < |b| && b[positions[x]] == a[x]
  }

  lemma LaterEmbeds(b: string, a: string, rest: seq<nat>, zero: bool)
    requires b != "" && Embeds(b[1..], a, rest)
    ensures Embeds(b, (if zero then [b[0]] else "") + a, Later(rest, zero))
  {
    LaterAscend(rest, zero);
  }

  lemma {:induction false} DeletesEmbeds(b: string, a: string) returns (positions: seq<nat>)
    requires Deletes(b, a)
    ensures Embeds(b, a, positions)
    decreases |b|
  {
    positions := [];
    if a == "" {
    } else {
      var zero := a[0] == b[0] && Deletes(b[1..], a[1..]);
      var rest := DeletesEmbeds(b[1..], if zero then a[1..] else a);
      positions := Later(rest, zero);
      LaterEmbeds(b, if zero then a[1..] else a, rest, zero);
      assert zero ==> a == [a[0]] + a[1..];
      assert "" + a == a;
    }
  }

  lemma EmbedsRest(b: string, a: string, positions: seq<nat>) returns (rest: seq<nat>)
    requires a != "" && Embeds(b, a, positions)
    ensures b != ""
    ensures positions[0] == 0 ==> a[0] == b[0] && Embeds(b[1..], a[1..], rest)
    ensures positions[0] > 0 ==> Embeds(b[1..], a, rest)
  {
    var d := if positions[0] == 0 then 1 else 0;
    rest := seq(|a| - d, x requires 0 <= x < |a| - d => if positions[x + d] > 0 then positions[x + d] - 1 else 0);
    forall x | d <= x < |positions| ensures positions[x] > 0 { assert x > 0 ==> positions[0] < positions[x]; }
  }

  lemma {:induction false} EmbedsDeletes(b: string, a: string, positions: seq<nat>)
    requires Embeds(b, a, positions)
    ensures Deletes(b, a)
    decreases |b|
  {
    if a == "" {
    } else {
      var rest := EmbedsRest(b, a, positions);
      EmbedsDeletes(b[1..], if positions[0] == 0 then a[1..] else a, rest);
    }
  }

  /** Deleting is leaving characters out without moving any. */
  lemma DeletesIff(b: string, a: string)
    ensures Deletes(b, a) <==> exists positions :: Embeds(b, a, positions)
  {
    if Deletes(b, a) {
      var positions := DeletesEmbeds(b, a);
    }
    if positions :| Embeds(b, a, positions) {
      EmbedsDeletes(b, a, positions);
    }
  }

  lemma {:induction false} DeletesNothing(s: string)
    ensures Deletes(s, s)
  {
    if s == "" {
    } else {
      DeletesNothing(s[1..]);
    }
  }

  lemma {:induction false} DeletesPrefix(d: string, b: string, a: string)
    requires Deletes(b, a)
    ensures Deletes(d + b, a)
    decreases |d|
  {
    if d == "" {
      assert d + b == b;
    } else {
      DeletesPrefix(d[1..], b, a);
      assert (d + b)[1..] == d[1..] + b;
    }
  }

  lemma {:induction false} DeletesAfter(k: string, b: string, a: string)
    requires Deletes(b, a)
    ensures Deletes(k + b, k + a)
    decreases |k|
  {
    if k == "" {
      assert k + b == b && k + a == a;
    } else {
      DeletesAfter(k[1..], b, a);
      assert (k + b)[1..] == k[1..] + b && (k + a)[1..] == k[1..] + a;
    }
  }

  lemma {:induction false} DeletesTransitive(c: string, b: string, a: string)
    requires Deletes(c, b) && Deletes(b, a)
    ensures Deletes(c, a)
    decreases |c|
  {
    if a == "" {
    } else {
      if b[0] == c[0] && Deletes(c[1..], b[1..]) {
        if a[0] == b[0] && Deletes(b[1..], a[1..]) {
          DeletesTransitive(c[1..], b[1..], a[1..]);
        } else {
          DeletesTransitive(c[1..], b[1..], a);
        }
      } else {
        DeletesTransitive(c[1..], b, a);
      }
    }
  }

  lemma {:induction false} DeletesShortens(b: string, a: string)
    requires Deletes(b, a)
    ensures |a| <= |b|
    ensures |a| == |b| ==> a == b
    decreases |b|
  {
    if a == "" {
    } else {
      if a[0] == b[0] && Deletes(b[1..], a[1..]) {
        DeletesShortens(b[1..], a[1..]);
      } else {
        DeletesShortens(b[1..], a);
      }
    }
  }

  // --- scanning ----------------------------------------------------------

  /** Where a scan goes on that finds something to delete at a position. */
  type Jump = nat -> Option<nat>

  ghost predicate Advances(n: nat, jump: Jump)
  {
    forall i: nat :: i < n && jump(i).Some? ==> i < jump(i).value <= n
  }

  /** Copies a text from position `i` on, leaving out the spans that `jump` announces. */
  ghost function Scan(s: string, jump: Jump, i: nat): (r: string)
    requires Advances(|s|, jump)
    decreases |s| - i
  {
    if i >= |s| then ""
    else if jump(i).Some? then Scan(s, jump, jump(i).value)
    else [s[i]] + Scan(s, jump, i + 1)
  }

  lemma {:induction false} ScanKeeps(s: string, jump: Jump, i: nat, j: nat)
    requires Advances(|s|, jump) && i <= j <= |s|
    requires forall k: nat :: i <= k < j ==> jump(k).None?
    ensures Scan(s, jump, i) == s[i..j] + Scan(s, jump, j)
    decreases j - i
  {
    var t := Scan(s, jump, j);
    if i < j {
      ScanKeeps(s, jump, i + 1, j);
      assert Scan(s, jump, i) == [s[i]] + Scan(s, jump, i + 1);
      assert s[i..j] + t == [s[i]] + (s[i + 1..j] + t);
    } else {
      assert s[i..j] == "";
    }
  }

  /** One round of a loop that keeps what precedes position `i` and goes on at the jump's end. */
  lemma ScanRound(s: string, jump: Jump, off: nat, i: nat, result: string, total: string)
    requires Advances(|s|, jump) && off <= i < |s| && jump(i).Some?
    requires forall k: nat :: off <= k < i ==> jump(k).None?
    requires result + Scan(s, jump, off) == total
    ensures result + s[off..i] + Scan(s, jump, jump(i).value) == total
  {
    ScanKeeps(s, jump, off, i);
    var rest := Scan(s, jump, jump(i).value);
    assert Scan(s, jump, i) == rest;
    assert result + (s[off..i] + rest) == result + s[off..i] + rest;
  }

  lemma ScanFinish(s: string, jump: Jump, off: nat, result: string, total: string)
    requires Advances(|s|, jump) && off <= |s|
    requires forall k: nat :: off <= k < |s| ==> jump(k).None?
    requires result + Scan(s, jump, off) == total
    ensures result + s[off..] == total
  {
    ScanKeeps(s, jump, off, |s|);
    assert s[off..|s|] + "" == s[off..];
  }

  /** A scan only deletes. */
  lemma {:induction false} ScanDeletes(s: string, jump: Jump, i: nat)
    requires Advances(|s|, jump) && i <= |s|
    ensures Deletes(s[i..], Scan(s, jump, i))
    decreases |s| - i
  {
    if i >= |s| {
    } else {
      if jump(i).Some? {
        var j := jump(i).value;
        ScanDeletes(s, jump, j);
        DeletesPrefix(s[i..j], s[j..], Scan(s, jump, j));
        assert s[i..] == s[i..j] + s[j..];
      } else {
        ScanDeletes(s, jump, i + 1);
        assert s[i..][1..] == s[i + 1..];
      }
    }
  }

  type Span = (nat, nat)

  /** Spans from `i` on that follow one another within a text of length `n`. */
  ghost predicate Ordered(n: nat, spans: seq<Span>, i: nat)
  {
    spans == [] || (i <= spans[0].0 <= spans[0].1 <= n && Ordered(n, spans[1..], spans[0].1))
  }

  /** The text from `i` on without some spans. */
  ghost function Without(s: string, spans: seq<Span>, i: nat): (r: string)
    requires i <= |s| && Ordered(|s|, spans, i)
    decreases |spans|
  {
    if spans == [] then s[i..] else s[i..spans[0].0] + Without(s, spans[1..], spans[0].1)
  }

  /** The spans lie apart and in order; each starts where something is found and ends where its jump says. */
  ghost predicate Apart(s: string, jump: Jump, i: nat, spans: seq<Span>)
  {
    && (forall x :: 0 <= x < |spans| ==>
          i <= spans[x].0 < spans[x].1 <= |s| && jump(spans[x].0) == Some(spans[x].1))
    && (forall x, y :: 0 <= x < y < |spans| ==> spans[x].1 <= spans[y].0)
  }

  /** The spans cover every position at which something is found. */
  ghost predicate Cover(s: string, jump: Jump, i: nat, spans: seq<Span>)
  {
    forall k: nat {:trigger InSpan(spans, k)} :: i <= k < |s| && jump(k).Some? ==> InSpan(spans, k)
  }

  ghost predicate InSpan(spans: seq<Span>, k: nat)
  {
    exists x :: 0 <= x < |spans| && spans[x].0 <= k < spans[x].1
  }

  ghost predicate IsCutting(s: string, jump: Jump, i: nat, spans: seq<Span>)
  {
    Apart(s, jump, i, spans) && Cover(s, jump, i, spans)
  }

  /** What is to be cut out: does a span start at the first position that ends at the second? */
  type Found = (nat, nat) -> bool

  /** The spans follow one another, each is to be cut out, and none that is starts outside them. */
  ghost predicate CutsOut(found: Found, spans: seq<Span>)
  {
    && (forall x :: 0 <= x < |spans| ==> found(spans[x].0, spans[x].1))
    && (forall x, y :: 0 <= x < y < |spans| ==> spans[x].1 <= spans[y].0)
    && (forall i: nat, end: nat :: found(i, end) ==> InSpan(spans, i))
  }

  lemma CutsOutIff(s: string, jump: Jump, found: Found, spans: seq<Span>)
    requires Advances(|s|, jump) && forall i: nat, end: nat :: found(i, end) <==> i < |s| && jump(i) == Some(end)
    ensures CutsOut(found, spans) <==> IsCutting(s, jump, 0, spans)
  {
    if CutsOut(found, spans) {
      forall k: nat | k < |s| && jump(k).Some? ensures InSpan(spans, k) {
        assert found(k, jump(k).value);
      }
    }
    if IsCutting(s, jump, 0, spans) {
      forall x | 0 <= x < |spans| ensures found(spans[x].0, spans[x].1) {
        assert jump(spans[x].0) == Some(spans[x].1);
      }
    }
  }

  /** The spans that a scan from `i` leaves out. */
  ghost function Spans(s: string, jump: Jump, i: nat): (spans: seq<Span>)
    requires Advances(|s|, jump)
    decreases |s| - i
  {
    if i >= |s| then []
    else if jump(i).Some? then [(i, jump(i).value)] + Spans(s, jump, jump(i).value)
    else Spans(s, jump, i + 1)
  }

  lemma ApartAfterSpan(s: string, jump: Jump, i: nat, j: nat, spans: seq<Span>)
    requires i < j <= |s| && jump(i) == Some(j) && Apart(s, jump, j, spans)
    ensures Apart(s, jump, i, [(i, j)] + spans)
  {
  }

  lemma CoverAfterSpan(s: string, jump: Jump, i: nat, j: nat, spans: seq<Span>)
    requires i < j <= |s| && jump(i) == Some(j) && Cover(s, jump, j, spans)
    ensures Cover(s, jump, i, [(i, j)] + spans)
  {
    var all := [(i, j)] + spans;
    forall k: nat | i <= k < |s| && jump(k).Some? ensures InSpan(all, k) {
      if k < j {
        assert all[0].0 <= k < all[0].1;
      } else {
        assert InSpan(spans, k);
        var x :| 0 <= x < |spans| && spans[x].0 <= k < spans[x].1;
        assert all[x + 1].0 <= k < all[x + 1].1;
      }
    }
  }

  lemma CoverAfterKept(s: string, jump: Jump, i: nat, spans: seq<Span>)
    requires i < |s| && jump(i).None? && Cover(s, jump, i + 1, spans)
    ensures Cover(s, jump, i, spans)
  {
  }

  /** A scan cuts out spans that lie apart, each from where something is found, and leaves nothing to find. */
  lemma {:induction false} ScanIsCutting(s: string, jump: Jump, i: nat)
    requires Advances(|s|, jump) && i <= |s|
    ensures IsCutting(s, jump, i, Spans(s, jump, i))
    decreases |s| - i
  {
    if i >= |s| {
    } else {
      if jump(i).Some? {
        var j := jump(i).value;
        var spans := Spans(s, jump, j);
        ScanIsCutting(s, jump, j);
        ApartAfterSpan(s, jump, i, j, spans);
        CoverAfterSpan(s, jump, i, j, spans);
        assert Spans(s, jump, i) == [(i, j)] + spans;
      } else {
        ScanIsCutting(s, jump, i + 1);
        CoverAfterKept(s, jump, i, Spans(s, jump, i + 1));
      }
    }
  }

  lemma {:induction false} ApartIsOrdered(s: string, jump: Jump, i: nat, spans: seq<Span>)
    requires Apart(s, jump, i, spans)
    ensures Ordered(|s|, spans, i)
    decreases |spans|
  {
    if spans == [] {
    } else {
      ApartIsOrdered(s, jump, spans[0].1, spans[1..]);
    }
  }

  lemma WithoutFromKept(s: string, spans: seq<Span>, i: nat)
    requires i < |s| && Ordered(|s|, spans, i + 1)
    ensures Ordered(|s|, spans, i) && Without(s, spans, i) == [s[i]] + Without(s, spans, i + 1)
  {
    if spans == [] {
      assert s[i..] == [s[i]] + s[i + 1..];
    } else {
      var rest := Without(s, spans[1..], spans[0].1);
      assert s[i..spans[0].0] + rest == [s[i]] + (s[i + 1..spans[0].0] + rest);
    }
  }

  lemma WithoutFromSpan(s: string, spans: seq<Span>, i: nat, j: nat)
    requires i <= j <= |s| && Ordered(|s|, spans, j)
    ensures Ordered(|s|, [(i, j)] + spans, i) && Without(s, [(i, j)] + spans, i) == Without(s, spans, j)
  {
    var all := [(i, j)] + spans;
    assert all[1..] == spans;
    assert s[i..i] + Without(s, spans, j) == Without(s, spans, j);
  }

  lemma {:induction false} ScanIsWithout(s: string, jump: Jump, i: nat)
    requires Advances(|s|, jump) && i <= |s|
    ensures IsCutting(s, jump, i, Spans(s, jump, i)) && Ordered(|s|, Spans(s, jump, i), i)
    ensures Scan(s, jump, i) == Without(s, Spans(s, jump, i), i)
    decreases |s| - i
  {
    ScanIsCutting(s, jump, i);
    ApartIsOrdered(s, jump, i, Spans(s, jump, i));
    if i >= |s| {
    } else {
      if jump(i).Some? {
        var j := jump(i).value;
        ScanIsWithout(s, jump, j);
        WithoutFromSpan(s, Spans(s, jump, j), i, j);
      } else {
        ScanIsWithout(s, jump, i + 1);
        WithoutFromKept(s, Spans(s, jump, i + 1), i);
      }
    }
  }

  lemma FirstSpanFirst(s: string, jump: Jump, i: nat, spans: seq<Span>, other: seq<Span>)
    requires IsCutting(s, jump, i, spans) && IsCutting(s, jump, i, other) && spans != []
    ensures other != [] && other[0].0 <= spans[0].0
  {
    assert InSpan(other, spans[0].0);
  }

  lemma CuttingTail(s: string, jump: Jump, i: nat, spans: seq<Span>)
    requires IsCutting(s, jump, i, spans) && spans != []
    ensures IsCutting(s, jump, spans[0].1, spans[1..])
  {
    forall k: nat | spans[0].1 <= k < |s| && jump(k).Some? ensures InSpan(spans[1..], k) {
      assert InSpan(spans, k);
      var x :| 0 <= x < |spans| && spans[x].0 <= k < spans[x].1;
      assert spans[1..][x - 1] == spans[x];
    }
  }

  /** There is only one way to cut. */
  lemma {:induction false} CuttingUnique(s: string, jump: Jump, i: nat, spans: seq<Span>, other: seq<Span>)
    requires IsCutting(s, jump, i, spans) && IsCutting(s, jump, i, other)
    ensures spans == other
    decreases |spans|
  {
    if other != [] { FirstSpanFirst(s, jump, i, other, spans); }
    if spans == [] {
    } else {
      FirstSpanFirst(s, jump, i, spans, other);
      CuttingTail(s, jump, i, spans);
      CuttingTail(s, jump, i, other);
      CuttingUnique(s, jump, spans[0].1, spans[1..], other[1..]);
      assert spans == [spans[0]] + spans[1..] && other == [other[0]] + other[1..];
    }
  }

  /**
   What a scan yields, without recursion: the text without spans that lie apart, each from a
   position at which something is found to the end its jump gives, so that nothing is found
   at any position kept. No other text is of this form.
   */
  lemma ScanCharacterised(s: string, jump: Jump, r: string)
    requires Advances(|s|, jump)
    ensures r == Scan(s, jump, 0) <==> exists spans ::
              IsCutting(s, jump, 0, spans) && Ordered(|s|, spans, 0) && r == Without(s, spans, 0)
  {
    ScanIsWithout(s, jump, 0);
    forall spans | IsCutting(s, jump, 0, spans) && Ordered(|s|, spans, 0) ensures Without(s, spans, 0) == Scan(s, jump, 0) {
      CuttingUnique(s, jump, 0, spans, Spans(s, jump, 0));
    }
  }

  /** `r` is the text without the spans that are found, taken from the left. */
  ghost predicate WithoutFound(s: string, found: Found, r: string)
  {
    exists spans :: CutsOut(found, spans) && Ordered(|s|, spans, 0) && r == Without(s, spans, 0)
  }

  /** The same for what is found said apart from any jump. */
  lemma ScanCutsOut(s: string, jump: Jump, found: Found, r: string)
    requires Advances(|s|, jump) && forall i: nat, end: nat :: found(i, end) <==> i < |s| && jump(i) == Some(end)
    ensures r == Scan(s, jump, 0) <==> WithoutFound(s, found, r)
  {
    ScanCharacterised(s, jump, r);
    forall spans ensures CutsOut(found, spans) <==> IsCutting(s, jump, 0, spans) {
      CutsOutIff(s, jump, found, spans);
    }
  }

  /** Once something is found, the scan comes out shorter. */
  lemma ScanShortens(s: string, jump: Jump, i: nat)
    requires Advances(|s|, jump) && i < |s| && jump(i).Some?
    requires forall k: nat :: k < i ==> jump(k).None?
    ensures |Scan(s, jump, 0)| < |s|
  {
    ScanKeeps(s, jump, 0, i);
    var j := jump(i).value;
    ScanDeletes(s, jump, j);
    DeletesShortens(s[j..], Scan(s, jump, j));
    assert Scan(s, jump, i) == Scan(s, jump, j);
  }

  lemma {:induction false} FirstFinding(s: string, jump: Jump, n: nat) returns (i: nat)
    requires n <= |s|
    ensures i <= n && (forall k: nat :: k < i ==> jump(k).None?) && (i < n ==> jump(i).Some?)
  {
    i := 0;
    while i < n && jump(i).None?
      invariant i <= n && forall k: nat :: k < i ==> jump(k).None?
    {
      i := i + 1;
    }
  }

  /** A scan changes nothing exactly when nothing is found anywhere. */
  lemma ScanIdentity(s: string, jump: Jump)
    requires Advances(|s|, jump)
    ensures Scan(s, jump, 0) == s <==> forall i: nat :: i < |s| ==> jump(i).None?
  {
    var i := FirstFinding(s, jump, |s|);
    if i < |s| {
      ScanShortens(s, jump, i);
    } else {
      ScanKeeps(s, jump, 0, |s|);
      assert s[0..|s|] + "" == s;
    }
  }
}
