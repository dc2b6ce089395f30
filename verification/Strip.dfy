/**
 The passes of the sanitiser that delete: comments, script and style elements, elements
 hidden by an inline style, meta tags with long contents, and invisible characters.
 */
module Strip {
  import opened Wrappers
  import opened Text

  /**
   `str::to_lowercase`. The passes use positions of the lowercase copy in the text itself,
   which presupposes that lowering keeps positions; nothing else is assumed of it.
   */
  type Lowering = f: string -> string | forall s :: |f(s)| == |s| witness (s: string) => s

  /** Unicode White_Space. */
  predicate IsWhitespace(c: char)
  {
    var n := c as int;
    || 0x9 <= n <= 0xD || n == 0x20 || n == 0x85 || n == 0xA0 || n == 0x1680
    || 0x2000 <= n <= 0x200A || n == 0x2028 || n == 0x2029 || n == 0x202F || n == 0x205F || n == 0x3000
  }

  // --- paired delimiters -------------------------------------------------

  /** At an opener, on to the end of the first closer from the opener's own start, or to the end. */
  function PairNext(low: string, open: string, close: string, i: nat): (next: Option<nat>)
  {
    if i >= |low| || !At(low, open, i) then None else
    match FindFrom(low, close, i)
    case Some(end) => Some(end + |close|)
    case None => Some(|low|)
  }

  function PairJump(low: string, open: string, close: string): (jump: Jump)
  {
    (i: nat) => PairNext(low, open, close, i)
  }

  lemma PairAdvances(low: string, open: string, close: string)
    requires close != ""
    ensures Advances(|low|, PairJump(low, open, close))
  {
  }

  /** `s` without the delimited spans that its copy `low` shows. */
  ghost function StripPair(s: string, low: string, open: string, close: string): (r: string)
    requires |low| == |s| && close != ""
  {
    PairScan(s, low, open, close, 0)
  }

  ghost function PairScan(s: string, low: string, open: string, close: string, i: nat): (r: string)
    requires |low| == |s| && close != ""
  {
    PairAdvances(low, open, close);
    Scan(s, PairJump(low, open, close), i)
  }

  lemma NoOpenerAhead(low: string, open: string, close: string, off: nat)
    requires off <= |low| && open != "" && Find(low[off..], open).None?
    ensures forall k: nat :: off <= k < |low| ==> PairNext(low, open, close, k).None?
  {
    FindInRest(low, open, off);
  }

  lemma OpenerAhead(low: string, open: string, close: string, off: nat, n: nat)
    requires off <= |low| && open != "" && Find(low[off..], open) == Some(n)
    ensures off + n < |low| && At(low, open, off + n)
    ensures forall k: nat :: off <= k < off + n ==> PairNext(low, open, close, k).None?
  {
    FindInRest(low, open, off);
  }

  lemma CloserAhead(low: string, open: string, close: string, i: nat)
    requires i < |low| && open != "" && At(low, open, i)
    ensures var end := Find(low[i..], close);
            && (end.None? ==> PairNext(low, open, close, i) == Some(|low|))
            && (end.Some? ==> i + end.value + |close| <= |low|
                              && PairNext(low, open, close, i) == Some(i + end.value + |close|))
  {
    FindInRest(low, close, i);
  }

  /** A round of the loop: the next opener is at `i`, and its span ends at `next`. */
  lemma PairRound(s: string, low: string, open: string, close: string, off: nat, i: nat, next: nat, result: string, total: string)
    requires |low| == |s| && open != "" && close != "" && off <= i < |s|
    requires forall k: nat :: off <= k < i ==> PairNext(low, open, close, k).None?
    requires PairNext(low, open, close, i) == Some(next)
    requires result + PairScan(s, low, open, close, off) == total
    ensures result + s[off..i] + PairScan(s, low, open, close, next) == total
  {
    var jump := PairJump(low, open, close);
    PairAdvances(low, open, close);
    forall k: nat | off <= k < i ensures jump(k).None? { assert jump(k) == PairNext(low, open, close, k); }
    assert jump(i) == Some(next);
    ScanRound(s, jump, off, i, result, total);
  }

  lemma PairFinish(s: string, low: string, open: string, close: string, off: nat, result: string, total: string)
    requires |low| == |s| && open != "" && close != "" && off <= |s| && Find(low[off..], open).None?
    requires result + PairScan(s, low, open, close, off) == total
    ensures result + s[off..] == total
  {
    var jump := PairJump(low, open, close);
    PairAdvances(low, open, close);
    NoOpenerAhead(low, open, close, off);
    forall k: nat | off <= k < |s| ensures jump(k).None? { assert jump(k) == PairNext(low, open, close, k); }
    ScanFinish(s, jump, off, result, total);
  }

  lemma PairScanEmpty(s: string, low: string, open: string, close: string)
    requires |low| == |s| && close != ""
    ensures PairScan(s, low, open, close, |s|) == ""
  {
    PairAdvances(low, open, close);
  }

  /**
   One round, as the loop's two cursors see it: what `start` and `end` were found in the rest
   of the copy means for what is still to be scanned, from position `next` on.
   */
  lemma PairLoopRound(s: string, low: string, open: string, close: string, off: nat, start: nat, end: Option<nat>,
                      skip: nat, next: nat, result: string, total: string)
    requires |low| == |s| && open != "" && close != "" && off <= |s|
    requires Find(low[off..], open) == Some(start) && start <= |low| - off && end == Find(low[off..][start..], close)
    requires end.Some? ==> skip == start + end.value + |close| && next == off + skip
    requires result + PairScan(s, low, open, close, off) == total
    ensures off + start < |s|
    ensures end.None? ==> result + s[off..][..start] == total
    ensures end.Some? ==> && start <= skip && next <= |s| && s[off..][skip..] == s[next..] && low[off..][skip..] == low[next..]
                          && result + s[off..][..start] + PairScan(s, low, open, close, next) == total
  {
    var i := off + start;
    OpenerAhead(low, open, close, off, start);
    assert low[off..][start..] == low[i..];
    CloserAhead(low, open, close, i);
    assert s[off..][..start] == s[off..i];
    if end.None? {
      PairRound(s, low, open, close, off, i, |low|, result, total);
      PairScanEmpty(s, low, open, close);
      assert result + s[off..i] + "" == result + s[off..i];
    } else {
      PairRound(s, low, open, close, off, i, next, result, total);
    }
  }

  lemma FindBound(s: string, p: string)
    ensures Find(s, p).Some? ==> Find(s, p).value + |p| <= |s|
  {
  }

  /** Two cursors, over the text and over its lowercase copy, move in step. */
  method StripTagPair(lower: Lowering, s: string, open: string, close: string) returns (result: string)
    requires open != "" && close != ""
    ensures result == StripPair(s, lower(s), open, close)
  {
    var low := lower(s);
    ghost var total := StripPair(s, low, open, close);
    result := "";
    var remaining, lowerRemaining := s, low;
    ghost var off: nat := 0;
    var start := Find(lowerRemaining, open);
    while start.Some?
      invariant off <= |s| && |low| == |s| && remaining == s[off..] && lowerRemaining == low[off..]
      invariant start == Find(lowerRemaining, open)
      invariant result + PairScan(s, low, open, close, off) == total
      decreases |s| - off
    {
      FindBound(lowerRemaining, open);
      var end := Find(lowerRemaining[start.value..], close);
      var skip := start.value + (if end.Some? then end.value else 0) + |close|;
      ghost var next := off + skip;
      PairLoopRound(s, low, open, close, off, start.value, end, skip, next, result, total);
      result := result + remaining[..start.value];
      if end.None? {
        return;
      }
      remaining := remaining[skip..];
      lowerRemaining := lowerRemaining[skip..];
      off := next;
      start := Find(lowerRemaining, open);
    }
    PairFinish(s, low, open, close, off, result, total);
    result := result + remaining;
  }

  const COMMENT_OPEN := "<!--"
  const COMMENT_CLOSE := "-->"

  /** The same with one cursor: comments need no lowercase copy. */
  method StripHtmlComments(s: string) returns (result: string)
    ensures result == StripPair(s, s, COMMENT_OPEN, COMMENT_CLOSE)
  {
    ghost var total := StripPair(s, s, COMMENT_OPEN, COMMENT_CLOSE);
    result := "";
    var remaining := s;
    ghost var off: nat := 0;
    var start := Find(remaining, COMMENT_OPEN);
    while start.Some?
      invariant off <= |s| && remaining == s[off..] && start == Find(remaining, COMMENT_OPEN)
      invariant result + PairScan(s, s, COMMENT_OPEN, COMMENT_CLOSE, off) == total
      decreases |s| - off
    {
      FindBound(remaining, COMMENT_OPEN);
      var end := Find(remaining[start.value..], COMMENT_CLOSE);
      var skip := start.value + (if end.Some? then end.value else 0) + 3;
      ghost var next := off + skip;
      PairLoopRound(s, s, COMMENT_OPEN, COMMENT_CLOSE, off, start.value, end, skip, next, result, total);
      result := result + remaining[..start.value];
      if end.None? {
        return;
      }
      remaining := remaining[skip..];
      off := next;
      start := Find(remaining, COMMENT_OPEN);
    }
    PairFinish(s, s, COMMENT_OPEN, COMMENT_CLOSE, off, result, total);
    result := result + remaining;
  }

  /** The first occurrence of `p` from position `from` on stands at `j`. */
  ghost predicate IsFirst(low: string, p: string, from: nat, j: nat)
  {
    from <= j && At(low, p, j) && forall k :: from <= k < j ==> !At(low, p, k)
  }

  /** `end` is where the first `close` from `from` on ends, or `otherwise` if there is none. */
  ghost predicate EndsPast(low: string, close: string, from: nat, otherwise: nat, end: nat)
  {
    if exists j :: from <= j && At(low, close, j) then
      exists j: nat :: IsFirst(low, close, from, j) && end == j + |close|
    else end == otherwise
  }

  lemma EndsPastIs(low: string, close: string, from: nat, otherwise: nat, j: nat)
    ensures IsFirst(low, close, from, j) ==> EndsPast(low, close, from, otherwise, j + |close|)
    ensures (forall k :: from <= k ==> !At(low, close, k)) ==> EndsPast(low, close, from, otherwise, otherwise)
  {
  }

  lemma EndsPastUnique(low: string, close: string, from: nat, otherwise: nat, a: nat, b: nat)
    requires EndsPast(low, close, from, otherwise, a) && EndsPast(low, close, from, otherwise, b)
    ensures a == b
  {
    if exists j :: from <= j && At(low, close, j) {
      var j: nat :| IsFirst(low, close, from, j) && a == j + |close|;
      var k: nat :| IsFirst(low, close, from, k) && b == k + |close|;
      assert j == k;
    }
  }

  /** A span runs from an opener to where the first closer from the opener's own start ends, or to the end. */
  lemma PairSpanIff(low: string, open: string, close: string, i: nat, end: nat)
    ensures PairJump(low, open, close)(i) == Some(end) <==>
              i < |low| && At(low, open, i) && EndsPast(low, close, i, |low|, end)
  {
    if i < |low| && At(low, open, i) {
      var next := PairNext(low, open, close, i).value;
      match FindFrom(low, close, i) {
        case Some(j) =>
          assert IsFirst(low, close, i, j);
        case None =>
      }
      assert EndsPast(low, close, i, |low|, next);
      if EndsPast(low, close, i, |low|, end) { EndsPastUnique(low, close, i, |low|, end, next); }
    }
  }

  /** From an opener to where the first closer from there ends, or to the end. */
  ghost function PairSpan(low: string, open: string, close: string): (found: Found)
  {
    (i: nat, end: nat) => i < |low| && At(low, open, i) && EndsPast(low, close, i, |low|, end)
  }

  /** What the two loops compute, over positions: there is one way to cut out all pairs, and it is what they do. */
  lemma StripPairCharacterised(s: string, low: string, open: string, close: string, r: string)
    requires |low| == |s| && open != "" && close != ""
    ensures r == StripPair(s, low, open, close) <==> WithoutFound(s, PairSpan(low, open, close), r)
  {
    var jump, found := PairJump(low, open, close), PairSpan(low, open, close);
    PairAdvances(low, open, close);
    forall i: nat, end: nat ensures found(i, end) <==> i < |s| && jump(i) == Some(end) {
      PairSpanIff(low, open, close, i, end);
    }
    ScanCutsOut(s, jump, found, r);
  }

  /** Nothing is deleted exactly when no opener occurs. */
  lemma StripPairIdentity(s: string, low: string, open: string, close: string)
    requires |low| == |s| && open != "" && close != ""
    ensures StripPair(s, low, open, close) == s <==> !Contains(low, open)
  {
    var jump := PairJump(low, open, close);
    PairAdvances(low, open, close);
    ScanIdentity(s, jump);
    forall i: nat | i < |s| ensures jump(i).Some? <==> At(low, open, i) {
      assert jump(i) == PairNext(low, open, close, i);
    }
  }

  /** A comment may close inside its own opener. */
  lemma ShortestComment(rest: string)
    ensures PairNext(COMMENT_OPEN + ">" + rest, COMMENT_OPEN, COMMENT_CLOSE, 0) == Some(5)
  {
    var s := COMMENT_OPEN + ">" + rest;
    assert At(s, COMMENT_OPEN, 0) && At(s, COMMENT_CLOSE, 2);
    assert COMMENT_CLOSE[0] == '-' != s[0] && COMMENT_CLOSE[0] != s[1];
    assert !At(s, COMMENT_CLOSE, 0) && !At(s, COMMENT_CLOSE, 1);
  }

  // --- elements hidden by an inline style --------------------------------

  /** The end of a tag name: the first white space or '>'. */
  function NameEnd(t: string): (r: nat)
    ensures r <= |t|
  {
    match NameEndFrom(t) case Some(n) => n case None => 0
  }

  function NameEndFrom(t: string): (r: Option<nat>)
    ensures r.Some? ==> r.value < |t|
  {
    if t == "" then None
    else if IsWhitespace(t[0]) || t[0] == '>' then Some(0)
    else match NameEndFrom(t[1..]) case Some(n) => Some(n + 1) case None => None
  }

  /** A tag starts at `i` whose text has an inline style with the pattern; its length. */
  function HidingTag(s: string, low: string, pattern: string, i: nat): (len: Option<nat>)
    requires |low| == |s| && i < |s|
    ensures len.Some? ==> 0 < len.value <= |s| - i
  {
    if low[i] != '<' then None else
    match FindFrom(s, ">", i)
    case None => None
    case Some(end) =>
      var tag := low[i..end + 1];
      if Contains(tag, "style=") && Contains(tag, pattern) then Some(end + 1 - i) else None
  }

  function ClosingTag(low: string, i: nat): (t: string)
    requires i < |low|
  {
    var rest := low[i + 1..];
    "</" + rest[..NameEnd(rest)] + ">"
  }

  /** Past the first `close` from `from` on, or `from` itself if there is none. */
  function PastClose(low: string, close: string, from: nat): (next: nat)
    requires from <= |low|
    ensures from <= next <= |low|
  {
    match FindFrom(low, close, from) case Some(pos) => pos + |close| case None => from
  }

  /** At a hiding tag, on past its closing tag, or past the tag itself if none follows. */
  function HidingNext(s: string, low: string, pattern: string, i: nat): (next: Option<nat>)
    requires |low| == |s|
    ensures i < |s| ==> (next.Some? <==> HidingTag(s, low, pattern, i).Some?)
    ensures next.Some? ==> i < next.value <= |s|
  {
    if i >= |s| then None else
    match HidingTag(s, low, pattern, i)
    case None => None
    case Some(len) => Some(PastClose(low, ClosingTag(low, i), i + len))
  }

  function HidingJump(s: string, low: string, pattern: string): (jump: Jump)
    requires |low| == |s|
  {
    (i: nat) => HidingNext(s, low, pattern, i)
  }

  lemma HidingAdvances(s: string, low: string, pattern: string)
    requires |low| == |s|
    ensures Advances(|s|, HidingJump(s, low, pattern))
  {
  }

  ghost function StripHiding(s: string, low: string, pattern: string): (r: string)
    requires |low| == |s|
  {
    HidingScan(s, low, pattern, 0)
  }

  ghost function HidingScan(s: string, low: string, pattern: string, i: nat): (r: string)
    requires |low| == |s|
  {
    HidingAdvances(s, low, pattern);
    Scan(s, HidingJump(s, low, pattern), i)
  }

  lemma HidingScanSkips(s: string, low: string, pattern: string, i: nat, next: nat, result: string, total: string)
    requires |low| == |s| && i < |s| && HidingNext(s, low, pattern, i) == Some(next)
    requires result + HidingScan(s, low, pattern, i) == total
    ensures result + HidingScan(s, low, pattern, next) == total
  {
    HidingAdvances(s, low, pattern);
    assert HidingJump(s, low, pattern)(i) == Some(next);
  }

  lemma HidingScanKeeps(s: string, low: string, pattern: string, i: nat, result: string, total: string)
    requires |low| == |s| && i < |s| && HidingNext(s, low, pattern, i).None?
    requires result + HidingScan(s, low, pattern, i) == total
    ensures result + [s[i]] + HidingScan(s, low, pattern, i + 1) == total
  {
    HidingAdvances(s, low, pattern);
    assert HidingJump(s, low, pattern)(i).None?;
    var rest := HidingScan(s, low, pattern, i + 1);
    assert HidingScan(s, low, pattern, i) == [s[i]] + rest;
    assert result + ([s[i]] + rest) == result + [s[i]] + rest;
  }

  /** Does a tag that hides something start at `i`? Its length, if so. */
  method FindHidingTag(s: string, low: string, pattern: string, i: nat) returns (len: Option<nat>)
    requires |low| == |s| && i < |s|
    ensures len == HidingTag(s, low, pattern, i)
  {
    len := None;
    if low[i] == '<' {
      var tagEnd := Find(s[i..], ">");
      FindInRest(s, ">", i);
      if tagEnd.Some? {
        var tag := low[i..i + tagEnd.value + 1];
        if Contains(tag, "style=") && Contains(tag, pattern) {
          len := Some(tagEnd.value + 1);
        }
      }
    }
  }

  method SkipPastClose(low: string, close: string, from: nat) returns (next: nat)
    requires from <= |low|
    ensures next == PastClose(low, close, from)
  {
    var pos := Find(low[from..], close);
    FindInRest(low, close, from);
    next := if pos.Some? then from + pos.value + |close| else from;
  }

  method FindNext(s: string, low: string, pattern: string, i: nat) returns (next: Option<nat>)
    requires |low| == |s| && i < |s|
    ensures next == HidingNext(s, low, pattern, i)
  {
    var len := FindHidingTag(s, low, pattern, i);
    if len.None? {
      return None;
    }
    var past := SkipPastClose(low, ClosingTag(low, i), i + len.value);
    return Some(past);
  }

  method StripElementsWithStyle(lower: Lowering, s: string, pattern: string) returns (result: string)
    ensures result == StripHiding(s, lower(s), pattern)
  {
    var low := lower(s);
    ghost var total := StripHiding(s, low, pattern);
    result := "";
    var i: nat := 0;
    while i < |s|
      invariant i <= |s| && |low| == |s|
      invariant result + HidingScan(s, low, pattern, i) == total
      decreases |s| - i
    {
      var next := FindNext(s, low, pattern, i);
      if next.Some? {
        HidingScanSkips(s, low, pattern, i, next.value, result, total);
        i := next.value;
      } else {
        HidingScanKeeps(s, low, pattern, i, result, total);
        result := result + [s[i]];
        i := i + 1;
      }
    }
  }

  // Where a hidden element starts and ends, over positions.

  /** From `i` a tag of length `len` runs up to the first '>', and its lowercase copy holds `style=` and the pattern. */
  ghost predicate IsHidingTag(s: string, low: string, pattern: string, i: nat, len: nat)
    requires |low| == |s|
  {
    && 0 < len && i + len <= |s|
    && low[i] == '<' && s[i + len - 1] == '>' && (forall k :: i <= k < i + len - 1 ==> s[k] != '>')
    && Contains(low[i..i + len], "style=") && Contains(low[i..i + len], pattern)
  }

  lemma FirstChar(s: string, c: char, i: nat)
    ensures match FindFrom(s, [c], i)
            case Some(e) => i <= e < |s| && s[e] == c && forall k :: i <= k < e ==> s[k] != c
            case None => forall k :: i <= k < |s| ==> s[k] != c
  {
    assert [c][0] == c;
    forall k: nat | k < |s| ensures At(s, [c], k) <==> s[k] == c { }
  }

  lemma HidingTagIff(s: string, low: string, pattern: string, i: nat, len: nat)
    requires |low| == |s| && i < |s|
    ensures HidingTag(s, low, pattern, i) == Some(len) <==> IsHidingTag(s, low, pattern, i, len)
  {
    FirstChar(s, '>', i);
    if IsHidingTag(s, low, pattern, i, len) {
      assert FindFrom(s, ">", i) == Some(i + len - 1);
    }
  }

  predicate EndsName(c: char) { IsWhitespace(c) || c == '>' }

  /**
   The name of the tag that opens at `i`: the run after the '<' up to the first character that
   ends a name, or no character at all if none does.
   */
  ghost predicate IsTagName(low: string, i: nat, name: string)
  {
    var after := i + 1 + |name|;
    && after <= |low| && low[i + 1..after] == name
    && (forall k :: i < k < after ==> !EndsName(low[k]))
    && (if exists k :: i < k < |low| && EndsName(low[k]) then after < |low| && EndsName(low[after]) else name == "")
  }

  lemma {:induction false} NameEndIs(t: string)
    ensures match NameEndFrom(t)
            case Some(n) => EndsName(t[n]) && forall k :: 0 <= k < n ==> !EndsName(t[k])
            case None => forall k :: 0 <= k < |t| ==> !EndsName(t[k])
  {
    if t == "" || EndsName(t[0]) {
    } else {
      var rest := t[1..];
      NameEndIs(rest);
      forall k | 0 < k < |t| ensures t[k] == rest[k - 1] { }
    }
  }

  lemma TagNameUnique(low: string, i: nat, a: string, b: string)
    requires IsTagName(low, i, a) && IsTagName(low, i, b)
    ensures a == b
  {
    if exists k :: i < k < |low| && EndsName(low[k]) {
      assert EndsName(low[i + 1 + |a|]) && EndsName(low[i + 1 + |b|]);
      assert |a| == |b|;
    }
  }

  lemma ClosingTagIs(low: string, i: nat) returns (name: string)
    requires i < |low|
    ensures IsTagName(low, i, name) && ClosingTag(low, i) == "</" + name + ">"
  {
    var rest := low[i + 1..];
    name := rest[..NameEnd(rest)];
    NameEndIs(rest);
    forall k | i < k < |low| ensures low[k] == rest[k - i - 1] { }
    assert low[i + 1..i + 1 + |name|] == name;
  }

  /** From the hiding tag at `i` everything up to `end` is hidden. */
  ghost predicate HidesUpTo(s: string, low: string, pattern: string, i: nat, end: nat)
    requires |low| == |s|
  {
    exists len: nat :: IsHidingTag(s, low, pattern, i, len) && ClosesAt(low, i, i + len, end)
  }

  /** `end` is past the first `</name>` from `from` on, or `from`, where the name is that of the tag at `i`. */
  ghost predicate ClosesAt(low: string, i: nat, from: nat, end: nat)
  {
    exists name :: IsTagName(low, i, name) && EndsPast(low, "</" + name + ">", from, from, end)
  }

  lemma PastCloseIs(low: string, close: string, from: nat)
    requires from <= |low|
    ensures EndsPast(low, close, from, from, PastClose(low, close, from))
  {
    match FindFrom(low, close, from)
    case Some(j) =>
      assert IsFirst(low, close, from, j);
    case None =>
  }

  lemma ClosesAtIff(low: string, i: nat, from: nat, end: nat)
    requires i < |low| && from <= |low|
    ensures ClosesAt(low, i, from, end) <==> end == PastClose(low, ClosingTag(low, i), from)
  {
    var name := ClosingTagIs(low, i);
    var close := ClosingTag(low, i);
    PastCloseIs(low, close, from);
    if ClosesAt(low, i, from, end) {
      var name' :| IsTagName(low, i, name') && EndsPast(low, "</" + name' + ">", from, from, end);
      TagNameUnique(low, i, name, name');
      EndsPastUnique(low, close, from, from, end, PastClose(low, close, from));
    }
  }

  lemma NextAfterTag(s: string, low: string, pattern: string, i: nat, len: nat, end: nat)
    requires |low| == |s| && i < |s| && HidingTag(s, low, pattern, i) == Some(len)
    ensures HidingJump(s, low, pattern)(i) == Some(end) <==> ClosesAt(low, i, i + len, end)
  {
    ClosesAtIff(low, i, i + len, end);
    assert HidingNext(s, low, pattern, i) == Some(PastClose(low, ClosingTag(low, i), i + len));
  }

  lemma HidingHasTag(s: string, low: string, pattern: string, i: nat, end: nat) returns (len: nat)
    requires |low| == |s| && HidesUpTo(s, low, pattern, i, end)
    ensures i < |s| && HidingTag(s, low, pattern, i) == Some(len) && ClosesAt(low, i, i + len, end)
  {
    len :| IsHidingTag(s, low, pattern, i, len) && ClosesAt(low, i, i + len, end);
    HidingTagIff(s, low, pattern, i, len);
  }

  lemma TagHides(s: string, low: string, pattern: string, i: nat, len: nat, end: nat)
    requires |low| == |s| && i < |s| && HidingTag(s, low, pattern, i) == Some(len) && ClosesAt(low, i, i + len, end)
    ensures HidesUpTo(s, low, pattern, i, end)
  {
    HidingTagIff(s, low, pattern, i, len);
  }

  /**
   A hidden element runs from its tag to the end of the first `</name>` behind that tag, where
   the name is the tag's own, or ends with the tag if no such text follows.
   */
  lemma HidingSpanIff(s: string, low: string, pattern: string, i: nat, end: nat)
    requires |low| == |s|
    ensures HidingJump(s, low, pattern)(i) == Some(end) <==> HidesUpTo(s, low, pattern, i, end)
  {
    if HidingJump(s, low, pattern)(i) == Some(end) {
      var len := HidingTag(s, low, pattern, i).value;
      NextAfterTag(s, low, pattern, i, len, end);
      TagHides(s, low, pattern, i, len, end);
    } else if HidesUpTo(s, low, pattern, i, end) {
      var len := HidingHasTag(s, low, pattern, i, end);
      NextAfterTag(s, low, pattern, i, len, end);
    }
  }

  lemma CloseOfName(low: string, i: nat, from: nat, name: string, j: nat)
    requires IsTagName(low, i, name)
    ensures IsFirst(low, "</" + name + ">", from, j) ==> ClosesAt(low, i, from, j + |name| + 3)
    ensures (forall k :: from <= k ==> !At(low, "</" + name + ">", k)) ==> ClosesAt(low, i, from, from)
  {
    EndsPastIs(low, "</" + name + ">", from, from, j);
  }

  /** The two cases apart. First, the closing tag of that name follows first at `j`. */
  lemma ClosedElementEnds(s: string, low: string, pattern: string, i: nat, len: nat, name: string, j: nat)
    requires |low| == |s| && IsHidingTag(s, low, pattern, i, len)
    requires IsTagName(low, i, name) && IsFirst(low, "</" + name + ">", i + len, j)
    ensures HidingJump(s, low, pattern)(i) == Some(j + |name| + 3)
  {
    CloseOfName(low, i, i + len, name, j);
    HidingSpanIff(s, low, pattern, i, j + |name| + 3);
  }

  /** Second, it follows nowhere. */
  lemma UnclosedElementEnds(s: string, low: string, pattern: string, i: nat, len: nat, name: string)
    requires |low| == |s| && IsHidingTag(s, low, pattern, i, len)
    requires IsTagName(low, i, name) && forall k :: i + len <= k ==> !At(low, "</" + name + ">", k)
    ensures HidingJump(s, low, pattern)(i) == Some(i + len)
  {
    CloseOfName(low, i, i + len, name, i + len);
    HidingSpanIff(s, low, pattern, i, i + len);
  }

  /** A hidden element. */
  ghost function HiddenSpan(s: string, low: string, pattern: string): (found: Found)
    requires |low| == |s|
  {
    (i: nat, end: nat) => HidesUpTo(s, low, pattern, i, end)
  }

  /** Hidden elements are deleted, from the first on and apart from one another, and nothing else is. */
  lemma StripHidingCharacterised(s: string, low: string, pattern: string, r: string)
    requires |low| == |s|
    ensures r == StripHiding(s, low, pattern) <==> WithoutFound(s, HiddenSpan(s, low, pattern), r)
  {
    var jump, found := HidingJump(s, low, pattern), HiddenSpan(s, low, pattern);
    HidingAdvances(s, low, pattern);
    forall i: nat, end: nat ensures found(i, end) <==> i < |s| && jump(i) == Some(end) {
      HidingSpanIff(s, low, pattern, i, end);
      assert found(i, end) <==> HidesUpTo(s, low, pattern, i, end);
      assert jump(i) == HidingNext(s, low, pattern, i);
    }
    ScanCutsOut(s, jump, found, r);
  }

  lemma StripHidingIdentity(s: string, low: string, pattern: string)
    requires |low| == |s|
    ensures StripHiding(s, low, pattern) == s <==> forall i: nat :: i < |s| ==> HidingTag(s, low, pattern, i).None?
  {
    var jump := HidingJump(s, low, pattern);
    HidingAdvances(s, low, pattern);
    ScanIdentity(s, jump);
    forall i: nat | i < |s| ensures jump(i).None? <==> HidingTag(s, low, pattern, i).None? {
      assert jump(i) == HidingNext(s, low, pattern, i);
    }
  }
}
