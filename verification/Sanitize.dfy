/** Long meta tags, invisible characters, and the five deleting passes of the sanitiser in order. */
module Sanitize {
  import opened Wrappers
  import opened Text
  import opened Strip

  // --- meta tags ---------------------------------------------------------

  const META_OPEN := "<meta"

  predicate SuspiciousMeta(tag: string) { Contains(tag, "content=") && |tag| > 200 }

  datatype MetaTag = NoMeta | MetaTag(start: nat, end: nat)

  /** The first meta tag from `i` on that is closed. */
  function NextMeta(s: string, low: string, i: nat): (tag: MetaTag)
    requires |low| == |s|
    ensures tag.MetaTag? ==> i <= tag.start < tag.end <= |s|
  {
    match FindFrom(low, META_OPEN, i)
    case None => NoMeta
    case Some(a) =>
      match FindFrom(s, ">", a)
      case None => NoMeta
      case Some(e) => MetaTag(a, e + 1)
  }

  /** What is kept of the meta tag from `a` to `e`. */
  function MetaKept(s: string, low: string, a: nat, e: nat): (r: string)
    requires |low| == |s| && a <= e <= |s|
  {
    if SuspiciousMeta(low[a..e]) then "" else s[a..e]
  }

  /** The text from `i` on without meta tags that have long contents. */
  function MetaFrom(s: string, low: string, i: nat): (r: string)
    requires |low| == |s| && i <= |s|
    decreases |s| - i
  {
    match NextMeta(s, low, i)
    case NoMeta => s[i..]
    case MetaTag(a, e) => s[i..a] + MetaKept(s, low, a, e) + MetaFrom(s, low, e)
  }

  function StripMeta(s: string, low: string): (r: string)
    requires |low| == |s|
  {
    MetaFrom(s, low, 0)
  }

  /** Keeping a part and a subsequence of the rest. */
  lemma DeletesParts(s: string, i: nat, a: nat, e: nat, kept: bool, rest: string)
    requires i <= a <= e <= |s| && Deletes(s[e..], rest)
    ensures Deletes(s[i..], s[i..a] + (if kept then s[a..e] else "") + rest)
  {
    if kept {
      DeletesAfter(s[a..e], s[e..], rest);
      DeletesAfter(s[i..a], s[a..e] + s[e..], s[a..e] + rest);
      assert s[i..a] + (s[a..e] + rest) == s[i..a] + s[a..e] + rest;
    } else {
      DeletesPrefix(s[a..e], s[e..], rest);
      DeletesAfter(s[i..a], s[a..e] + s[e..], rest);
      assert s[i..a] + "" + rest == s[i..a] + rest;
    }
    assert s[i..] == s[i..a] + (s[a..e] + s[e..]);
  }

  lemma {:induction false} MetaDeletes(s: string, low: string, i: nat)
    requires |low| == |s| && i <= |s|
    ensures Deletes(s[i..], MetaFrom(s, low, i))
    decreases |s| - i
  {
    match NextMeta(s, low, i)
    case NoMeta =>
      DeletesNothing(s[i..]);
    case MetaTag(a, e) =>
      MetaDeletes(s, low, e);
      DeletesParts(s, i, a, e, !SuspiciousMeta(low[a..e]), MetaFrom(s, low, e));
  }

  // What the pass computes, stated without its recursion.

  /** The end of the meta tag that opens at `i`, if it is closed. */
  function MetaEnd(s: string, low: string, i: nat): (end: Option<nat>)
    requires |low| == |s|
  {
    if i >= |s| || !At(low, META_OPEN, i) then None else
    match FindFrom(s, ">", i)
    case None => None
    case Some(e) => Some(e + 1)
  }

  function MetaJump(s: string, low: string): (jump: Jump)
    requires |low| == |s|
  {
    (i: nat) => MetaEnd(s, low, i)
  }

  lemma MetaAdvances(s: string, low: string)
    requires |low| == |s|
    ensures Advances(|s|, MetaJump(s, low))
  {
  }

  /** The suspicious ones among some tags. */
  ghost function Suspects(low: string, tags: seq<Span>): (r: seq<Span>)
    requires forall x :: 0 <= x < |tags| ==> tags[x].0 <= tags[x].1 <= |low|
  {
    if tags == [] then []
    else (if SuspiciousMeta(low[tags[0].0..tags[0].1]) then [tags[0]] else []) + Suspects(low, tags[1..])
  }

  lemma {:induction false} NothingAhead(s: string, jump: Jump, i: nat, a: nat)
    requires Advances(|s|, jump) && i <= a <= |s| && forall k: nat :: i <= k < a ==> jump(k).None?
    ensures Spans(s, jump, i) == Spans(s, jump, a)
    decreases a - i
  {
    if i >= a {
    } else {
      NothingAhead(s, jump, i + 1, a);
    }
  }

  /** Keeping more of the text in front. */
  lemma WithoutFrom(s: string, spans: seq<Span>, i: nat, e: nat)
    requires i <= e <= |s| && Ordered(|s|, spans, e)
    ensures Ordered(|s|, spans, i) && Without(s, spans, i) == s[i..e] + Without(s, spans, e)
  {
    if spans == [] {
      assert s[i..] == s[i..e] + s[e..];
    } else {
      var rest := Without(s, spans[1..], spans[0].1);
      assert s[i..spans[0].0] + rest == s[i..e] + (s[e..spans[0].0] + rest);
    }
  }

  lemma WithoutTag(s: string, tags: seq<Span>, i: nat, a: nat, e: nat, drop: bool)
    requires i <= a <= e <= |s| && Ordered(|s|, tags, e)
    ensures var all := (if drop then [(a, e)] else []) + tags;
            && Ordered(|s|, all, i)
            && Without(s, all, i) == s[i..a] + (if drop then "" else s[a..e]) + Without(s, tags, e)
  {
    var rest := Without(s, tags, e);
    if drop {
      var all := [(a, e)] + tags;
      assert all[1..] == tags;
      assert s[i..a] + "" + rest == s[i..a] + rest;
    } else {
      WithoutFrom(s, tags, i, e);
      assert [] + tags == tags;
      assert s[i..e] == s[i..a] + s[a..e];
    }
  }

  lemma NextMetaIsFinding(s: string, low: string, i: nat)
    requires |low| == |s| && i <= |s|
    ensures match NextMeta(s, low, i)
            case NoMeta => forall k: nat :: i <= k < |s| ==> MetaEnd(s, low, k).None?
            case MetaTag(a, e) => MetaEnd(s, low, a) == Some(e) && forall k: nat :: i <= k < a ==> MetaEnd(s, low, k).None?
  {
  }

  ghost function MetaTags(s: string, low: string, i: nat): (tags: seq<Span>)
    requires |low| == |s| && i <= |s|
    ensures forall x :: 0 <= x < |tags| ==> tags[x].0 <= tags[x].1 <= |low|
  {
    MetaAdvances(s, low);
    ScanIsCutting(s, MetaJump(s, low), i);
    Spans(s, MetaJump(s, low), i)
  }

  lemma MetaTagsFrom(s: string, low: string, i: nat)
    requires |low| == |s| && i <= |s|
    ensures match NextMeta(s, low, i)
            case NoMeta => MetaTags(s, low, i) == []
            case MetaTag(a, e) => MetaTags(s, low, i) == [(a, e)] + MetaTags(s, low, e)
  {
    var jump := MetaJump(s, low);
    MetaAdvances(s, low);
    NextMetaIsFinding(s, low, i);
    match NextMeta(s, low, i)
    case NoMeta =>
      NothingAhead(s, jump, i, |s|);
    case MetaTag(a, e) =>
      NothingAhead(s, jump, i, a);
      assert jump(a) == Some(e);
  }

  lemma {:induction false} MetaFromIsWithout(s: string, low: string, i: nat)
    requires |low| == |s| && i <= |s|
    ensures Ordered(|s|, Suspects(low, MetaTags(s, low, i)), i)
    ensures MetaFrom(s, low, i) == Without(s, Suspects(low, MetaTags(s, low, i)), i)
    decreases |s| - i
  {
    MetaTagsFrom(s, low, i);
    match NextMeta(s, low, i)
    case NoMeta =>
    case MetaTag(a, e) =>
      MetaFromIsWithout(s, low, e);
      var tags := MetaTags(s, low, e);
      assert ([(a, e)] + tags)[1..] == tags;
      WithoutTag(s, Suspects(low, tags), i, a, e, SuspiciousMeta(low[a..e]));
  }

  /** From a meta tag's opener to the first '>' after it. */
  ghost function MetaSpan(s: string, low: string): (found: Found)
    requires |low| == |s|
  {
    (i: nat, end: nat) =>
      At(low, "<meta", i) && i < end <= |s| && s[end - 1] == '>' && forall k :: i <= k < end - 1 ==> s[k] != '>'
  }

  lemma MetaSpanIff(s: string, low: string, i: nat, end: nat)
    requires |low| == |s|
    ensures MetaSpan(s, low)(i, end) <==> i < |s| && MetaJump(s, low)(i) == Some(end)
  {
    FirstChar(s, '>', i);
    assert MetaJump(s, low)(i) == MetaEnd(s, low, i);
    if MetaSpan(s, low)(i, end) {
      assert FindFrom(s, ">", i) == Some(end - 1);
    }
  }

  /** The tags are the closed meta tags, each the first after the one before. */
  ghost predicate AreMetaTags(s: string, low: string, tags: seq<Span>)
    requires |low| == |s|
  {
    CutsOut(MetaSpan(s, low), tags)
  }

  lemma AreMetaTagsIff(s: string, low: string, tags: seq<Span>)
    requires |low| == |s|
    ensures AreMetaTags(s, low, tags) <==> IsCutting(s, MetaJump(s, low), 0, tags)
  {
    MetaAdvances(s, low);
    forall i: nat, end: nat ensures MetaSpan(s, low)(i, end) <==> i < |s| && MetaJump(s, low)(i) == Some(end) {
      MetaSpanIff(s, low, i, end);
    }
    CutsOutIff(s, MetaJump(s, low), MetaSpan(s, low), tags);
  }

  lemma MetaTagsUnique(s: string, low: string, tags: seq<Span>)
    requires |low| == |s|
    ensures AreMetaTags(s, low, tags) <==> tags == MetaTags(s, low, 0)
  {
    MetaAdvances(s, low);
    ScanIsCutting(s, MetaJump(s, low), 0);
    AreMetaTagsIff(s, low, tags);
    if AreMetaTags(s, low, tags) {
      CuttingUnique(s, MetaJump(s, low), 0, tags, Spans(s, MetaJump(s, low), 0));
    }
  }

  lemma {:induction false} SuspectsExact(low: string, tags: seq<Span>, span: Span)
    requires forall x :: 0 <= x < |tags| ==> tags[x].0 <= tags[x].1 <= |low|
    ensures span in Suspects(low, tags) <==> span in tags && SuspiciousMeta(low[span.0..span.1])
    decreases |tags|
  {
    if tags == [] {
    } else {
      SuspectsExact(low, tags[1..], span);
      assert tags == [tags[0]] + tags[1..];
    }
  }

  /** Those of the tags that have a content attribute and more than 200 characters. */
  ghost predicate AreSuspicious(low: string, tags: seq<Span>, drop: seq<Span>)
  {
    forall a: nat, e: nat ::
      (a, e) in drop <==> (a, e) in tags && a <= e <= |low| && Contains(low[a..e], "content=") && e - a > 200
  }

  /** `r` is the text without its suspicious meta tags. */
  ghost predicate WithoutSuspicious(s: string, low: string, r: string)
    requires |low| == |s|
  {
    exists tags, drop ::
      && AreMetaTags(s, low, tags) && AreSuspicious(low, tags, drop)
      && Ordered(|s|, drop, 0) && r == Without(s, drop, 0)
  }

  /**
   The meta pass: of the closed meta tags, which lie apart and are determined by the text, it
   cuts out exactly those with a content attribute and more than 200 characters.
   */
  lemma StripMetaCharacterised(s: string, low: string, tags: seq<Span>) returns (drop: seq<Span>)
    requires |low| == |s| && AreMetaTags(s, low, tags)
    ensures forall x :: 0 <= x < |tags| ==> tags[x].0 <= tags[x].1 <= |low|
    ensures AreSuspicious(low, tags, drop)
    ensures Ordered(|s|, drop, 0) && StripMeta(s, low) == Without(s, drop, 0)
  {
    MetaTagsUnique(s, low, tags);
    MetaFromIsWithout(s, low, 0);
    drop := Suspects(low, tags);
    forall a: nat, e: nat
      ensures (a, e) in drop <==> (a, e) in tags && a <= e <= |low| && Contains(low[a..e], "content=") && e - a > 200 {
      SuspectsExact(low, tags, (a, e));
    }
  }

  lemma StripMetaDrops(s: string, low: string)
    requires |low| == |s|
    ensures WithoutSuspicious(s, low, StripMeta(s, low))
  {
    var tags := MetaTags(s, low, 0);
    MetaTagsUnique(s, low, tags);
    var drop := StripMetaCharacterised(s, low, tags);
  }

  lemma {:induction false} WithoutShortens(s: string, spans: seq<Span>, i: nat)
    requires i <= |s| && Ordered(|s|, spans, i) && forall x :: 0 <= x < |spans| ==> spans[x].0 < spans[x].1
    ensures |Without(s, spans, i)| <= |s| - i
    ensures spans != [] ==> |Without(s, spans, i)| < |s| - i
    decreases |spans|
  {
    if spans == [] {
    } else {
      WithoutShortens(s, spans[1..], spans[0].1);
    }
  }

  lemma {:induction false} SuspectsAre(low: string, tags: seq<Span>)
    requires forall x :: 0 <= x < |tags| ==> tags[x].0 < tags[x].1 <= |low|
    ensures forall y :: 0 <= y < |Suspects(low, tags)| ==> Suspects(low, tags)[y].0 < Suspects(low, tags)[y].1
    ensures Suspects(low, tags) == [] <==> forall x :: 0 <= x < |tags| ==> !SuspiciousMeta(low[tags[x].0..tags[x].1])
    decreases |tags|
  {
    if tags == [] {
    } else {
      SuspectsAre(low, tags[1..]);
      assert tags == [tags[0]] + tags[1..];
    }
  }

  /** Nothing is deleted exactly when none of the meta tags is suspicious. */
  lemma StripMetaIdentity(s: string, low: string, tags: seq<Span>)
    requires |low| == |s| && AreMetaTags(s, low, tags)
    ensures forall x :: 0 <= x < |tags| ==> tags[x].0 < tags[x].1 <= |low|
    ensures StripMeta(s, low) == s <==> forall x :: 0 <= x < |tags| ==> !SuspiciousMeta(low[tags[x].0..tags[x].1])
  {
    MetaTagsUnique(s, low, tags);
    MetaFromIsWithout(s, low, 0);
    SuspectsAre(low, tags);
    WithoutShortens(s, Suspects(low, tags), 0);
    assert s[0..] == s;
  }

  /** What the two searches of a round say about the next meta tag. */
  lemma MetaSearch(s: string, low: string, off: nat, start: nat)
    requires |low| == |s| && off <= |s| && Find(low[off..], META_OPEN) == Some(start)
    ensures off + start <= |s|
    ensures var end := Find(s[off + start..], ">");
            && (end.None? ==> NextMeta(s, low, off) == NoMeta)
            && (end.Some? ==> NextMeta(s, low, off) == MetaTag(off + start, off + start + end.value + 1))
  {
    FindInRest(low, META_OPEN, off);
    FindInRest(s, ">", off + start);
  }

  lemma NoMetaAhead(s: string, low: string, off: nat)
    requires |low| == |s| && off <= |s| && Find(low[off..], META_OPEN).None?
    ensures MetaFrom(s, low, off) == s[off..]
  {
    FindInRest(low, META_OPEN, off);
  }

  lemma MetaRestTag(s: string, low: string, off: nat, a: nat, e: nat, result: string, total: string)
    requires |low| == |s| && off <= |s| && NextMeta(s, low, off) == MetaTag(a, e)
    requires result + MetaFrom(s, low, off) == total
    ensures result + s[off..a] + MetaKept(s, low, a, e) + MetaFrom(s, low, e) == total
  {
    var kept, rest := MetaKept(s, low, a, e), MetaFrom(s, low, e);
    assert result + (s[off..a] + kept + rest) == result + s[off..a] + kept + rest;
  }

  /** Parts of the rest of a text are parts of the text. */
  lemma RestParts(s: string, off: nat, x: nat, y: nat, a: nat, e: nat)
    requires a == off + x && e == off + y && e <= |s| && x <= y
    ensures s[off..][..x] == s[off..a] && s[off..][x..y] == s[a..e] && s[off..][y..] == s[e..] && s[off..][x..] == s[a..]
  {
  }

  lemma MetaUnclosed(s: string, low: string, off: nat, a: nat, result: string, total: string)
    requires |low| == |s| && off <= a <= |s| && NextMeta(s, low, off) == NoMeta
    requires result + MetaFrom(s, low, off) == total
    ensures result + s[off..a] + s[a..] == total
  {
    assert s[off..] == s[off..a] + s[a..];
    assert result + (s[off..a] + s[a..]) == result + s[off..a] + s[a..];
  }

  /** What the round appends, and what is left, when the meta tag is closed. */
  lemma MetaRound(s: string, low: string, off: nat, start: nat, tagEnd: nat, a: nat, e: nat, result: string, total: string)
    requires |low| == |s| && off <= |s| && a == off + start && e == off + tagEnd && NextMeta(s, low, off) == MetaTag(a, e)
    requires result + MetaFrom(s, low, off) == total
    ensures start <= tagEnd && e <= |s|
    ensures s[off..][tagEnd..] == s[e..] && low[off..][tagEnd..] == low[e..]
    ensures result + s[off..][..start] + RestKept(s[off..], low[off..], start, tagEnd) + MetaFrom(s, low, e) == total
  {
    MetaRestTag(s, low, off, a, e, result, total);
    RestParts(s, off, start, tagEnd, a, e);
    RestParts(low, off, start, tagEnd, a, e);
    assert RestKept(s[off..], low[off..], start, tagEnd) == MetaKept(s, low, a, e);
  }

  function RestKept(remaining: string, lowerRemaining: string, start: nat, tagEnd: nat): (kept: string)
    requires |lowerRemaining| == |remaining| && start <= tagEnd <= |remaining|
  {
    if SuspiciousMeta(lowerRemaining[start..tagEnd]) then "" else remaining[start..tagEnd]
  }

  /** Where a meta tag opens in the rest of the text, and where it closes after that. */
  method SearchMeta(remaining: string, lowerRemaining: string, ghost s: string, ghost low: string, ghost off: nat)
    returns (start: Option<nat>, end: Option<nat>, ghost a: nat, ghost e: nat)
    requires |low| == |s| && off <= |s| && remaining == s[off..] && lowerRemaining == low[off..]
    ensures start.None? ==> MetaFrom(s, low, off) == remaining
    ensures start.Some? ==> a == off + start.value <= |s|
    ensures start.Some? && end.None? ==> NextMeta(s, low, off) == NoMeta
    ensures start.Some? && end.Some? ==>
              e == off + (start.value + end.value + 1) && NextMeta(s, low, off) == MetaTag(a, e)
  {
    start, end, a, e := Find(lowerRemaining, META_OPEN), None, 0, 0;
    if start.None? {
      NoMetaAhead(s, low, off);
      return;
    }
    MetaSearch(s, low, off, start.value);
    a := off + start.value;
    RestParts(s, off, start.value, start.value, a, a);
    end := Find(remaining[start.value..], ">");
    if end.Some? {
      e := off + (start.value + end.value + 1);
    }
  }

  method StripSuspiciousMetaTags(lower: Lowering, s: string) returns (result: string)
    ensures result == StripMeta(s, lower(s))
  {
    var low := lower(s);
    ghost var total := StripMeta(s, low);
    result := "";
    var remaining, lowerRemaining := s, low;
    ghost var off: nat := 0;
    while true
      invariant off <= |s| && |low| == |s| && remaining == s[off..] && lowerRemaining == low[off..]
      invariant result + MetaFrom(s, low, off) == total
      decreases |s| - off
    {
      var start, end, a, e := SearchMeta(remaining, lowerRemaining, s, low, off);
      if start.None? {
        result := result + remaining;
        return;
      }
      if end.None? {
        MetaUnclosed(s, low, off, a, result, total);
        RestParts(s, off, start.value, start.value, a, a);
        result := result + remaining[..start.value];
        remaining := remaining[start.value..];
        result := result + remaining;
        return;
      }
      var tagEnd := start.value + end.value + 1;
      MetaRound(s, low, off, start.value, tagEnd, a, e, result, total);
      result := result + remaining[..start.value] + RestKept(remaining, lowerRemaining, start.value, tagEnd);
      remaining := remaining[tagEnd..];
      lowerRemaining := lowerRemaining[tagEnd..];
      off := e;
    }
  }

  // --- invisible characters ----------------------------------------------

  predicate Invisible(c: char)
  {
    var n := c as int;
    0x200B <= n <= 0x200F || 0x2060 <= n <= 0x2064 || n == 0xFEFF
  }

  /** The eleven characters by name. */
  lemma InvisibleListed(c: char)
    ensures Invisible(c) <==> c in {'\U{200B}', '\U{200C}', '\U{200D}', '\U{200E}', '\U{200F}', '\U{2060}',
                                    '\U{2061}', '\U{2062}', '\U{2063}', '\U{2064}', '\U{FEFF}'}
  {
  }

  function StripInvisible(s: string): (r: string)
    ensures forall i :: 0 <= i < |r| ==> !Invisible(r[i])
  {
    if s == "" then "" else (if Invisible(s[0]) then "" else [s[0]]) + StripInvisible(s[1..])
  }

  lemma {:induction false} InvisibleDeletes(s: string)
    ensures Deletes(s, StripInvisible(s))
  {
    if s == "" {
    } else {
      var rest := StripInvisible(s[1..]);
      InvisibleDeletes(s[1..]);
      if Invisible(s[0]) {
        assert "" + rest == rest;
      } else {
        assert ([s[0]] + rest)[1..] == rest;
      }
    }
  }

  /** Every visible character is kept, as often as it occurs. */
  lemma {:induction false} InvisibleExact(s: string, c: char)
    requires !Invisible(c)
    ensures multiset(StripInvisible(s))[c] == multiset(s)[c]
  {
    if s == "" {
    } else {
      var rest := StripInvisible(s[1..]);
      InvisibleExact(s[1..], c);
      assert s == [s[0]] + s[1..];
      if Invisible(s[0]) {
        assert "" + rest == rest;
      }
    }
  }

  lemma {:induction false} InvisibleIdentity(s: string)
    requires forall i :: 0 <= i < |s| ==> !Invisible(s[i])
    ensures StripInvisible(s) == s
  {
    if s == "" {
    } else {
      InvisibleIdentity(s[1..]);
    }
  }

  /** `r` is the text without its invisible characters. */
  ghost predicate VisibleOf(s: string, r: string)
  {
    Deletes(s, r) && forall c :: multiset(r)[c] == if Invisible(c) then 0 else multiset(s)[c]
  }

  lemma StripInvisibleIs(s: string)
    ensures VisibleOf(s, StripInvisible(s))
  {
    InvisibleDeletes(s);
    forall c ensures multiset(StripInvisible(s))[c] == if Invisible(c) then 0 else multiset(s)[c] {
      if !Invisible(c) { InvisibleExact(s, c); }
    }
  }

  // --- the passes in order -----------------------------------------------

  const HIDING_PATTERNS := ["display:none", "display: none", "visibility:hidden", "visibility: hidden",
                            "font-size:0", "font-size: 0", "opacity:0", "opacity: 0"]

  ghost function StripPatterns(lower: Lowering, s: string, patterns: seq<string>): (r: string)
    decreases |patterns|
  {
    if patterns == [] then s else StripPatterns(lower, StripHiding(s, lower(s), patterns[0]), patterns[1..])
  }

  ghost function StripStyleHidden(lower: Lowering, s: string): (r: string)
  {
    StripPatterns(lower, StripPair(s, lower(s), "<style", "</style>"), HIDING_PATTERNS)
  }

  /** The five passes that only delete. */
  ghost function StripAll(lower: Lowering, raw: string): (r: string)
  {
    var noComments := StripPair(raw, raw, COMMENT_OPEN, COMMENT_CLOSE);
    var noHidden := StripStyleHidden(lower, noComments);
    var noScript := StripPair(noHidden, lower(noHidden), "<script", "</script>");
    StripInvisible(StripMeta(noScript, lower(noScript)))
  }

  method StripStyleHiddenElements(lower: Lowering, s: string) returns (result: string)
    ensures result == StripStyleHidden(lower, s)
  {
    result := StripTagPair(lower, s, "<style", "</style>");
    var i := 0;
    while i < |HIDING_PATTERNS|
      invariant 0 <= i <= |HIDING_PATTERNS|
      invariant StripPatterns(lower, result, HIDING_PATTERNS[i..]) == StripStyleHidden(lower, s)
    {
      assert HIDING_PATTERNS[i..][1..] == HIDING_PATTERNS[i + 1..];
      result := StripElementsWithStyle(lower, result, HIDING_PATTERNS[i]);
      i := i + 1;
    }
  }

  // The deleting passes one after the other, over positions.

  datatype Deletions = Deletions(noComments: string, noHidden: seq<string>, noScript: string, noMeta: string)

  /** Texts each of which is the one before without what its pass finds there; the last is given. */
  ghost predicate AreDeletions(lower: Lowering, raw: string, d: Deletions, visible: string)
  {
    && WithoutFound(raw, PairSpan(raw, "<!--", "-->"), d.noComments)
    && |d.noHidden| == 9
    && WithoutFound(d.noComments, PairSpan(lower(d.noComments), "<style", "</style>"), d.noHidden[0])
    && EachHides(lower, d.noHidden, ["display:none", "display: none", "visibility:hidden", "visibility: hidden",
                                     "font-size:0", "font-size: 0", "opacity:0", "opacity: 0"])
    && WithoutFound(d.noHidden[8], PairSpan(lower(d.noHidden[8]), "<script", "</script>"), d.noScript)
    && WithoutSuspicious(d.noScript, lower(d.noScript), d.noMeta)
    && VisibleOf(d.noMeta, visible)
  }

  /** Each text is the one before without the elements that its pattern hides there. */
  ghost predicate EachHides(lower: Lowering, texts: seq<string>, patterns: seq<string>)
  {
    && |texts| == |patterns| + 1
    && forall x: nat :: x < |patterns| ==>
         WithoutFound(texts[x], HiddenSpan(texts[x], lower(texts[x]), patterns[x]), texts[x + 1])
  }

  lemma {:induction false} PatternsHide(lower: Lowering, s: string, patterns: seq<string>) returns (texts: seq<string>)
    ensures EachHides(lower, texts, patterns) && texts[0] == s && texts[|patterns|] == StripPatterns(lower, s, patterns)
    decreases |patterns|
  {
    texts := [s];
    if patterns == [] {
    } else {
      var next := StripHiding(s, lower(s), patterns[0]);
      var rest := PatternsHide(lower, next, patterns[1..]);
      StripHidingCharacterised(s, lower(s), patterns[0], next);
      texts := [s] + rest;
      forall x: nat | x < |patterns|
        ensures WithoutFound(texts[x], HiddenSpan(texts[x], lower(texts[x]), patterns[x]), texts[x + 1]) {
        if x > 0 { assert texts[x] == rest[x - 1] && patterns[x] == patterns[1..][x - 1]; }
      }
    }
  }

  lemma PairIs(s: string, low: string, open: string, close: string)
    requires |low| == |s| && open != "" && close != ""
    ensures WithoutFound(s, PairSpan(low, open, close), StripPair(s, low, open, close))
  {
    StripPairCharacterised(s, low, open, close, StripPair(s, low, open, close));
  }

  /** What the five deleting passes do, in their order. */
  lemma StrippedInSteps(lower: Lowering, raw: string) returns (d: Deletions)
    ensures AreDeletions(lower, raw, d, StripAll(lower, raw))
  {
    var noComments := StripPair(raw, raw, COMMENT_OPEN, COMMENT_CLOSE);
    PairIs(raw, raw, COMMENT_OPEN, COMMENT_CLOSE);
    var noStyle := StripPair(noComments, lower(noComments), "<style", "</style>");
    PairIs(noComments, lower(noComments), "<style", "</style>");
    var noHidden := PatternsHide(lower, noStyle, HIDING_PATTERNS);
    var hidden := noHidden[8];
    var noScript := StripPair(hidden, lower(hidden), "<script", "</script>");
    PairIs(hidden, lower(hidden), "<script", "</script>");
    var noMeta := StripMeta(noScript, lower(noScript));
    StripMetaDrops(noScript, lower(noScript));
    StripInvisibleIs(noMeta);
    d := Deletions(noComments, noHidden, noScript, noMeta);
  }

  lemma PairDeletes(s: string, low: string, open: string, close: string)
    requires |low| == |s| && close != ""
    ensures Deletes(s, StripPair(s, low, open, close))
  {
    PairAdvances(low, open, close);
    ScanDeletes(s, PairJump(low, open, close), 0);
    assert s[0..] == s;
  }

  lemma HidingDeletes(s: string, low: string, pattern: string)
    requires |low| == |s|
    ensures Deletes(s, StripHiding(s, low, pattern))
  {
    HidingAdvances(s, low, pattern);
    ScanDeletes(s, HidingJump(s, low, pattern), 0);
    assert s[0..] == s;
  }

  lemma {:induction false} PatternsDelete(lower: Lowering, s: string, patterns: seq<string>)
    ensures Deletes(s, StripPatterns(lower, s, patterns))
    decreases |patterns|
  {
    if patterns == [] {
      DeletesNothing(s);
    } else {
      var next := StripHiding(s, lower(s), patterns[0]);
      HidingDeletes(s, lower(s), patterns[0]);
      PatternsDelete(lower, next, patterns[1..]);
      DeletesTransitive(s, next, StripPatterns(lower, next, patterns[1..]));
    }
  }

  lemma StyleHiddenDeletes(lower: Lowering, s: string)
    ensures Deletes(s, StripStyleHidden(lower, s))
  {
    var mid := StripPair(s, lower(s), "<style", "</style>");
    PairDeletes(s, lower(s), "<style", "</style>");
    PatternsDelete(lower, mid, HIDING_PATTERNS);
    DeletesTransitive(s, mid, StripPatterns(lower, mid, HIDING_PATTERNS));
  }

  /** The first five stages together only delete characters: they invent and reorder none. */
  lemma StripAllDeletes(lower: Lowering, raw: string)
    ensures Deletes(raw, StripAll(lower, raw))
  {
    var a := StripPair(raw, raw, COMMENT_OPEN, COMMENT_CLOSE);
    PairDeletes(raw, raw, COMMENT_OPEN, COMMENT_CLOSE);
    var b := StripStyleHidden(lower, a);
    StyleHiddenDeletes(lower, a);
    DeletesTransitive(raw, a, b);
    var c := StripPair(b, lower(b), "<script", "</script>");
    PairDeletes(b, lower(b), "<script", "</script>");
    DeletesTransitive(raw, b, c);
    var d := StripMeta(c, lower(c));
    MetaDeletes(c, lower(c), 0);
    assert c[0..] == c;
    DeletesTransitive(raw, c, d);
    InvisibleDeletes(d);
    DeletesTransitive(raw, d, StripInvisible(d));
  }
}
