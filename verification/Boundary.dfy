/**
 The last passes of the sanitiser: escaping the tags that delimit untrusted data, collapsing
 white space and truncating. None of them lets a delimiter through or creates one.
 */
module Boundary {
  import opened Replacing
  import opened Text
  import opened Strip
  import opened Sanitize

  const OPEN_TAG := "<UNTRUSTED_DATA>"
  const CLOSE_TAG := "</UNTRUSTED_DATA>"
  const ESCAPED_OPEN := "&lt;UNTRUSTED_DATA&gt;"
  const ESCAPED_CLOSE := "&lt;/UNTRUSTED_DATA&gt;"
  const MARKER := "\n[CONTENT TRUNCATED]"
  const MAX_CHARS := 50_000

  // --- escaping ----------------------------------------------------------

  function Escape(s: string): (t: string)
  {
    Replace(Replace(s, CLOSE_TAG, ESCAPED_CLOSE), OPEN_TAG, ESCAPED_OPEN)
  }

  lemma EscapesInert()
    ensures Inert(ESCAPED_CLOSE, CLOSE_TAG) && Inert(ESCAPED_CLOSE, OPEN_TAG)
    ensures Inert(ESCAPED_OPEN, CLOSE_TAG) && Inert(ESCAPED_OPEN, OPEN_TAG)
  {
  }

  /** Neither tag occurs in an escaped text. */
  lemma EscapeRemovesTags(s: string)
    ensures !Contains(Escape(s), OPEN_TAG) && !Contains(Escape(s), CLOSE_TAG)
  {
    EscapesInert();
    var mid := Replace(s, CLOSE_TAG, ESCAPED_CLOSE);
    if Contains(Escape(s), OPEN_TAG) {
      var i :| 0 <= i <= |Escape(s)| - |OPEN_TAG| && At(Escape(s), OPEN_TAG, i);
      ReplaceReflects(mid, OPEN_TAG, ESCAPED_OPEN, OPEN_TAG, i);
    }
    if Contains(Escape(s), CLOSE_TAG) {
      var i :| 0 <= i <= |Escape(s)| - |CLOSE_TAG| && At(Escape(s), CLOSE_TAG, i);
      ReplaceReflects(mid, OPEN_TAG, ESCAPED_OPEN, CLOSE_TAG, i);
      var j :| 0 <= j <= |mid| - |CLOSE_TAG| && At(mid, CLOSE_TAG, j);
      ReplaceReflects(s, CLOSE_TAG, ESCAPED_CLOSE, CLOSE_TAG, j);
    }
  }

  lemma EscapeIdentity(s: string)
    requires !Contains(s, OPEN_TAG) && !Contains(s, CLOSE_TAG)
    ensures Escape(s) == s
  {
    ReplaceIdentity(s, CLOSE_TAG, ESCAPED_CLOSE);
    ReplaceIdentity(s, OPEN_TAG, ESCAPED_OPEN);
  }

  // --- collapsing white space --------------------------------------------

  function Collapse(s: string, prevWasSpace: bool): (t: string)
    decreases |s|
  {
    if s == "" then ""
    else if IsWhitespace(s[0]) then (if prevWasSpace then "" else " ") + Collapse(s[1..], true)
    else [s[0]] + Collapse(s[1..], false)
  }

  lemma CollapseRound(s: string, i: nat, prev: bool, result: string, total: string)
    requires i < |s| && result + Collapse(s[i..], prev) == total
    ensures var kept := if !IsWhitespace(s[i]) then [s[i]] else if prev then "" else " ";
            result + kept + Collapse(s[i + 1..], IsWhitespace(s[i])) == total
  {
    var kept := if !IsWhitespace(s[i]) then [s[i]] else if prev then "" else " ";
    var rest := Collapse(s[i + 1..], IsWhitespace(s[i]));
    assert s[i..][1..] == s[i + 1..] && s[i..][0] == s[i];
    assert result + (kept + rest) == result + kept + rest;
  }

  method CollapseWhitespace(s: string) returns (result: string)
    ensures result == Collapse(s, false)
  {
    result := "";
    var prevWasSpace := false;
    for i := 0 to |s|
      invariant result + Collapse(s[i..], prevWasSpace) == Collapse(s, false)
    {
      CollapseRound(s, i, prevWasSpace, result, Collapse(s, false));
      if IsWhitespace(s[i]) {
        if !prevWasSpace {
          result := result + " ";
          prevWasSpace := true;
        }
      } else {
        result := result + [s[i]];
        prevWasSpace := false;
      }
    }
    assert s[|s|..] == "";
    assert result + "" == result;
  }

  predicate NoWhitespace(q: string) { forall i :: 0 <= i < |q| ==> !IsWhitespace(q[i]) }

  lemma {:induction false} CollapsedFront(s: string, q: string)
    requires NoWhitespace(q) && q <= Collapse(s, false)
    ensures q <= s
    decreases |s|
  {
    if s == "" {
    } else {
      if IsWhitespace(s[0]) {
        PrefixStarts(" " + Collapse(s[1..], true), q);
      } else if q != "" {
        var rest := Collapse(s[1..], false);
        assert q[1..] <= rest by { assert ([s[0]] + rest)[1..] == rest; }
        CollapsedFront(s[1..], q[1..]);
        assert s == [s[0]] + s[1..] && q == [q[0]] + q[1..];
      }
    }
  }

  /** Collapsing creates no occurrence of anything without white space. */
  lemma {:induction false} CollapseReflects(s: string, prev: bool, q: string, i: int)
    requires q != "" && NoWhitespace(q) && At(Collapse(s, prev), q, i)
    ensures Contains(s, q)
    decreases |s|
  {
    if s == "" {
    } else {
      var rest := Collapse(s[1..], IsWhitespace(s[0]));
      if IsWhitespace(s[0]) && prev {
        assert "" + rest == rest;
        CollapseReflects(s[1..], true, q, i);
        ContainsRest(s, q, 1);
      } else if i == 0 {
        AtFront(Collapse(s, prev), q);
        CollapsedFront(s, q);
        AtFront(s, q);
      } else {
        var c := if IsWhitespace(s[0]) then " " else [s[0]];
        AtPart(c + rest, q, i, 1);
        assert (c + rest)[1..] == rest;
        CollapseReflects(s[1..], IsWhitespace(s[0]), q, i - 1);
        ContainsRest(s, q, 1);
      }
    }
  }

  /** Single spaces, no other white space, and none at the front if one came before. */
  predicate Collapsed(s: string, prev: bool)
  {
    && (forall i :: 0 <= i < |s| && IsWhitespace(s[i]) ==> s[i] == ' ')
    && (forall i {:trigger s[i]} :: 0 < i < |s| && IsWhitespace(s[i]) ==> !IsWhitespace(s[i - 1]))
    && (prev && s != "" ==> !IsWhitespace(s[0]))
  }

  lemma CollapsedStep(c: char, rest: string, prev: bool)
    requires IsWhitespace(c) ==> c == ' ' && !prev
    ensures Collapsed([c] + rest, prev) <==> Collapsed(rest, IsWhitespace(c))
  {
    var s := [c] + rest;
    var space := IsWhitespace(c);
    if Collapsed(s, prev) {
      forall i | 0 <= i < |rest| && IsWhitespace(rest[i]) ensures rest[i] == ' ' {
        assert rest[i] == s[i + 1];
      }
      forall i | 0 < i < |rest| && IsWhitespace(rest[i]) ensures !IsWhitespace(rest[i - 1]) {
        assert rest[i] == s[i + 1] && rest[i - 1] == s[i];
      }
      assert rest != "" ==> rest[0] == s[1] && s[0] == c;
      assert Collapsed(rest, space);
    }
    if Collapsed(rest, space) {
      forall i | 0 <= i < |s| && IsWhitespace(s[i]) ensures s[i] == ' ' {
        assert i > 0 ==> s[i] == rest[i - 1];
      }
      forall i | 0 < i < |s| && IsWhitespace(s[i]) ensures !IsWhitespace(s[i - 1]) {
        assert s[i] == rest[i - 1];
        assert i > 1 ==> s[i - 1] == rest[i - 2];
      }
      assert Collapsed(s, prev);
    }
  }

  lemma {:induction false} CollapseCollapses(s: string, prev: bool)
    ensures Collapsed(Collapse(s, prev), prev)
    decreases |s|
  {
    if s == "" {
    } else {
      var rest := Collapse(s[1..], IsWhitespace(s[0]));
      CollapseCollapses(s[1..], IsWhitespace(s[0]));
      if IsWhitespace(s[0]) && prev {
        assert "" + rest == rest;
      } else {
        CollapsedStep(if IsWhitespace(s[0]) then ' ' else s[0], rest, prev);
      }
    }
  }

  lemma {:induction false} CollapseIdentity(s: string, prev: bool)
    requires Collapsed(s, prev)
    ensures Collapse(s, prev) == s
    decreases |s|
  {
    if s == "" {
    } else {
      assert s == [s[0]] + s[1..];
      CollapsedStep(s[0], s[1..], prev);
      CollapseIdentity(s[1..], IsWhitespace(s[0]));
    }
  }

  /** The words of a text, the first of them continuing `word`. */
  function Words(s: string, word: string): (ws: seq<string>)
    decreases |s|
  {
    if s == "" then (if word == "" then [] else [word])
    else if IsWhitespace(s[0]) then (if word == "" then [] else [word]) + Words(s[1..], "")
    else Words(s[1..], word + [s[0]])
  }

  /** Collapsing keeps the sequence of words. */
  lemma {:induction false} CollapseKeepsWords(s: string, prev: bool, word: string)
    requires prev ==> word == ""
    ensures Words(Collapse(s, prev), word) == Words(s, word)
    decreases |s|
  {
    if s == "" {
    } else {
      var rest := Collapse(s[1..], IsWhitespace(s[0]));
      if IsWhitespace(s[0]) {
        CollapseKeepsWords(s[1..], true, "");
        if prev {
          assert "" + rest == rest;
          assert [] + Words(s[1..], "") == Words(s[1..], "");
        } else {
          assert (" " + rest)[1..] == rest && (" " + rest)[0] == ' ';
        }
      } else {
        CollapseKeepsWords(s[1..], false, word + [s[0]]);
        assert ([s[0]] + rest)[1..] == rest;
      }
    }
  }

  /** A text ends in white space after collapsing exactly if it did before. */
  lemma {:induction false} CollapseEnd(s: string, prev: bool)
    requires s != ""
    ensures EndsAlike(s[|s| - 1], prev, Collapse(s, prev))
    decreases |s|
  {
    var space := IsWhitespace(s[0]);
    var head := if !space then [s[0]] else if prev then "" else " ";
    var rest := Collapse(s[1..], space);
    if |s| == 1 {
      assert s[1..] == "" && rest == "" && head + rest == head;
    } else {
      CollapseEnd(s[1..], space);
      EndsAlikeAfter(s[|s| - 1], space, prev, head, rest);
    }
  }

  /** The text ends in white space exactly if `last` is some; it is empty only if `last` is white space behind other. */
  predicate EndsAlike(last: char, prev: bool, t: string)
  {
    if t == "" then prev && IsWhitespace(last) else IsWhitespace(t[|t| - 1]) <==> IsWhitespace(last)
  }

  lemma EndsAlikeAfter(last: char, space: bool, prev: bool, head: string, rest: string)
    requires EndsAlike(last, space, rest) && (space ==> head == if prev then "" else " ")
    ensures EndsAlike(last, prev, head + rest)
  {
    if rest == "" {
      assert head + rest == head;
    } else {
      assert (head + rest)[|head + rest| - 1] == rest[|rest| - 1];
    }
  }

  /** The same words, in single spaces, and white space at an end exactly where there was some. */
  ghost predicate CollapseOf(s: string, t: string)
  {
    && Collapsed(t, false) && Words(t, "") == Words(s, "")
    && (s == "" <==> t == "")
    && (s != "" ==> (IsWhitespace(t[0]) <==> IsWhitespace(s[0])) && (IsWhitespace(t[|t| - 1]) <==> IsWhitespace(s[|s| - 1])))
  }

  lemma CollapseIs(s: string)
    ensures CollapseOf(s, Collapse(s, false))
  {
    CollapseCollapses(s, false);
    CollapseKeepsWords(s, false, "");
    if s != "" { CollapseEnd(s, false); }
  }

  // --- truncating --------------------------------------------------------

  function Truncate(s: string, maxChars: nat): (t: string)
  {
    if |s| <= maxChars then s else s[..maxChars] + MARKER
  }

  /** Truncating keeps the text, or its first characters followed by the marker. */
  lemma TruncatedShape(s: string, maxChars: nat)
    ensures |Truncate(s, maxChars)| <= maxChars + 20
    ensures |s| <= maxChars ==> Truncate(s, maxChars) == s
    ensures |s| > maxChars ==>
              && |Truncate(s, maxChars)| == maxChars + 20
              && Truncate(s, maxChars)[..maxChars] == s[..maxChars]
              && Truncate(s, maxChars)[maxChars..] == MARKER
  {
    assert |MARKER| == 20;
  }

  lemma TruncateReflects(s: string, maxChars: nat, q: string)
    requires Inert(MARKER, q) && Contains(Truncate(s, maxChars), q)
    ensures Contains(s, q)
  {
    if |s| > maxChars {
      ContainsJoin(s[..maxChars], MARKER, q);
      OccurrenceStarts(MARKER, q);
      var i :| 0 <= i <= |s[..maxChars]| - |q| && At(s[..maxChars], q, i);
      AtPart(s, q, i, maxChars);
    }
  }

  // --- the sanitiser -----------------------------------------------------

  ghost function Collapsing(lower: Lowering, raw: string): (r: string)
  {
    Collapse(Escape(StripAll(lower, raw)), false)
  }

  ghost function SanitizeSpec(lower: Lowering, raw: string): (r: string)
  {
    Truncate(Collapsing(lower, raw), MAX_CHARS)
  }

  method SanitizeContent(lower: Lowering, rawHtml: string) returns (result: string)
    ensures result == SanitizeSpec(lower, rawHtml) && Sanitized(lower, rawHtml, result)
    ensures !Contains(result, OPEN_TAG) && !Contains(result, CLOSE_TAG)
    ensures |result| <= MAX_CHARS + 20
  {
    result := StripHtmlComments(rawHtml);
    result := StripStyleHiddenElements(lower, result);
    result := StripTagPair(lower, result, "<script", "</script>");
    result := StripSuspiciousMetaTags(lower, result);
    result := StripInvisible(result);
    result := Escape(result);
    result := CollapseWhitespace(result);
    result := Truncate(result, MAX_CHARS);
    SanitizedInSteps(lower, rawHtml);
    SanitizedIsTagFree(lower, rawHtml);
    SanitizedLength(lower, rawHtml);
  }

  /** What escaping and collapsing make of a text, and its truncation. */
  ghost predicate AreEdits(visible: string, closeEscaped: string, escaped: string, collapsed: string, result: string)
  {
    && Exchanged(visible, "</UNTRUSTED_DATA>", "&lt;/UNTRUSTED_DATA&gt;", closeEscaped)
    && Exchanged(closeEscaped, "<UNTRUSTED_DATA>", "&lt;UNTRUSTED_DATA&gt;", escaped)
    && CollapseOf(escaped, collapsed)
    && result == if |collapsed| <= 50_000 then collapsed else collapsed[..50_000] + "\n[CONTENT TRUNCATED]"
  }

  lemma EditedInSteps(visible: string) returns (closeEscaped: string, escaped: string, collapsed: string)
    ensures AreEdits(visible, closeEscaped, escaped, collapsed, Truncate(Collapse(Escape(visible), false), MAX_CHARS))
  {
    closeEscaped := Replace(visible, CLOSE_TAG, ESCAPED_CLOSE);
    escaped := Replace(closeEscaped, OPEN_TAG, ESCAPED_OPEN);
    collapsed := Collapse(escaped, false);
    ReplaceIs(visible, CLOSE_TAG, ESCAPED_CLOSE);
    ReplaceIs(closeEscaped, OPEN_TAG, ESCAPED_OPEN);
    CollapseIs(escaped);
  }

  /** The eight passes one after the other, each said over positions. */
  ghost predicate Sanitized(lower: Lowering, raw: string, result: string)
  {
    exists d, visible, closeEscaped, escaped, collapsed ::
      AreDeletions(lower, raw, d, visible) && AreEdits(visible, closeEscaped, escaped, collapsed, result)
  }

  lemma SanitizedInSteps(lower: Lowering, raw: string)
    ensures Sanitized(lower, raw, SanitizeSpec(lower, raw))
  {
    var visible := StripAll(lower, raw);
    var d := StrippedInSteps(lower, raw);
    var closeEscaped, escaped, collapsed := EditedInSteps(visible);
  }

  lemma TagsPlain()
    ensures NoWhitespace(OPEN_TAG) && NoWhitespace(CLOSE_TAG)
    ensures Inert(MARKER, OPEN_TAG) && Inert(MARKER, CLOSE_TAG)
  {
  }

  /**
   Whatever the raw text, the sanitised text contains neither delimiter: escaping removes
   both, and neither collapsing nor truncating can bring one about.
   */
  lemma SanitizedIsTagFree(lower: Lowering, raw: string)
    ensures !Contains(SanitizeSpec(lower, raw), OPEN_TAG) && !Contains(SanitizeSpec(lower, raw), CLOSE_TAG)
  {
    TagsPlain();
    EscapeRemovesTags(StripAll(lower, raw));
    SanitizedLacks(lower, raw, OPEN_TAG);
    SanitizedLacks(lower, raw, CLOSE_TAG);
  }

  lemma SanitizedLacks(lower: Lowering, raw: string, q: string)
    requires Inert(MARKER, q) && NoWhitespace(q) && !Contains(Escape(StripAll(lower, raw)), q)
    ensures !Contains(SanitizeSpec(lower, raw), q)
  {
    if Contains(SanitizeSpec(lower, raw), q) {
      var collapsed := Collapsing(lower, raw);
      TruncateReflects(collapsed, MAX_CHARS, q);
      var i :| 0 <= i <= |collapsed| - |q| && At(collapsed, q, i);
      CollapseReflects(Escape(StripAll(lower, raw)), false, q, i);
    }
  }

  /** The result is the collapsed text, or its first 50,000 characters and the marker. */
  lemma SanitizedLength(lower: Lowering, raw: string)
    ensures |SanitizeSpec(lower, raw)| <= MAX_CHARS + 20
    ensures |Collapsing(lower, raw)| <= MAX_CHARS ==> SanitizeSpec(lower, raw) == Collapsing(lower, raw)
    ensures |Collapsing(lower, raw)| > MAX_CHARS ==>
              && |SanitizeSpec(lower, raw)| == MAX_CHARS + 20
              && SanitizeSpec(lower, raw)[..MAX_CHARS] == Collapsing(lower, raw)[..MAX_CHARS]
              && SanitizeSpec(lower, raw)[MAX_CHARS..] == MARKER
  {
    TruncatedShape(Collapsing(lower, raw), MAX_CHARS);
  }

  // --- idempotence of the tail -------------------------------------------

  /** Stripping invisible characters, escaping and collapsing. */
  function Tail(s: string): (t: string) { Collapse(Escape(StripInvisible(s)), false) }

  predicate NoInvisible(s: string) { forall i :: 0 <= i < |s| ==> !Invisible(s[i]) }

  lemma {:induction false} ReplaceKeepsVisible(s: string, p: string, r: string)
    requires p != "" && NoInvisible(s) && NoInvisible(r)
    ensures NoInvisible(Replace(s, p, r))
    decreases |s|
  {
    if |s| < |p| {
    } else {
      if p <= s {
        ReplaceKeepsVisible(s[|p|..], p, r);
      } else {
        ReplaceKeepsVisible(s[1..], p, r);
      }
    }
  }

  lemma {:induction false} CollapseKeepsVisible(s: string, prev: bool)
    requires NoInvisible(s)
    ensures NoInvisible(Collapse(s, prev))
    decreases |s|
  {
    if s == "" {
    } else {
      CollapseKeepsVisible(s[1..], IsWhitespace(s[0]));
    }
  }

  /** The tail as a whole is idempotent: what it yields has nothing left for any of its passes. */
  lemma TailIdempotent(s: string)
    ensures Tail(Tail(s)) == Tail(s)
  {
    var visible := StripInvisible(s);
    var mid := Replace(visible, CLOSE_TAG, ESCAPED_CLOSE);
    var escaped := Escape(visible);
    var t := Tail(s);
    ReplaceKeepsVisible(visible, CLOSE_TAG, ESCAPED_CLOSE);
    ReplaceKeepsVisible(mid, OPEN_TAG, ESCAPED_OPEN);
    CollapseKeepsVisible(escaped, false);
    InvisibleIdentity(t);
    EscapeRemovesTags(visible);
    TailLacks(escaped, OPEN_TAG);
    TailLacks(escaped, CLOSE_TAG);
    EscapeIdentity(t);
    CollapseCollapses(escaped, false);
    CollapseIdentity(t, false);
  }

  lemma TailLacks(escaped: string, q: string)
    requires q in {OPEN_TAG, CLOSE_TAG} && !Contains(escaped, q)
    ensures !Contains(Collapse(escaped, false), q)
  {
    TagsPlain();
    var t := Collapse(escaped, false);
    if Contains(t, q) {
      var i :| 0 <= i <= |t| - |q| && At(t, q, i);
      CollapseReflects(escaped, false, q, i);
    }
  }

  // --- clean texts -------------------------------------------------------

  /** None of the five deleting passes finds anything to delete. */
  ghost predicate NothingToDelete(lower: Lowering, s: string)
  {
    var low := lower(s);
    && !Contains(s, COMMENT_OPEN)
    && !Contains(low, "<style")
    && NothingHidden(s, low, HIDING_PATTERNS)
    && !Contains(low, "<script")
    && NothingSuspicious(s, low)
    && NoInvisible(s)
  }

  ghost predicate NothingHidden(s: string, low: string, patterns: seq<string>)
    requires |low| == |s|
  {
    forall x: nat, i: nat :: x < |patterns| && i < |s| ==> HidingTag(s, low, patterns[x], i).None?
  }

  ghost predicate NothingSuspicious(s: string, low: string)
    requires |low| == |s|
  {
    var tags := MetaTags(s, low, 0);
    forall x :: 0 <= x < |tags| ==> !SuspiciousMeta(low[tags[x].0..tags[x].1])
  }

  /** Nothing for any pass: nothing to delete, no delimiter, and only single spaces. */
  ghost predicate Clean(lower: Lowering, s: string)
  {
    && NothingToDelete(lower, s)
    && !Contains(s, OPEN_TAG) && !Contains(s, CLOSE_TAG)
    && Collapsed(s, false)
  }

  lemma MetaUnchangedIff(s: string, low: string)
    requires |low| == |s|
    ensures StripMeta(s, low) == s <==> NothingSuspicious(s, low)
  {
    var tags := MetaTags(s, low, 0);
    MetaTagsUnique(s, low, tags);
    StripMetaIdentity(s, low, tags);
  }

  lemma VisibleUnchangedIff(s: string)
    ensures StripInvisible(s) == s <==> NoInvisible(s)
  {
    if NoInvisible(s) { InvisibleIdentity(s); }
  }

  /** A chain of deletions that ends where it began changed nothing on the way. */
  lemma UnchangedThroughout(a: string, b: string, c: string)
    requires Deletes(a, b) && Deletes(b, c)
    ensures |c| <= |b| <= |a|
    ensures c == a <==> b == a && c == b
  {
    DeletesShortens(a, b);
    DeletesShortens(b, c);
  }

  lemma {:induction false} PatternsUnchangedIff(lower: Lowering, s: string, patterns: seq<string>)
    ensures StripPatterns(lower, s, patterns) == s <==> NothingHidden(s, lower(s), patterns)
    decreases |patterns|
  {
    if patterns == [] {
    } else {
      var first, rest := patterns[0], patterns[1..];
      var next := StripHiding(s, lower(s), first);
      HidingDeletes(s, lower(s), first);
      PatternsDelete(lower, next, rest);
      UnchangedThroughout(s, next, StripPatterns(lower, next, rest));
      PatternsUnchangedIff(lower, s, rest);
      StripHidingIdentity(s, lower(s), first);
      HiddenSplit(s, lower(s), patterns);
    }
  }

  lemma HiddenSplit(s: string, low: string, patterns: seq<string>)
    requires |low| == |s| && patterns != []
    ensures NothingHidden(s, low, patterns) <==>
              (forall i: nat :: i < |s| ==> HidingTag(s, low, patterns[0], i).None?) && NothingHidden(s, low, patterns[1..])
  {
    var rest := patterns[1..];
    if NothingHidden(s, low, patterns) {
      forall x: nat, i: nat | x < |rest| && i < |s| ensures HidingTag(s, low, rest[x], i).None? {
        assert rest[x] == patterns[x + 1];
      }
    }
    if (forall i: nat :: i < |s| ==> HidingTag(s, low, patterns[0], i).None?) && NothingHidden(s, low, rest) {
      forall x: nat, i: nat | x < |patterns| && i < |s| ensures HidingTag(s, low, patterns[x], i).None? {
        if x > 0 { assert patterns[x] == rest[x - 1]; }
      }
    }
  }

  lemma StyleUnchangedIff(lower: Lowering, s: string, patterns: seq<string>)
    ensures Deletes(s, StripPatterns(lower, StripPair(s, lower(s), "<style", "</style>"), patterns))
    ensures StripPatterns(lower, StripPair(s, lower(s), "<style", "</style>"), patterns) == s
            <==> !Contains(lower(s), "<style") && NothingHidden(s, lower(s), patterns)
  {
    var next := StripPair(s, lower(s), "<style", "</style>");
    PairDeletes(s, lower(s), "<style", "</style>");
    PatternsDelete(lower, next, patterns);
    UnchangedThroughout(s, next, StripPatterns(lower, next, patterns));
    DeletesTransitive(s, next, StripPatterns(lower, next, patterns));
    StripPairIdentity(s, lower(s), "<style", "</style>");
    PatternsUnchangedIff(lower, s, patterns);
  }

  lemma LastDeletingUnchangedIff(lower: Lowering, s: string)
    ensures var c := StripPair(s, lower(s), "<script", "</script>");
            var d := StripMeta(c, lower(c));
            && Deletes(s, StripInvisible(d))
            && (StripInvisible(d) == s <==>
                  !Contains(lower(s), "<script") && NothingSuspicious(s, lower(s)) && NoInvisible(s))
  {
    var c := StripPair(s, lower(s), "<script", "</script>");
    var d := StripMeta(c, lower(c));
    PairDeletes(s, lower(s), "<script", "</script>");
    MetaDeletes(c, lower(c), 0);
    assert c[0..] == c;
    InvisibleDeletes(d);
    DeletesTransitive(s, c, d);
    DeletesTransitive(s, d, StripInvisible(d));
    UnchangedThroughout(s, d, StripInvisible(d));
    UnchangedThroughout(s, c, d);
    StripPairIdentity(s, lower(s), "<script", "</script>");
    MetaUnchangedIff(s, lower(s));
    VisibleUnchangedIff(s);
  }

  /** The deleting passes leave a text alone exactly when none of them finds anything. */
  lemma StrippedUnchangedIff(lower: Lowering, s: string)
    ensures StripAll(lower, s) == s <==> NothingToDelete(lower, s)
  {
    var a := StripPair(s, s, COMMENT_OPEN, COMMENT_CLOSE);
    PairDeletes(s, s, COMMENT_OPEN, COMMENT_CLOSE);
    StripPairIdentity(s, s, COMMENT_OPEN, COMMENT_CLOSE);
    var b := StripStyleHidden(lower, a);
    StyleUnchangedIff(lower, a, HIDING_PATTERNS);
    LastDeletingUnchangedIff(lower, b);
    DeletesTransitive(a, b, StripAll(lower, s));
    UnchangedThroughout(s, a, StripAll(lower, s));
    UnchangedThroughout(a, b, StripAll(lower, s));
  }

  // Escaping lengthens a text, but takes away an angle bracket, and no other pass adds any.

  lemma {:induction false} ReplaceLosesBrackets(s: string, p: string, r: string)
    requires p != "" && '<' in p && '<' !in r
    ensures multiset(Replace(s, p, r))['<'] <= multiset(s)['<']
    ensures multiset(Replace(s, p, r))['<'] == multiset(s)['<'] ==> !Contains(s, p)
    decreases |s|
  {
    if |s| < |p| {
    } else if p <= s {
      var rest := s[|p|..];
      ReplaceLosesBrackets(rest, p, r);
      assert s == p + rest;
    } else {
      ReplaceLosesBrackets(s[1..], p, r);
      assert s == [s[0]] + s[1..];
      ContainsStep(s, p);
    }
  }

  lemma EscapeLosesBrackets(s: string)
    ensures multiset(Escape(s))['<'] <= multiset(s)['<']
    ensures multiset(Escape(s))['<'] == multiset(s)['<'] ==> Escape(s) == s
  {
    var mid := Replace(s, CLOSE_TAG, ESCAPED_CLOSE);
    EscapesLackBrackets();
    ReplaceLosesBrackets(s, CLOSE_TAG, ESCAPED_CLOSE);
    ReplaceLosesBrackets(mid, OPEN_TAG, ESCAPED_OPEN);
    if multiset(Escape(s))['<'] == multiset(s)['<'] {
      ReplaceIdentity(s, CLOSE_TAG, ESCAPED_CLOSE);
      ReplaceIdentity(mid, OPEN_TAG, ESCAPED_OPEN);
    }
  }

  lemma EscapesLackBrackets()
    ensures OPEN_TAG[0] == '<' && CLOSE_TAG[0] == '<'
    ensures '<' !in ESCAPED_OPEN && '<' !in ESCAPED_CLOSE
  {
  }

  lemma {:induction false} CollapseKeepsBrackets(s: string, prev: bool)
    ensures multiset(Collapse(s, prev))['<'] == multiset(s)['<']
    ensures |Collapse(s, prev)| <= |s|
    decreases |s|
  {
    if s == "" {
    } else {
      CollapseKeepsBrackets(s[1..], IsWhitespace(s[0]));
      var rest := Collapse(s[1..], IsWhitespace(s[0]));
      assert s == [s[0]] + s[1..];
      if IsWhitespace(s[0]) && prev { assert "" + rest == rest; }
    }
  }

  lemma {:induction false} DeletesLosesBrackets(b: string, a: string)
    requires Deletes(b, a)
    ensures multiset(a)['<'] <= multiset(b)['<']
    decreases |b|
  {
    if a == "" {
    } else {
      assert b == [b[0]] + b[1..] && a == [a[0]] + a[1..];
      if a[0] == b[0] && Deletes(b[1..], a[1..]) {
        DeletesLosesBrackets(b[1..], a[1..]);
      } else {
        DeletesLosesBrackets(b[1..], a);
      }
    }
  }

  /** Nothing that one pass does is undone by another. */
  lemma NothingCancelsOut(raw: string, stripped: string)
    requires Deletes(raw, stripped)
    ensures Collapse(Escape(stripped), false) == raw <==>
              && stripped == raw && Collapsed(raw, false)
              && !Contains(raw, OPEN_TAG) && !Contains(raw, CLOSE_TAG)
  {
    var escaped := Escape(stripped);
    var t := Collapse(escaped, false);
    if t == raw {
      DeletesLosesBrackets(raw, stripped);
      EscapeLosesBrackets(stripped);
      CollapseKeepsBrackets(escaped, false);
      DeletesShortens(raw, stripped);
      EscapeRemovesTags(stripped);
      CollapseCollapses(escaped, false);
    }
    if stripped == raw && !Contains(raw, OPEN_TAG) && !Contains(raw, CLOSE_TAG) && Collapsed(raw, false) {
      EscapeIdentity(raw);
      CollapseIdentity(raw, false);
    }
  }

  /** A text of at most 50,000 characters passes through the whole sanitiser unchanged exactly when it is clean. */
  lemma UnchangedIffClean(lower: Lowering, raw: string)
    requires |raw| <= MAX_CHARS
    ensures SanitizeSpec(lower, raw) == raw <==> Clean(lower, raw)
  {
    StripAllDeletes(lower, raw);
    StrippedUnchangedIff(lower, raw);
    NothingCancelsOut(raw, StripAll(lower, raw));
    SanitizedLength(lower, raw);
  }

  /** A longer text is unchanged only if it is as long as a truncated one and ends in the marker itself. */
  lemma LongUnchangedIsMarked(lower: Lowering, raw: string)
    requires |raw| > MAX_CHARS && SanitizeSpec(lower, raw) == raw
    ensures |raw| == MAX_CHARS + 20 && raw[MAX_CHARS..] == MARKER
  {
    SanitizedLength(lower, raw);
  }
}
