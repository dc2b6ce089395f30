/** What the single publish handler asks of a card's label. */
module Harden {
  import opened Wrappers
  import opened Text
  import opened Strip

  const MAX_LABEL_LEN := 64

  datatype HardenError = LabelTooLong(n: nat) | LabelContainsNewlines | LabelEmpty

  /** Unicode control characters. */
  predicate IsControl(c: char)
  {
    var n := c as int;
    n <= 0x1F || 0x7F <= n <= 0x9F
  }

  function WithoutControls(s: string): (r: string)
  {
    if s == "" then "" else (if IsControl(s[0]) then "" else [s[0]]) + WithoutControls(s[1..])
  }

  function TrimStart(s: string): (r: string)
  {
    if s != "" && IsWhitespace(s[0]) then TrimStart(s[1..]) else s
  }

  function TrimEnd(s: string): (r: string)
  {
    if s != "" && IsWhitespace(s[|s| - 1]) then TrimEnd(s[..|s| - 1]) else s
  }

  /** `str::trim`. */
  function Trim(s: string): (r: string) { TrimEnd(TrimStart(s)) }

  function HardenLabel(s: string): (r: Result<string, HardenError>)
  {
    if '\n' in s || '\r' in s then Err(LabelContainsNewlines) else
    var trimmed := Trim(WithoutControls(s));
    if trimmed == "" then Err(LabelEmpty)
    else if |trimmed| > MAX_LABEL_LEN then Err(LabelTooLong(|trimmed|))
    else Ok(trimmed)
  }

  predicate NoControls(s: string) { forall i :: 0 <= i < |s| ==> !IsControl(s[i]) }

  predicate Trimmed(s: string) { s != "" ==> !IsWhitespace(s[0]) && !IsWhitespace(s[|s| - 1]) }

  /** One to 64 characters, none of them a control, with no white space at either end. */
  predicate Hardened(s: string)
  {
    1 <= |s| <= MAX_LABEL_LEN && NoControls(s) && Trimmed(s)
  }

  lemma {:induction false} ControlsRemoved(s: string)
    ensures NoControls(WithoutControls(s)) && Deletes(s, WithoutControls(s))
  {
    if s == "" {
    } else {
      ControlsRemoved(s[1..]);
      var rest := WithoutControls(s[1..]);
      if IsControl(s[0]) {
        assert "" + rest == rest;
      } else {
        assert ([s[0]] + rest)[1..] == rest;
      }
    }
  }

  lemma {:induction false} NothingToRemove(s: string)
    requires NoControls(s)
    ensures WithoutControls(s) == s
  {
    if s == "" {
    } else {
      NothingToRemove(s[1..]);
      assert s == [s[0]] + s[1..];
    }
  }

  lemma {:induction false} StartTrimmed(s: string)
    requires NoControls(s)
    ensures var r := TrimStart(s);
            NoControls(r) && Deletes(s, r) && (r != "" ==> !IsWhitespace(r[0]))
  {
    if s != "" && IsWhitespace(s[0]) {
      StartTrimmed(s[1..]);
    } else {
      DeletesNothing(s);
    }
  }

  lemma {:induction false} EndTrimmed(s: string)
    requires NoControls(s) && (s != "" ==> !IsWhitespace(s[0]))
    ensures NoControls(TrimEnd(s)) && Deletes(s, TrimEnd(s)) && Trimmed(TrimEnd(s))
  {
    if s != "" && IsWhitespace(s[|s| - 1]) {
      var front := s[..|s| - 1];
      EndTrimmed(front);
      DeletesLast(s);
      DeletesTransitive(s, front, TrimEnd(front));
    } else {
      DeletesNothing(s);
    }
  }

  lemma {:induction false} DeletesLast(s: string)
    requires s != ""
    ensures Deletes(s, s[..|s| - 1])
  {
    if |s| <= 1 {
    } else {
      DeletesLast(s[1..]);
      assert s[..|s| - 1][1..] == s[1..][..|s[1..]| - 1];
    }
  }

  /** What comes out is hardened, and only characters were deleted. */
  lemma HardenYieldsHardened(s: string)
    requires HardenLabel(s).Ok?
    ensures Hardened(HardenLabel(s).value) && Deletes(s, HardenLabel(s).value)
  {
    var cleaned := WithoutControls(s);
    ControlsRemoved(s);
    StartTrimmed(cleaned);
    EndTrimmed(TrimStart(cleaned));
    DeletesTransitive(cleaned, TrimStart(cleaned), Trim(cleaned));
    DeletesTransitive(s, cleaned, Trim(cleaned));
  }

  /** Exactly the hardened labels pass unchanged. */
  lemma PassesUnchangedIff(s: string)
    ensures HardenLabel(s) == Ok(s) <==> Hardened(s)
  {
    if HardenLabel(s) == Ok(s) {
      HardenYieldsHardened(s);
    }
    if Hardened(s) {
      NothingToRemove(s);
      assert IsControl('\n') && IsControl('\r');
    }
  }

  // Exactly what hardening yields, and when it refuses.

  predicate AllWhitespace(s: string) { forall i :: 0 <= i < |s| ==> IsWhitespace(s[i]) }

  /** What is left without controls is every other character, in order. */
  lemma {:induction false} OthersKept(s: string) returns (positions: seq<nat>)
    ensures Embeds(s, WithoutControls(s), positions)
    ensures forall i: nat :: i < |s| ==> (i in positions <==> !IsControl(s[i]))
  {
    positions := [];
    if s == "" {
    } else {
      var rest := OthersKept(s[1..]);
      positions := Later(rest, !IsControl(s[0]));
      LaterEmbeds(s, WithoutControls(s[1..]), rest, !IsControl(s[0]));
      OthersLater(s, rest);
    }
  }

  lemma OthersLater(s: string, rest: seq<nat>)
    requires s != "" && Ascend(rest) && forall i: nat :: i < |s| - 1 ==> (i in rest <==> !IsControl(s[1..][i]))
    ensures forall i: nat :: i < |s| ==> (i in Later(rest, !IsControl(s[0])) <==> !IsControl(s[i]))
  {
    var positions := Later(rest, !IsControl(s[0]));
    LaterAscend(rest, !IsControl(s[0]));
    forall i: nat | i < |s| ensures i in positions <==> !IsControl(s[i]) {
      if i > 0 { assert i - 1 in rest <==> i in positions; }
    }
  }

  lemma {:induction false} TrimStartCuts(s: string) returns (front: string)
    ensures s == front + TrimStart(s) && AllWhitespace(front)
  {
    front := "";
    if s != "" && IsWhitespace(s[0]) {
      var rest := TrimStartCuts(s[1..]);
      front := [s[0]] + rest;
      assert s == [s[0]] + s[1..];
    }
  }

  lemma {:induction false} TrimEndCuts(s: string) returns (back: string)
    ensures s == TrimEnd(s) + back && AllWhitespace(back)
  {
    back := "";
    if s != "" && IsWhitespace(s[|s| - 1]) {
      var rest := TrimEndCuts(s[..|s| - 1]);
      back := rest + [s[|s| - 1]];
      assert s == s[..|s| - 1] + [s[|s| - 1]];
    }
  }

  /** `r` is `t` without the white space at its ends. */
  ghost predicate IsTrimOf(t: string, r: string)
  {
    Trimmed(r) && exists front, back :: t == front + r + back && AllWhitespace(front) && AllWhitespace(back)
  }

  lemma TrimIs(t: string)
    requires NoControls(t)
    ensures IsTrimOf(t, Trim(t))
  {
    var front := TrimStartCuts(t);
    var back := TrimEndCuts(TrimStart(t));
    StartTrimmed(t);
    EndTrimmed(TrimStart(t));
    assert t == front + Trim(t) + back;
  }

  /**
   What becomes of a label, where `cleaned` is the label without controls: refused for a line
   break anywhere in it, for nothing but white space left, or for more than 64 characters left
   within white space; otherwise what is left within white space.
   */
  lemma HardenedIs(s: string) returns (trimmed: string)
    ensures IsTrimOf(WithoutControls(s), trimmed)
    ensures HardenLabel(s) == if '\n' in s || '\r' in s then Err(LabelContainsNewlines)
                              else if trimmed == "" then Err(LabelEmpty)
                              else if |trimmed| > 64 then Err(LabelTooLong(|trimmed|))
                              else Ok(trimmed)
  {
    ControlsRemoved(s);
    TrimIs(WithoutControls(s));
    trimmed := Trim(WithoutControls(s));
  }

  /** Hardening twice is hardening once. */
  lemma HardenIdempotent(s: string)
    requires HardenLabel(s).Ok?
    ensures HardenLabel(HardenLabel(s).value) == HardenLabel(s)
  {
    HardenYieldsHardened(s);
    PassesUnchangedIff(HardenLabel(s).value);
  }
}
