/** Replacing every occurrence of a pattern in a text, and which occurrences of others it can create. */
module Replacing {
  import opened Text

  /** `str::replace`: occurrences are taken from the left and do not overlap. */
  function Replace(s: string, p: string, r: string): (t: string)
    requires p != ""
    decreases |s|
  {
    if |s| < |p| then s
    else if p <= s then r + Replace(s[|p|..], p, r)
    else [s[0]] + Replace(s[1..], p, r)
  }

  /** `r` cannot take part in an occurrence of `q`: it has not `q`'s first character, nor `q` its own. */
  predicate Inert(r: string, q: string)
  {
    r != "" && q != "" && r[0] !in q && q[0] !in r
  }

  lemma PrefixStarts(s: string, q: string)
    requires q <= s
    ensures q == "" || (s != "" && q[0] == s[0])
  {
  }

  /** What stands at the front after replacing, and has not the replacement's first character, stood there before. */
  lemma {:induction false} ReplacedFront(s: string, p: string, r: string, q: string)
    requires p != "" && r != "" && r[0] !in q && q <= Replace(s, p, r)
    ensures q <= s
    decreases |s|
  {
    if |s| < |p| {
    } else {
      if p <= s {
        var rest := Replace(s[|p|..], p, r);
        PrefixStarts(r + rest, q);
        assert (r + rest)[0] == r[0];
      } else if q != "" {
        var rest := Replace(s[1..], p, r);
        assert q[1..] <= rest by { assert ([s[0]] + rest)[1..] == rest; }
        ReplacedFront(s[1..], p, r, q[1..]);
        assert s == [s[0]] + s[1..] && q == [q[0]] + q[1..];
      }
    }
  }

  lemma AtFront(s: string, q: string)
    ensures At(s, q, 0) <==> q <= s
  {
  }

  lemma BeyondInert(r: string, rest: string, q: string, i: int)
    requires Inert(r, q) && At(r + rest, q, i)
    ensures i >= |r|
  {
    assert q[0] == (r + rest)[i];
  }

  /** An occurrence after replacing is one of the text before, and not one of the pattern. */
  lemma {:induction false} ReplaceReflects(s: string, p: string, r: string, q: string, i: int)
    requires p != "" && Inert(r, q) && At(Replace(s, p, r), q, i)
    ensures Contains(s, q) && q != p
    decreases |s|
  {
    if |s| < |p| {
      assert At(s, q, i);
    } else if p <= s {
      var rest := Replace(s[|p|..], p, r);
      BeyondInert(r, rest, q, i);
      AtPart(r + rest, q, i, |r|);
      assert (r + rest)[|r|..] == rest;
      ReplaceReflects(s[|p|..], p, r, q, i - |r|);
      ContainsRest(s, q, |p|);
    } else {
      var rest := Replace(s[1..], p, r);
      if i == 0 {
        AtFront([s[0]] + rest, q);
        ReplacedFront(s, p, r, q);
        AtFront(s, q);
      } else {
        AtPart([s[0]] + rest, q, i, 1);
        assert ([s[0]] + rest)[1..] == rest;
        ReplaceReflects(s[1..], p, r, q, i - 1);
        ContainsRest(s, q, 1);
      }
    }
  }

  lemma ContainsRest(s: string, q: string, n: nat)
    requires n <= |s| && Contains(s[n..], q)
    ensures Contains(s, q)
  {
    var j :| 0 <= j <= |s[n..]| - |q| && At(s[n..], q, j);
    AtPart(s, q, j + n, n);
  }

  lemma {:induction false} ReplaceIdentity(s: string, p: string, r: string)
    requires p != "" && !Contains(s, p)
    ensures Replace(s, p, r) == s
    decreases |s|
  {
    if |s| < |p| {
    } else {
      AtFront(s, p);
      if Contains(s[1..], p) { ContainsRest(s, p, 1); }
      ReplaceIdentity(s[1..], p, r);
    }
  }

  // Replacing is splitting at the pattern and joining with the replacement.

  /** The pieces of a text between the occurrences of `p`, the first of them continuing `piece`. */
  function Split(s: string, p: string, piece: string): (pieces: seq<string>)
    requires p != ""
    ensures pieces != []
    decreases |s|
  {
    if |s| < |p| then [piece + s]
    else if p <= s then [piece] + Split(s[|p|..], p, "")
    else Split(s[1..], p, piece + [s[0]])
  }

  function Join(pieces: seq<string>, r: string): (t: string)
    requires pieces != []
    decreases |pieces|
  {
    if |pieces| == 1 then pieces[0] else pieces[0] + r + Join(pieces[1..], r)
  }

  lemma {:induction false} JoinedReplaced(s: string, p: string, r: string, piece: string)
    requires p != ""
    ensures Join(Split(s, p, piece), r) == piece + Replace(s, p, r)
    decreases |s|
  {
    if |s| < |p| {
    } else {
      if p <= s {
        var rest := Split(s[|p|..], p, "");
        JoinedReplaced(s[|p|..], p, r, "");
        assert ([piece] + rest)[1..] == rest;
        assert "" + Replace(s[|p|..], p, r) == Replace(s[|p|..], p, r);
        assert piece + r + Join(rest, r) == piece + (r + Join(rest, r));
      } else {
        JoinedReplaced(s[1..], p, r, piece + [s[0]]);
        assert piece + [s[0]] + Replace(s[1..], p, r) == piece + ([s[0]] + Replace(s[1..], p, r));
      }
    }
  }

  lemma {:induction false} ReplacedByItself(s: string, p: string)
    requires p != ""
    ensures Replace(s, p, p) == s
    decreases |s|
  {
    if |s| < |p| {
    } else {
      if p <= s {
        ReplacedByItself(s[|p|..], p);
        assert s == p + s[|p|..];
      } else {
        ReplacedByItself(s[1..], p);
        assert s == [s[0]] + s[1..];
      }
    }
  }

  lemma {:induction false} PiecesLack(s: string, p: string, piece: string)
    requires p != "" && forall i :: 0 <= i < |piece| ==> !At(piece + s, p, i)
    ensures forall x :: 0 <= x < |Split(s, p, piece)| ==> !Contains(Split(s, p, piece)[x], p)
    decreases |s|
  {
    if |s| < |p| {
      PieceLacks(piece, s, p, piece + s);
    } else if p <= s {
      PieceLacks(piece, s, p, piece);
      PiecesLack(s[|p|..], p, "");
    } else {
      var longer := piece + [s[0]];
      assert longer + s[1..] == piece + s;
      forall i | 0 <= i < |longer| ensures !At(piece + s, p, i) {
        if i == |piece| {
          AtPart(piece + s, p, i, |piece|);
          assert (piece + s)[|piece|..] == s;
          AtFront(s, p);
        }
      }
      PiecesLack(s[1..], p, longer);
    }
  }

  lemma PieceLacks(piece: string, s: string, p: string, done: string)
    requires p != "" && forall i :: 0 <= i < |piece| ==> !At(piece + s, p, i)
    requires done == piece || (done == piece + s && |s| < |p|)
    ensures !Contains(done, p)
  {
    assert (piece + s)[..|piece|] == piece;
    forall i | 0 <= i <= |done| - |p| ensures !At(done, p, i) {
      AtPart(piece + s, p, i, |piece|);
    }
  }

  /** Replacing exchanges each occurrence, taken from the left, and nothing else. */
  lemma ReplaceExchanges(s: string, p: string, r: string)
    requires p != ""
    ensures var pieces := Split(s, p, "");
            && s == Join(pieces, p) && Replace(s, p, r) == Join(pieces, r)
            && forall x :: 0 <= x < |pieces| ==> !Contains(pieces[x], p)
  {
    JoinedReplaced(s, p, r, "");
    JoinedReplaced(s, p, p, "");
    ReplacedByItself(s, p);
    PiecesLack(s, p, "");
    assert "" + s == s && "" + Replace(s, p, r) == Replace(s, p, r);
  }

  /** `t` is `s` with each occurrence of `p` exchanged for `r`. */
  ghost predicate Exchanged(s: string, p: string, r: string, t: string)
  {
    exists pieces ::
      && pieces != [] && (forall x :: 0 <= x < |pieces| ==> !Contains(pieces[x], p))
      && s == Join(pieces, p) && t == Join(pieces, r)
  }

  lemma ReplaceIs(s: string, p: string, r: string)
    requires p != ""
    ensures Exchanged(s, p, r, Replace(s, p, r))
  {
    ReplaceExchanges(s, p, r);
  }

  lemma OccurrenceStarts(s: string, q: string)
    requires q != ""
    ensures Contains(s, q) ==> q[0] in s
  {
    if Contains(s, q) {
      var i :| 0 <= i <= |s| - |q| && At(s, q, i);
      assert q[0] == s[i];
    }
  }
}
