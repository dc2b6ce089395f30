/** The verification agent's prompt, in which the sanitised text stands between two delimiters. */
module Prompt {
  import opened Wrappers
  import opened Replacing
  import opened Text
  import opened Strip
  import opened Boundary
  import opened Harden

  const INTRO_TASK := "Assess this service card "
  const INTRO_AGAINST := "against the site content."
  const INTRO_CLAIMS := "\n\nCard claims:"
  const ENDPOINT := "\n- Endpoint: "
  const INTRO := INTRO_TASK + INTRO_AGAINST + INTRO_CLAIMS + ENDPOINT
  const DOMAIN := "\n- Domain: "
  const LABEL := "\n- Label: "
  const OUTRO_RETURN := "\n\nReturn ONLY a JSON object"
  const OUTRO_FIELDS := " with the assessment fields."
  const OUTRO := OUTRO_RETURN + OUTRO_FIELDS
  const NO_LABEL := "(none)"
  const GAP := "\n\n"
  const NEWLINE := "\n"

  function LabelText(cardLabel: Option<string>): (r: string) { if cardLabel.Some? then cardLabel.value else NO_LABEL }

  /** Everything up to the line before the opening delimiter. */
  function Claims(endpoint: string, domain: string, labelText: string): (r: string)
  {
    INTRO + endpoint + DOMAIN + domain + LABEL + labelText
  }

  /** The user part of the prompt. */
  function BuildUser(endpoint: string, domain: string, cardLabel: Option<string>, content: string): (r: string)
  {
    Claims(endpoint, domain, LabelText(cardLabel)) + GAP + OPEN_TAG + NEWLINE + content + NEWLINE + CLOSE_TAG + OUTRO
  }

  // --- reading the claims back -------------------------------------------

  /** What stands behind the first occurrence of a name up to the end of that line. */
  function LineOf(user: string, name: string): (r: Option<string>)
  {
    match Find(user, name)
    case None => None
    case Some(i) => Some(FirstLine(user[i + |name|..]))
  }

  function FirstLine(s: string): (r: string)
  {
    match Find(s, "\n") case Some(j) => s[..j] case None => s
  }

  /** No newline of the text begins a line whose name starts with `c`. */
  ghost predicate NamesNo(t: string, c: char)
  {
    forall i :: 0 <= i < |t| && t[i] == '\n' ==> i + 3 < |t| && (t[i + 1] == '-' ==> t[i + 3] != c)
  }

  lemma NamesNoJoin(a: string, b: string, c: char)
    requires NamesNo(a, c) && NamesNo(b, c)
    ensures NamesNo(a + b, c)
  {
    var t := a + b;
    forall i | 0 <= i < |t| && t[i] == '\n' ensures i + 3 < |t| && (t[i + 1] == '-' ==> t[i + 3] != c) {
      if i < |a| {
        assert a[i] == '\n';
      } else {
        assert b[i - |a|] == '\n';
        assert t[i + 1] == b[i - |a| + 1] && t[i + 3] == b[i - |a| + 3];
      }
    }
  }

  /** A name: a newline, a dash and a blank, and then the letter. */
  predicate IsName(name: string, c: char)
  {
    |name| > 3 && name[0] == '\n' && name[1] == '-' && name[3] == c
  }

  lemma NotNamedAt(pre: string, rest: string, name: string, c: char, i: nat)
    requires NamesNo(pre, c) && IsName(name, c) && i < |pre|
    ensures !At(pre + rest, name, i)
  {
    var s := pre + rest;
    assert s[i] == pre[i];
    if pre[i] == '\n' {
      assert s[i + 1] == pre[i + 1] && s[i + 3] == pre[i + 3];
    }
    assert name[0] == s[i + 0] && name[1] == s[i + 1] && name[3] == s[i + 3] ==> false;
  }

  lemma NameFound(pre: string, name: string, rest: string, c: char)
    requires NamesNo(pre, c) && IsName(name, c)
    ensures Find(pre + name + rest, name) == Some(|pre|)
  {
    var s := pre + name + rest;
    assert At(s, name, |pre|);
    forall i | 0 <= i < |pre| ensures !At(s, name, i) {
      NotNamedAt(pre, name + rest, name, c, i);
    }
    assert s == pre + (name + rest);
  }

  lemma FirstLineIs(field: string, post: string)
    requires post != "" && post[0] == '\n'
    ensures FirstLine(field + post) == field <==> '\n' !in field
  {
    var s := field + post;
    assert "\n"[0] == '\n';
    assert At(s, "\n", |field|) by { assert s[|field|] == '\n'; }
    forall j | 0 <= j < |field| ensures At(s, "\n", j) <==> field[j] == '\n' { assert s[j] == field[j]; }
    if '\n' !in field {
      assert Find(s, "\n") == Some(|field|);
    }
  }

  /** Behind the name stands the field, up to the end of the line exactly if it is one line. */
  lemma LineIs(user: string, pre: string, name: string, field: string, post: string, c: char)
    requires user == pre + name + (field + post) && NamesNo(pre, c) && IsName(name, c)
    requires post != "" && post[0] == '\n'
    ensures LineOf(user, name) == Some(field) <==> '\n' !in field
  {
    NameFound(pre, name, field + post, c);
    assert user[|pre| + |name|..] == field + post;
    FirstLineIs(field, post);
  }

  /** A field without newline names no line. */
  lemma OneLineNamesNo(field: string, c: char)
    requires '\n' !in field
    ensures NamesNo(field, c)
  {
  }

  lemma EndpointLine(user: string, intro: string, nameE: string, endpoint: string, nameD: string, rest: string)
    requires user == intro + nameE + endpoint + nameD + rest
    requires NamesNo(intro, 'E') && IsName(nameE, 'E') && IsName(nameD, 'D')
    ensures LineOf(user, nameE) == Some(endpoint) <==> '\n' !in endpoint
  {
    assert user == intro + nameE + (endpoint + (nameD + rest));
    LineIs(user, intro, nameE, endpoint, nameD + rest, 'E');
  }

  lemma DomainLine(user: string, intro: string, nameE: string, endpoint: string, nameD: string, domain: string,
                   nameL: string, rest: string)
    requires user == intro + nameE + endpoint + nameD + domain + nameL + rest && '\n' !in endpoint
    requires NamesNo(intro, 'D') && NamesNo(nameE, 'D') && IsName(nameD, 'D') && IsName(nameL, 'L')
    ensures LineOf(user, nameD) == Some(domain) <==> '\n' !in domain
  {
    OneLineNamesNo(endpoint, 'D');
    NamesNoJoin(intro, nameE, 'D');
    NamesNoJoin(intro + nameE, endpoint, 'D');
    var pre := intro + nameE + endpoint;
    assert user == pre + nameD + (domain + (nameL + rest));
    LineIs(user, pre, nameD, domain, nameL + rest, 'D');
  }

  lemma LabelLine(user: string, pre: string, nameL: string, labelText: string, rest: string)
    requires user == pre + nameL + labelText + rest && rest != "" && rest[0] == '\n'
    requires NamesNo(pre, 'L') && IsName(nameL, 'L')
    ensures LineOf(user, nameL) == Some(labelText) <==> '\n' !in labelText
  {
    assert user == pre + nameL + (labelText + rest);
    LineIs(user, pre, nameL, labelText, rest, 'L');
  }

  lemma ReadBackIff(user: string, intro: string, nameE: string, endpoint: string, nameD: string, domain: string,
                    nameL: string, labelText: string, rest: string)
    requires user == intro + nameE + endpoint + nameD + domain + nameL + labelText + rest
    requires IsName(nameE, 'E') && IsName(nameD, 'D') && IsName(nameL, 'L') && rest != "" && rest[0] == '\n'
    requires NamesNo(intro, 'E') && NamesNo(intro, 'D') && NamesNo(intro, 'L')
    requires NamesNo(nameE, 'D') && NamesNo(nameE, 'L') && NamesNo(nameD, 'L')
    ensures && LineOf(user, nameE) == Some(endpoint)
            && LineOf(user, nameD) == Some(domain)
            && LineOf(user, nameL) == Some(labelText)
            <==> '\n' !in endpoint && '\n' !in domain && '\n' !in labelText
  {
    Regrouped(intro + nameE + endpoint, nameD, domain, nameL, labelText, rest);
    EndpointLine(user, intro, nameE, endpoint, nameD, domain + nameL + labelText + rest);
    if '\n' !in endpoint {
      DomainLine(user, intro, nameE, endpoint, nameD, domain, nameL, labelText + rest);
      if '\n' !in domain {
        PreLabelNamesNo(intro, nameE, endpoint, nameD, domain);
        LabelLine(user, intro + nameE + endpoint + nameD + domain, nameL, labelText, rest);
      }
    }
  }

  lemma Regrouped(a: string, nameD: string, domain: string, nameL: string, labelText: string, rest: string)
    ensures a + nameD + domain + nameL + labelText + rest == a + nameD + (domain + nameL + labelText + rest)
    ensures a + nameD + domain + nameL + labelText + rest == a + nameD + domain + nameL + (labelText + rest)
  {
  }

  lemma PreLabelNamesNo(intro: string, nameE: string, endpoint: string, nameD: string, domain: string)
    requires NamesNo(intro, 'L') && NamesNo(nameE, 'L') && NamesNo(nameD, 'L') && '\n' !in endpoint && '\n' !in domain
    ensures NamesNo(intro + nameE + endpoint + nameD + domain, 'L')
  {
    OneLineNamesNo(endpoint, 'L');
    OneLineNamesNo(domain, 'L');
    NamesNoJoin(intro, nameE, 'L');
    NamesNoJoin(intro + nameE, endpoint, 'L');
    NamesNoJoin(intro + nameE + endpoint, nameD, 'L');
    NamesNoJoin(intro + nameE + endpoint + nameD, domain, 'L');
  }

  lemma IntroNamesNo(c: char)
    requires c in {'E', 'D', 'L'}
    ensures NamesNo(INTRO_TASK + INTRO_AGAINST + INTRO_CLAIMS, c)
  {
    assert NamesNo(INTRO_TASK, c);
    assert NamesNo(INTRO_AGAINST, c);
    assert NamesNo(INTRO_CLAIMS, c);
    NamesNoJoin(INTRO_TASK, INTRO_AGAINST, c);
    NamesNoJoin(INTRO_TASK + INTRO_AGAINST, INTRO_CLAIMS, c);
  }

  lemma NamesApart()
    ensures IsName(ENDPOINT, 'E') && IsName(DOMAIN, 'D') && IsName(LABEL, 'L')
    ensures NamesNo(ENDPOINT, 'D') && NamesNo(ENDPOINT, 'L') && NamesNo(DOMAIN, 'L')
  {
  }

  lemma RestOfPrompt(claims: string, gap: string, open: string, newline: string, content: string, close: string, outro: string)
    requires gap != ""
    ensures claims + gap + open + newline + content + newline + close + outro
         == claims + (gap + open + newline + content + newline + close + outro)
    ensures (gap + open + newline + content + newline + close + outro)[0] == gap[0]
  {
  }

  /**
   Each claim stands on the line of its own name and is all of that line, endpoint, domain and
   label alike, if and only if none of them holds a newline.
   */
  lemma ClaimsReadBackIff(endpoint: string, domain: string, cardLabel: Option<string>, content: string)
    ensures var user := BuildUser(endpoint, domain, cardLabel, content);
            var labelText := if cardLabel.Some? then cardLabel.value else "(none)";
            && LineOf(user, "\n- Endpoint: ") == Some(endpoint)
            && LineOf(user, "\n- Domain: ") == Some(domain)
            && LineOf(user, "\n- Label: ") == Some(labelText)
            <==> '\n' !in endpoint && '\n' !in domain && '\n' !in labelText
  {
    var labelText := LabelText(cardLabel);
    var rest := GAP + OPEN_TAG + NEWLINE + content + NEWLINE + CLOSE_TAG + OUTRO;
    var intro := INTRO_TASK + INTRO_AGAINST + INTRO_CLAIMS;
    IntroNamesNo('E');
    IntroNamesNo('D');
    IntroNamesNo('L');
    NamesApart();
    RestOfPrompt(Claims(endpoint, domain, labelText), GAP, OPEN_TAG, NEWLINE, content, CLOSE_TAG, OUTRO);
    ReadBackIff(BuildUser(endpoint, domain, cardLabel, content), intro, ENDPOINT, endpoint, DOMAIN, domain, LABEL,
                labelText, rest);
  }

  // --- how often the delimiters occur ------------------------------------

  predicate IsTag(tag: string) { tag == OPEN_TAG || tag == CLOSE_TAG }

  /** A text that neither holds the tag nor can meet an occurrence of it at either end. */
  predicate Separates(s: string, tag: string)
  {
    s != "" && tag != "" && s[0] !in tag && s[|s| - 1] !in tag && tag[0] !in s
  }

  lemma LineBreaksSeparate(tag: string)
    requires IsTag(tag)
    ensures Separates(GAP, tag) && Separates(NEWLINE, tag)
  {
  }

  /** The first line starts with a letter of the tags, so only its end keeps them apart from the endpoint. */
  lemma IntroLacksTags()
    ensures '<' !in INTRO && INTRO[|INTRO| - 1] == ' '
  {
    assert '<' !in INTRO_TASK;
    assert '<' !in INTRO_AGAINST;
    assert '<' !in INTRO_CLAIMS;
    assert '<' !in ENDPOINT && ENDPOINT[|ENDPOINT| - 1] == ' ';
  }

  lemma OutroSeparates(tag: string)
    requires IsTag(tag)
    ensures Separates(OUTRO, tag)
  {
    OutroPlain();
    assert '\n' !in tag && '.' !in tag && tag[0] == '<';
  }

  lemma OutroPlain()
    ensures OUTRO[0] == '\n' && OUTRO[|OUTRO| - 1] == '.' && '<' !in OUTRO
  {
    assert '<' !in OUTRO_RETURN && OUTRO_RETURN[0] == '\n';
    assert '<' !in OUTRO_FIELDS && OUTRO_FIELDS[|OUTRO_FIELDS| - 1] == '.';
  }

  lemma FieldNamesSeparate(tag: string)
    requires IsTag(tag)
    ensures Separates(DOMAIN, tag) && Separates(LABEL, tag)
    ensures !Contains(NO_LABEL, tag)
  {
    OccurrenceStarts(NO_LABEL, tag);
  }

  lemma OnceInItself(p: string)
    requires p != ""
    ensures Count(p, p) == 1
  {
  }

  lemma NotBoth(s: string, p: string)
    requires |s| == |p| + 1 && |p| > 1 && s[1] != p[1] && s[1] != p[0]
    ensures Count(s, p) == 0
  {
    assert s[1..][0] == s[1];
    assert !(p <= s) && !(p <= s[1..]);
    assert Count(s[1..], p) == 0;
  }

  lemma NotInShorter(s: string, p: string)
    requires |s| < |p|
    ensures Count(s, p) == 0
  {
  }

  /** Of two such patterns, each occurs once in itself and not in the other. */
  lemma CountsInBoth(open: string, close: string, tag: string)
    requires |close| == |open| + 1 && |open| > 1 && close[1] != open[1] && close[1] != open[0]
    requires tag == open || tag == close
    ensures Count(open, tag) + Count(close, tag) == 1
  {
    OnceInItself(open);
    OnceInItself(close);
    NotInShorter(open, close);
    NotBoth(close, open);
  }

  lemma OneDelimiterEach(tag: string)
    requires IsTag(tag)
    ensures Count(OPEN_TAG, tag) + Count(CLOSE_TAG, tag) == 1
  {
    assert OPEN_TAG[0] == '<' && OPEN_TAG[1] == 'U' && CLOSE_TAG[1] == '/';
    CountsInBoth(OPEN_TAG, CLOSE_TAG, tag);
  }

  /** Counts add up around a separator. */
  lemma CountAround(a: string, separator: string, b: string, p: string)
    requires Separates(separator, p)
    ensures Count(a + separator + b, p) == Count(a, p) + Count(b, p)
  {
    OccurrenceStarts(separator, p);
    CountZero(separator, p);
    CountJoin(a, separator, p);
    var front := a + separator;
    assert front[|front| - 1] == separator[|separator| - 1];
    CountJoin(front, b, p);
  }

  lemma CountInClaims(endpoint: string, domain: string, labelText: string, tag: string)
    requires IsTag(tag)
    ensures Count(Claims(endpoint, domain, labelText), tag)
         == Count(endpoint, tag) + Count(domain, tag) + Count(labelText, tag)
  {
    IntroLacksTags();
    FieldNamesSeparate(tag);
    CountFields(INTRO, endpoint, DOMAIN, domain, LABEL, labelText, tag);
  }

  lemma CountFields(intro: string, endpoint: string, beforeDomain: string, domain: string, beforeLabel: string,
                    labelText: string, tag: string)
    requires tag != "" && intro != "" && intro[|intro| - 1] !in tag && tag[0] !in intro
    requires Separates(beforeDomain, tag) && Separates(beforeLabel, tag)
    ensures Count(intro + endpoint + beforeDomain + domain + beforeLabel + labelText, tag)
         == Count(endpoint, tag) + Count(domain, tag) + Count(labelText, tag)
  {
    OccurrenceStarts(intro, tag);
    CountZero(intro, tag);
    CountJoin(intro, endpoint, tag);
    var upToEndpoint := intro + endpoint;
    CountAround(upToEndpoint, beforeDomain, domain, tag);
    CountAround(upToEndpoint + beforeDomain + domain, beforeLabel, labelText, tag);
  }

  /** What the delimited content adds to the count of what stands before it. */
  lemma CountDelimited(claims: string, gap: string, open: string, newline: string, content: string, close: string,
                       outro: string, tag: string)
    requires Separates(gap, tag) && Separates(newline, tag) && Separates(outro, tag)
    ensures Count(claims + gap + open + newline + content + newline + close + outro, tag)
         == Count(claims, tag) + Count(open, tag) + Count(content, tag) + Count(close, tag)
  {
    var a := claims + gap + open;
    CountAround(claims, gap, open, tag);
    var b := a + newline + content;
    CountAround(a, newline, content, tag);
    var c := b + newline + close;
    CountAround(b, newline, close, tag);
    CountAround(c, outro, "", tag);
    assert c + outro + "" == c + outro;
  }

  /** How often a delimiter occurs in the prompt: once, and as often as in the fields and the content. */
  lemma DelimitersCounted(endpoint: string, domain: string, cardLabel: Option<string>, content: string, tag: string)
    requires IsTag(tag)
    ensures Count(BuildUser(endpoint, domain, cardLabel, content), tag)
         == 1 + Count(endpoint, tag) + Count(domain, tag) + Count(LabelText(cardLabel), tag) + Count(content, tag)
  {
    LineBreaksSeparate(tag);
    OutroSeparates(tag);
    OneDelimiterEach(tag);
    CountDelimited(Claims(endpoint, domain, LabelText(cardLabel)), GAP, OPEN_TAG, NEWLINE, content, CLOSE_TAG, OUTRO, tag);
    CountInClaims(endpoint, domain, LabelText(cardLabel), tag);
  }

  predicate TagFree(s: string) { !Contains(s, OPEN_TAG) && !Contains(s, CLOSE_TAG) }

  /** The fields of the card hold no delimiter; a missing label holds none. */
  predicate FieldsTagFree(endpoint: string, domain: string, cardLabel: Option<string>)
  {
    TagFree(endpoint) && TagFree(domain) && (cardLabel.Some? ==> TagFree(cardLabel.value))
  }

  /** Each delimiter occurs exactly once if and only if neither the fields nor the content hold any. */
  lemma DelimitersOnceIff(endpoint: string, domain: string, cardLabel: Option<string>, content: string)
    ensures var user := BuildUser(endpoint, domain, cardLabel, content);
            Count(user, OPEN_TAG) == 1 && Count(user, CLOSE_TAG) == 1
            <==> FieldsTagFree(endpoint, domain, cardLabel) && TagFree(content)
  {
    var labelText := LabelText(cardLabel);
    DelimitersCounted(endpoint, domain, cardLabel, content, OPEN_TAG);
    DelimitersCounted(endpoint, domain, cardLabel, content, CLOSE_TAG);
    TagFreeCounts(endpoint);
    TagFreeCounts(domain);
    TagFreeCounts(labelText);
    TagFreeCounts(content);
    FieldNamesSeparate(OPEN_TAG);
    FieldNamesSeparate(CLOSE_TAG);
  }

  lemma TagFreeCounts(s: string)
    ensures TagFree(s) <==> Count(s, OPEN_TAG) == 0 && Count(s, CLOSE_TAG) == 0
  {
    CountZero(s, OPEN_TAG);
    CountZero(s, CLOSE_TAG);
  }

  // --- cutting the content out again -------------------------------------

  /** Where the text between the first opening delimiter and the first closing one after it starts and ends. */
  function Cut(user: string): (r: Option<Span>)
    ensures r.Some? ==> r.value.0 <= r.value.1 <= |user|
  {
    CutAt(user, OPEN_TAG, CLOSE_TAG)
  }

  function CutAt(user: string, open: string, close: string): (r: Option<Span>)
    ensures r.Some? ==> r.value.0 <= r.value.1 <= |user|
  {
    match Find(user, open)
    case None => None
    case Some(i) =>
      var start := i + |open|;
      match Find(user[start..], close)
      case None => None
      case Some(j) => Some((start, start + j))
  }

  /** What stands between the delimiters at which a reader would cut. */
  function Between(user: string): (r: Option<string>)
  {
    match Cut(user)
    case None => None
    case Some(span) => Some(user[span.0..span.1])
  }

  /** A pattern that cannot cross the seam after `pre` is first found in `pre`, or else right after it. */
  lemma FirstFound(pre: string, p: string, rest: string)
    requires p != "" && (pre == "" || pre[|pre| - 1] !in p)
    ensures var r := Find(pre + p + rest, p);
            if Contains(pre, p) then r.Some? && r.value < |pre| else r == Some(|pre|)
  {
    var s := pre + p + rest;
    assert At(s, p, |pre|);
    assert s == pre + (p + rest) && s[..|pre|] == pre;
    if Contains(pre, p) {
      var i :| 0 <= i <= |pre| - |p| && At(pre, p, i);
      AtPart(s, p, i, |pre|);
    } else {
      forall i | 0 <= i < |pre| ensures !At(s, p, i) {
        NotBefore(pre, p + rest, p, i);
      }
    }
  }

  lemma NotBefore(pre: string, rest: string, p: string, i: nat)
    requires p != "" && i < |pre| && pre[|pre| - 1] !in p && !Contains(pre, p)
    ensures !At(pre + rest, p, i)
  {
    if At(pre + rest, p, i) {
      AtJoin(pre, rest, p, i);
    }
  }

  /** `inner` stands at `start`, and a cut at the delimiters cuts it out there exactly when `clean`. */
  ghost predicate CutsOutIff(user: string, open: string, inner: string, close: string, start: nat, clean: bool)
  {
    && start + |inner| <= |user| && user[start..start + |inner|] == inner
    && (CutAt(user, open, close) == Some((start, start + |inner|)) <==> clean)
  }

  lemma CutFrom(user: string, open: string, close: string, i: nat, start: nat, rest: string)
    requires Find(user, open) == Some(i) && i + |open| <= |user| && rest == user[i + |open|..]
    ensures CutAt(user, open, close).Some? ==> CutAt(user, open, close).value.0 == i + |open|
    ensures start == i + |open| ==>
              CutAt(user, open, close) == match Find(rest, close) case None => None case Some(j) => Some((start, start + j))
  {
  }

  lemma CutsOutInner(user: string, pre: string, open: string, inner: string, close: string, outro: string, start: nat)
    requires user == pre + open + (inner + close + outro) && start == |pre| + |open|
    requires open != "" && pre != "" && pre[|pre| - 1] !in open
    requires close != "" && inner != "" && inner[|inner| - 1] !in close
    ensures CutsOutIff(user, open, inner, close, start, !Contains(pre, open) && !Contains(inner, close))
  {
    var rest := inner + close + outro;
    assert user[start..] == rest && rest[..|inner|] == inner;
    SliceOfRest(user, start, |inner|);
    FirstFound(pre, open, rest);
    var i := Find(user, open).value;
    CutFrom(user, open, close, i, start, user[i + |open|..]);
    if !Contains(pre, open) {
      FirstFound(inner, close, outro);
    }
  }

  lemma SliceOfRest(s: string, start: nat, n: nat)
    requires start + n <= |s|
    ensures s[start..start + n] == s[start..][..n]
  {
  }

  lemma Regroup(claims: string, gap: string, open: string, newline: string, content: string, close: string, outro: string)
    ensures claims + gap + open + newline + content + newline + close + outro
         == claims + gap + open + (newline + content + newline + close + outro)
  {
  }

  lemma LastOfJoin(a: string, b: string)
    requires b != ""
    ensures (a + b)[|a + b| - 1] == b[|b| - 1]
  {
  }

  /** Where the prompt itself puts the content. */
  function OwnStart(claims: string): (start: nat) { |claims| + |GAP| + |OPEN_TAG| }

  /** The content as it stands on lines of its own. */
  function Lines(content: string): (r: string) { NEWLINE + content + NEWLINE }

  lemma LinesAround(content: string, tag: string)
    requires IsTag(tag)
    ensures Contains(Lines(content), tag) <==> Contains(content, tag)
    ensures Contains(content + GAP, tag) <==> Contains(content, tag)
  {
    LineBreaksSeparate(tag);
    OccurrenceStarts(NEWLINE, tag);
    OccurrenceStarts(GAP, tag);
    ContainsJoin(NEWLINE, content, tag);
    ContainsJoin(NEWLINE + content, NEWLINE, tag);
    ContainsJoin(content, GAP, tag);
  }

  predicate FieldsLack(endpoint: string, domain: string, cardLabel: Option<string>, tag: string)
  {
    !Contains(endpoint, tag) && !Contains(domain, tag) && (cardLabel.Some? ==> !Contains(cardLabel.value, tag))
  }

  lemma ClaimsLackIff(endpoint: string, domain: string, cardLabel: Option<string>, tag: string)
    requires IsTag(tag)
    ensures Contains(Claims(endpoint, domain, LabelText(cardLabel)), tag) <==> !FieldsLack(endpoint, domain, cardLabel, tag)
  {
    var labelText := LabelText(cardLabel);
    FieldNamesSeparate(tag);
    CountInClaims(endpoint, domain, labelText, tag);
    CountZero(endpoint, tag);
    CountZero(domain, tag);
    CountZero(labelText, tag);
    CountZero(Claims(endpoint, domain, labelText), tag);
  }

  /**
   Cutting the prompt at the first opening delimiter and the first closing one after it cuts
   out exactly the content, where the prompt put it, if and only if no field of the card holds
   the opening delimiter and the content holds no closing one.
   */
  lemma ContentCutOutIff(endpoint: string, domain: string, cardLabel: Option<string>, content: string)
    ensures CutsOutIff(BuildUser(endpoint, domain, cardLabel, content), OPEN_TAG, Lines(content), CLOSE_TAG,
                       OwnStart(Claims(endpoint, domain, LabelText(cardLabel))),
                       FieldsLack(endpoint, domain, cardLabel, OPEN_TAG) && !Contains(content, CLOSE_TAG))
  {
    var claims := Claims(endpoint, domain, LabelText(cardLabel));
    LineBreaksSeparate(OPEN_TAG);
    LineBreaksSeparate(CLOSE_TAG);
    LastOfJoin(claims, GAP);
    LastOfJoin(NEWLINE + content, NEWLINE);
    Regroup(claims, GAP, OPEN_TAG, NEWLINE, content, CLOSE_TAG, OUTRO);
    CutsOutInner(BuildUser(endpoint, domain, cardLabel, content), claims + GAP, OPEN_TAG, Lines(content), CLOSE_TAG,
                 OUTRO, OwnStart(claims));
    ClaimsLackIff(endpoint, domain, cardLabel, OPEN_TAG);
    LinesAround(claims, OPEN_TAG);
    LinesAround(content, CLOSE_TAG);
  }

  lemma CutGivesInner(user: string, inner: string, start: nat)
    requires CutsOutIff(user, OPEN_TAG, inner, CLOSE_TAG, start, true)
    ensures Between(user) == Some(inner)
  {
  }

  lemma ContentIsolated(content: string, endpoint: string, domain: string, cardLabel: Option<string>)
    requires FieldsTagFree(endpoint, domain, cardLabel) && TagFree(content)
    ensures Isolated(BuildUser(endpoint, domain, cardLabel, content), content)
  {
    DelimitersOnceIff(endpoint, domain, cardLabel, content);
    ContentCutOutIff(endpoint, domain, cardLabel, content);
    CutGivesInner(BuildUser(endpoint, domain, cardLabel, content), Lines(content),
                  OwnStart(Claims(endpoint, domain, LabelText(cardLabel))));
  }

  /** Each delimiter occurs exactly once, and between them stands the content. */
  predicate Isolated(user: string, content: string)
  {
    Count(user, OPEN_TAG) == 1 && Count(user, CLOSE_TAG) == 1 && Between(user) == Some(Lines(content))
  }

  /** For every raw page and every card whose fields hold no delimiter, the sanitised text stands isolated. */
  lemma PromptIsolatesContent(lower: Lowering, raw: string, endpoint: string, domain: string, cardLabel: Option<string>)
    requires FieldsTagFree(endpoint, domain, cardLabel)
    ensures Isolated(BuildUser(endpoint, domain, cardLabel, SanitizeSpec(lower, raw)), SanitizeSpec(lower, raw))
  {
    SanitizedIsTagFree(lower, raw);
    ContentIsolated(SanitizeSpec(lower, raw), endpoint, domain, cardLabel);
  }

  /**
   The condition on the fields is not met by hardening the label: either delimiter is a
   hardened label, and as a label it occurs in the prompt a second time.
   */
  lemma HardenedLabelMayHoldDelimiter(endpoint: string, domain: string, content: string, tag: string)
    requires IsTag(tag)
    ensures HardenLabel(tag) == Ok(tag)
    ensures Count(BuildUser(endpoint, domain, Some(tag), content), tag) >= 2
    ensures !Isolated(BuildUser(endpoint, domain, Some(tag), content), content)
  {
    TagIsHardened(tag);
    PassesUnchangedIff(tag);
    DelimitersCounted(endpoint, domain, Some(tag), content, tag);
    OnceInItself(tag);
  }

  lemma TagIsHardened(tag: string)
    requires IsTag(tag)
    ensures Hardened(tag)
  {
  }
}
