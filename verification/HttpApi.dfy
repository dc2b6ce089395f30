/**
 The publish handlers: what the batch handler answers, counts and records for any list of
 requests, and the two segments of the single one that touch the limiter.
 */
module HttpApi {
  import opened Wrappers
  import opened Octets
  import opened Schema
  import opened Codec
  import opened CardOps
  import opened RateLimit
  import EventLoop
  import Handlers
  import RecordStore
  import StoreSpec

  // --- hexadecimal -------------------------------------------------------

  type HexString = s: string | |s| < 0x1_0000_0000_0000_0000 witness ""

  function DigitValue(c: char): (v: Option<byte>)
    ensures v.Some? ==> v.value < 16
  {
    if '0' <= c <= '9' then Some((c as int - '0' as int) as byte)
    else if 'a' <= c <= 'f' then Some((c as int - 'a' as int + 10) as byte)
    else if 'A' <= c <= 'F' then Some((c as int - 'A' as int + 10) as byte)
    else None
  }

  /** `hex::decode`: pairs of digits of either case, high digit first. */
  function HexDecode(s: string): (r: Option<Bytes>)
    ensures r.Some? ==> |s| == 2 * |r.value|
    decreases |s|
  {
    if s == "" then Some([])
    else if |s| == 1 then None
    else
      match (DigitValue(s[0]), DigitValue(s[1]), HexDecode(s[2..]))
      case (Some(high), Some(low), Some(rest)) => Some([high * 16 + low] + rest)
      case _ => None
  }

  function Digit(v: byte): (c: char)
    requires v < 16
  {
    if v < 10 then ('0' as int + v as int) as char else ('a' as int + v as int - 10) as char
  }

  /** `hex::encode`: two lowercase digits for each byte. */
  function HexEncode(b: Bytes): (s: string)
  {
    if b == [] then "" else [Digit(b[0] / 16), Digit(b[0] % 16)] + HexEncode(b[1..])
  }

  lemma {:induction false} HexRoundTrip(b: Bytes)
    ensures HexDecode(HexEncode(b)) == Some(b)
  {
    if b == [] {
    } else {
      HexRoundTrip(b[1..]);
      assert HexEncode(b)[2..] == HexEncode(b[1..]);
      assert b == [b[0]] + b[1..];
    }
  }

  /** `c` is the digit for `v`, of either case. */
  predicate IsDigit(c: char, v: nat)
  {
    v < 16 && (c == "0123456789abcdef"[v] || c == "0123456789ABCDEF"[v])
  }

  lemma DigitValueIff(c: char, v: byte)
    ensures DigitValue(c) == Some(v) <==> IsDigit(c, v)
  {
  }

  /** The text has two digits for each byte, the high one first. */
  predicate IsHex(s: string, b: Bytes)
  {
    |s| == 2 * |b| && forall i :: 0 <= i < |b| ==> IsDigit(s[2 * i], b[i] / 16) && IsDigit(s[2 * i + 1], b[i] % 16)
  }

  /** The same by the values of the digits. */
  predicate HasValues(s: string, b: Bytes)
  {
    && |s| == 2 * |b|
    && forall i :: 0 <= i < |b| ==> DigitValue(s[2 * i]) == Some(b[i] / 16) && DigitValue(s[2 * i + 1]) == Some(b[i] % 16)
  }

  lemma IsHexIff(s: string, b: Bytes)
    ensures IsHex(s, b) <==> HasValues(s, b)
  {
    if |s| == 2 * |b| {
      forall i | 0 <= i < |b|
        ensures IsDigit(s[2 * i], b[i] / 16) <==> DigitValue(s[2 * i]) == Some(b[i] / 16)
        ensures IsDigit(s[2 * i + 1], b[i] % 16) <==> DigitValue(s[2 * i + 1]) == Some(b[i] % 16) {
        DigitValueIff(s[2 * i], b[i] / 16);
        DigitValueIff(s[2 * i + 1], b[i] % 16);
      }
    }
  }

  lemma HasValuesStep(s: string, b: Bytes)
    requires |s| >= 2 && b != []
    ensures HasValues(s, b) <==>
              DigitValue(s[0]) == Some(b[0] / 16) && DigitValue(s[1]) == Some(b[0] % 16) && HasValues(s[2..], b[1..])
  {
    var digits, rest := s[2..], b[1..];
    if |s| == 2 * |b| {
      assert forall i :: 0 < i < |b| ==> b[i] == rest[i - 1] && s[2 * i] == digits[2 * (i - 1)];
      assert forall i :: 0 <= i < |rest| ==> rest[i] == b[i + 1] && digits[2 * i] == s[2 * (i + 1)];
      assert forall i :: 0 <= i < |rest| ==> digits[2 * i + 1] == s[2 * (i + 1) + 1];
    }
  }

  lemma {:induction false} HexDecodeValues(s: string, b: Bytes)
    ensures HexDecode(s) == Some(b) <==> HasValues(s, b)
    decreases |s|
  {
    if |s| < 2 || b == [] {
    } else {
      HexDecodeValues(s[2..], b[1..]);
      HasValuesStep(s, b);
      if HexDecode(s) == Some(b) {
        assert HexDecode(s[2..]) == Some(b[1..]);
      }
      assert b == [b[0]] + b[1..];
    }
  }

  /** Exactly the texts of two digits for each byte are decoded, and to these bytes. */
  lemma HexDecodeIff(s: string, b: Bytes)
    ensures HexDecode(s) == Some(b) <==> IsHex(s, b)
  {
    IsHexIff(s, b);
    HexDecodeValues(s, b);
  }

  /** What is encoded has two digits for each byte, in lowercase. */
  lemma HexEncodeIs(b: Bytes)
    ensures IsHex(HexEncode(b), b) && Lowercase(HexEncode(b))
  {
    HexRoundTrip(b);
    HexDecodeIff(HexEncode(b), b);
    HexEncodeLowercase(b);
  }

  predicate Lowercase(s: string) { forall i :: 0 <= i < |s| ==> !('A' <= s[i] <= 'Z') }

  lemma {:induction false} HexEncodeLowercase(b: Bytes)
    ensures Lowercase(HexEncode(b))
  {
    if b == [] {
    } else {
      HexEncodeLowercase(b[1..]);
    }
  }

  // --- requests and their outcomes ---------------------------------------

  datatype CardRequest = CardRequest(pubkey: HexString, seqNo: u64, status: string, endpoint: Text,
                                     manifestHash: HexString, domain: Text, labelText: Option<Text>, sig: HexString)

  /** What becomes of a PUT command: the loop is gone, it answers, or it does not in time. */
  datatype Delivery = LoopGone | Answered(result: EventLoop.QueryResult) | NoAnswer

  /** The checks that a request passes before its card is sent to the event loop, under its address and as these bytes. */
  datatype Checked = Malformed | Unverified | Checked(address: Address, domain: Domain, value: Bytes)

  /** The domain under which the limiter counts a card: its bytes, one character each. */
  function DomainOf(card: SignedCard): (d: Domain)
    ensures |d| == |card.record.domain|
  {
    seq(|card.record.domain|, i requires 0 <= i < |card.record.domain| => card.record.domain[i] as char)
  }

  function ParseStatus(s: string): (r: Option<CardStatus>)
  {
    if s == "active" then Some(Active) else if s == "revoked" then Some(Revoked) else None
  }

  function ParseCard(req: CardRequest): (r: Option<SignedCard>)
  {
    match (HexDecode(req.pubkey), HexDecode(req.sig), HexDecode(req.manifestHash), ParseStatus(req.status))
    case (Some(pubkey), Some(sig), Some(manifestHash), Some(status)) =>
      Some(SignedCard(CardRecord(pubkey, req.seqNo, status, req.endpoint, manifestHash, req.domain, req.labelText), sig))
    case _ => None
  }

  function CheckRequest(env: Env, req: CardRequest): (r: Checked)
  {
    match ParseCard(req)
    case None => Malformed
    case Some(card) =>
      if VerifyCard(env, card).Err? then Unverified
      else Checked(ComputeAddress(env, card.record.pubkey), DomainOf(card), EncodeSignedCard(card))
  }

  datatype Outcome = Rejected(badSignature: bool) | Unsent | Refused | Published(address: Address, domain: Domain)

  function Judge(checked: Checked, delivery: Delivery): (r: Outcome)
  {
    match checked
    case Malformed => Rejected(false)
    case Unverified => Rejected(true)
    case Checked(address, domain, _) =>
      if delivery == LoopGone then Unsent
      else if delivery == Answered(EventLoop.PutOk) then Published(address, domain)
      else Refused
  }

  function Outcomes<R>(check: R -> Checked, reqs: seq<R>, deliveries: seq<Delivery>): (r: seq<Outcome>)
    requires |deliveries| == |reqs|
    ensures |r| == |reqs| && forall i :: 0 <= i < |r| ==> r[i] == Judge(check(reqs[i]), deliveries[i])
  {
    seq(|reqs|, i requires 0 <= i < |reqs| => Judge(check(reqs[i]), deliveries[i]))
  }

  // What the checks decide, said of the request itself.

  /** The request's fields, three of them in hexadecimal, are those of the card. */
  predicate Asks(req: CardRequest, card: SignedCard)
  {
    && IsHex(req.pubkey, card.record.pubkey) && IsHex(req.manifestHash, card.record.manifestHash)
    && IsHex(req.sig, card.sig)
    && req.status == (if card.record.status == Active then "active" else "revoked")
    && card.record.seqNo == req.seqNo && card.record.endpoint == req.endpoint
    && card.record.domain == req.domain && card.record.labelText == req.labelText
  }

  lemma ParseStatusIff(s: string, status: CardStatus)
    ensures ParseStatus(s) == Some(status) <==> s == (if status == Active then "active" else "revoked")
  {
  }

  lemma ParseCardIff(req: CardRequest, card: SignedCard)
    ensures ParseCard(req) == Some(card) <==> Asks(req, card)
  {
    HexDecodeIff(req.pubkey, card.record.pubkey);
    HexDecodeIff(req.manifestHash, card.record.manifestHash);
    HexDecodeIff(req.sig, card.sig);
    ParseStatusIff(req.status, card.record.status);
  }

  /** The characters of the domain are the bytes of the text. */
  predicate IsDomain(d: Domain, t: Text)
  {
    |d| == |t| && forall i :: 0 <= i < |t| ==> d[i] as int == t[i]
  }

  lemma DomainOfIff(card: SignedCard, d: Domain)
    ensures DomainOf(card) == d <==> IsDomain(d, card.record.domain)
  {
    if IsDomain(d, card.record.domain) {
      forall i | 0 <= i < |d| ensures d[i] == DomainOf(card)[i] { }
    }
  }

  /** The request asks to publish an authentic card of that address and domain. */
  ghost predicate AsksAuthentic(env: Env, req: CardRequest, address: Address, domain: Domain)
  {
    exists card :: && Asks(req, card) && Authentic(env, card)
                   && address == env.hash(card.record.pubkey) && IsDomain(domain, card.record.domain)
  }

  /** The same, and these are the card's canonical bytes. */
  ghost predicate AsksToSend(env: Env, req: CardRequest, address: Address, domain: Domain, value: Bytes)
  {
    exists card :: && Asks(req, card) && Authentic(env, card)
                   && address == env.hash(card.record.pubkey) && IsDomain(domain, card.record.domain)
                   && value == EncodeSignedCard(card)
  }

  /** Which result the checks give: passed exactly if the request asks for an authentic card. */
  lemma CheckedIff(env: Env, req: CardRequest, checked: Checked)
    ensures CheckRequest(env, req) == checked <==>
              match checked
              case Malformed => !exists card :: Asks(req, card)
              case Unverified => exists card :: Asks(req, card) && !Authentic(env, card)
              case Checked(address, domain, value) => AsksToSend(env, req, address, domain, value)
  {
    forall card ensures ParseCard(req) == Some(card) <==> Asks(req, card) { ParseCardIff(req, card); }
    if ParseCard(req).Some? {
      CheckedCardIff(env, req, ParseCard(req).value, checked);
    }
  }

  lemma CheckedCardIff(env: Env, req: CardRequest, card: SignedCard, checked: Checked)
    requires ParseCard(req) == Some(card)
    ensures CheckRequest(env, req) == checked <==>
              match checked
              case Malformed => false
              case Unverified => !Authentic(env, card)
              case Checked(address, domain, value) =>
                && Authentic(env, card) && address == env.hash(card.record.pubkey) && IsDomain(domain, card.record.domain)
                && value == EncodeSignedCard(card)
  {
    VerifiesIffAuthentic(env, card);
    if checked.Checked? { DomainOfIff(card, checked.domain); }
  }

  /** What becomes of a request, in terms of its card and of what became of the command. */
  lemma OutcomeIff(env: Env, req: CardRequest, delivery: Delivery, outcome: Outcome)
    ensures Judge(CheckRequest(env, req), delivery) == outcome <==>
              match outcome
              case Rejected(badSignature) =>
                if badSignature then exists card :: Asks(req, card) && !Authentic(env, card)
                else !exists card :: Asks(req, card)
              case Unsent => delivery == LoopGone && exists card :: Asks(req, card) && Authentic(env, card)
              case Refused =>
                && delivery != LoopGone && delivery != Answered(EventLoop.PutOk)
                && exists card :: Asks(req, card) && Authentic(env, card)
              case Published(address, domain) =>
                delivery == Answered(EventLoop.PutOk) && AsksAuthentic(env, req, address, domain)
  {
    var checked := CheckRequest(env, req);
    CheckedIff(env, req, Malformed);
    CheckedIff(env, req, Unverified);
    CheckedIff(env, req, checked);
    if outcome.Published? { PassesIff(env, req, outcome.address, outcome.domain); }
    forall card ensures ParseCard(req) == Some(card) <==> Asks(req, card) { ParseCardIff(req, card); }
  }

  lemma PassesIff(env: Env, req: CardRequest, address: Address, domain: Domain)
    ensures (exists value :: CheckRequest(env, req) == Checked(address, domain, value))
            <==> AsksAuthentic(env, req, address, domain)
  {
    if value :| CheckRequest(env, req) == Checked(address, domain, value) {
      CheckedIff(env, req, Checked(address, domain, value));
    }
    if AsksAuthentic(env, req, address, domain) {
      var card :| && Asks(req, card) && Authentic(env, card)
                  && address == env.hash(card.record.pubkey) && IsDomain(domain, card.record.domain);
      CheckedIff(env, req, Checked(address, domain, EncodeSignedCard(card)));
    }
  }

  // What is sent to the event loop.

  datatype Command = Command(key: Address, value: Bytes)

  function CommandOf(checked: Checked, delivery: Delivery): (c: Option<Command>)
  {
    if checked.Checked? && delivery != LoopGone then Some(Command(checked.address, checked.value)) else None
  }

  /** The commands that the first `n` requests have sent, in order. */
  function Commands<R>(check: R -> Checked, reqs: seq<R>, deliveries: seq<Delivery>, n: nat): (r: seq<Command>)
    requires |deliveries| == |reqs| && n <= |reqs|
  {
    if n == 0 then []
    else
      var command := CommandOf(check(reqs[n - 1]), deliveries[n - 1]);
      Commands(check, reqs, deliveries, n - 1) + (if command.Some? then [command.value] else [])
  }

  /** One of the first `n` requests asks for an authentic card of that address and these bytes, and the loop takes it. */
  ghost predicate IsSent(env: Env, reqs: seq<CardRequest>, deliveries: seq<Delivery>, n: nat, command: Command)
    requires |deliveries| == |reqs| && n <= |reqs|
  {
    exists i: nat :: i < n && Sends(env, reqs[i], deliveries[i], command)
  }

  ghost predicate Sends(env: Env, req: CardRequest, delivery: Delivery, command: Command)
  {
    delivery != LoopGone && exists domain :: AsksToSend(env, req, command.key, domain, command.value)
  }

  lemma CommandOfIff(env: Env, req: CardRequest, delivery: Delivery, command: Command)
    ensures CommandOf(CheckRequest(env, req), delivery) == Some(command) <==> Sends(env, req, delivery, command)
  {
    forall domain
      ensures CheckRequest(env, req) == Checked(command.key, domain, command.value)
              <==> AsksToSend(env, req, command.key, domain, command.value) {
      CheckedIff(env, req, Checked(command.key, domain, command.value));
    }
    var checked := CheckRequest(env, req);
    if CommandOf(checked, delivery) == Some(command) {
      assert AsksToSend(env, req, command.key, checked.domain, command.value);
    }
  }

  /** A command is on the list exactly if one of the requests has it sent. */
  lemma {:induction false} CommandsAre<R>(check: R -> Checked, reqs: seq<R>, deliveries: seq<Delivery>, n: nat,
                                          command: Command)
    requires |deliveries| == |reqs| && n <= |reqs|
    ensures command in Commands(check, reqs, deliveries, n)
            <==> exists i: nat :: i < n && CommandOf(check(reqs[i]), deliveries[i]) == Some(command)
  {
    if n == 0 {
    } else {
      CommandsAre(check, reqs, deliveries, n - 1, command);
    }
  }

  /** Exactly the authentic cards are sent, each under its address and as its canonical bytes. */
  lemma CommandsIff(env: Env, reqs: seq<CardRequest>, deliveries: seq<Delivery>, n: nat, command: Command)
    requires |deliveries| == |reqs| && n <= |reqs|
    ensures command in Commands(req => CheckRequest(env, req), reqs, deliveries, n)
            <==> IsSent(env, reqs, deliveries, n, command)
  {
    CommandsAre(req => CheckRequest(env, req), reqs, deliveries, n, command);
    forall i: nat | i < n
      ensures CommandOf(CheckRequest(env, reqs[i]), deliveries[i]) == Some(command)
              <==> Sends(env, reqs[i], deliveries[i], command) {
      CommandOfIff(env, reqs[i], deliveries[i], command);
    }
  }

  lemma SentCard(env: Env, req: CardRequest, delivery: Delivery, command: Command) returns (card: SignedCard)
    requires CardOps.DecoderLaw(env) && Sends(env, req, delivery, command)
    ensures RecordStore.GenuineCard(env, command.key, command.value, card)
  {
    var domain :| AsksToSend(env, req, command.key, domain, command.value);
    card :| && Asks(req, card) && Authentic(env, card)
            && command.key == env.hash(card.record.pubkey) && command.value == EncodeSignedCard(card);
    assert env.decode(EncodeSignedCard(card)) == Some(card);
  }

  lemma SentIsAdmitted(env: Env, reqs: seq<CardRequest>, deliveries: seq<Delivery>, n: nat, command: Command)
    requires CardOps.DecoderLaw(env) && |deliveries| == |reqs| && n <= |reqs| && IsSent(env, reqs, deliveries, n, command)
    ensures RecordStore.Admit(env)(command.key, command.value).Some?
  {
    var i: nat :| i < n && Sends(env, reqs[i], deliveries[i], command);
    var card := SentCard(env, reqs[i], deliveries[i], command);
    RecordStore.AdmittedIffGenuine(env, command.key, command.value);
  }

  /**
   Hence a store refuses what a batch sends only for want of room, if it is full and does not
   hold the address.
   */
  lemma SentIsAdmissible(env: Env, reqs: seq<CardRequest>, deliveries: seq<Delivery>, n: nat, command: Command,
                         st: StoreSpec.Store)
    requires CardOps.DecoderLaw(env) && |deliveries| == |reqs| && n <= |reqs|
    requires command in Commands(req => CheckRequest(env, req), reqs, deliveries, n)
    ensures RecordStore.Admit(env)(command.key, command.value).Some?
    ensures var r := StoreSpec.Record(command.key, command.value, None, None);
            StoreSpec.PutResult(RecordStore.Admit(env), st, r).Ok?
            <==> command.key in st.records || |st.records| < st.maxRecords
  {
    CommandsIff(env, reqs, deliveries, n, command);
    SentIsAdmitted(env, reqs, deliveries, n, command);
    StoreSpec.PutResultIff(RecordStore.Admit(env), st, StoreSpec.Record(command.key, command.value, None, None));
  }

  // --- accounting --------------------------------------------------------

  /** How many of the first `n` requests could not be sent. */
  function UnsentCount(outcomes: seq<Outcome>, n: nat): (r: nat)
    requires n <= |outcomes|
  {
    if n == 0 then 0 else UnsentCount(outcomes, n - 1) + (if outcomes[n - 1].Unsent? then 1 else 0)
  }

  /** How many of the first `n` requests could not be parsed. */
  function Malformations(outcomes: seq<Outcome>, n: nat): (r: nat)
    requires n <= |outcomes|
  {
    if n == 0 then 0
    else Malformations(outcomes, n - 1) + (if outcomes[n - 1] == Rejected(false) then 1 else 0)
  }

  /** The positions of the published requests among the first `n`. */
  function Positions(outcomes: seq<Outcome>, n: nat): (r: seq<nat>)
    requires n <= |outcomes|
  {
    if n == 0 then []
    else Positions(outcomes, n - 1) + (if outcomes[n - 1].Published? then [n - 1] else [])
  }

  /** The answer's list of addresses after `n` requests. */
  function Results(outcomes: seq<Outcome>, n: nat): (r: seq<string>)
    requires n <= |outcomes|
  {
    if n == 0 then []
    else Results(outcomes, n - 1) + (if outcomes[n - 1].Published? then [HexEncode(outcomes[n - 1].address)] else [])
  }

  /** The positions ascend, and are those of all the published requests among the first `n`. */
  ghost predicate ListsPublished(positions: seq<nat>, outcomes: seq<Outcome>, n: nat)
    requires n <= |outcomes|
  {
    && (forall x :: 0 <= x < |positions| ==> positions[x] < n && outcomes[positions[x]].Published?)
    && (forall x, y :: 0 <= x < y < |positions| ==> positions[x] < positions[y])
    && (forall i: nat :: i < n && outcomes[i].Published? ==> i in positions)
  }

  lemma {:induction false} PositionsAscend(outcomes: seq<Outcome>, n: nat)
    requires n <= |outcomes|
    ensures ListsPublished(Positions(outcomes, n), outcomes, n)
  {
    if n == 0 {
    } else {
      PositionsAscend(outcomes, n - 1);
      var before, after := Positions(outcomes, n - 1), Positions(outcomes, n);
      forall i: nat | i < n && outcomes[i].Published? ensures i in after {
        if i == n - 1 {
          assert after[|before|] == i;
        } else {
          assert i in before;
        }
      }
    }
  }

  lemma {:induction false} ResultsCounted(outcomes: seq<Outcome>, n: nat)
    requires n <= |outcomes|
    ensures |Results(outcomes, n)| == |Positions(outcomes, n)|
  {
    if n == 0 {
    } else {
      ResultsCounted(outcomes, n - 1);
    }
  }

  lemma {:induction false} ResultAt(outcomes: seq<Outcome>, n: nat, x: nat)
    requires n <= |outcomes| && x < |Positions(outcomes, n)| == |Results(outcomes, n)|
    ensures Positions(outcomes, n)[x] < n && outcomes[Positions(outcomes, n)[x]].Published?
    ensures Results(outcomes, n)[x] == HexEncode(outcomes[Positions(outcomes, n)[x]].address)
  {
    ResultsCounted(outcomes, n - 1);
    if x >= |Positions(outcomes, n - 1)| {
    } else {
      ResultAt(outcomes, n - 1, x);
    }
  }

  /** The `x`-th result is the address of the `x`-th published request, in order of submission. */
  lemma ResultsInOrder(outcomes: seq<Outcome>, n: nat)
    requires n <= |outcomes|
    ensures var positions, results := Positions(outcomes, n), Results(outcomes, n);
            && ListsPublished(positions, outcomes, n)
            && |results| == |positions|
            && forall x :: 0 <= x < |results| ==> results[x] == HexEncode(outcomes[positions[x]].address)
  {
    PositionsAscend(outcomes, n);
    ResultsCounted(outcomes, n);
    forall x | 0 <= x < |Results(outcomes, n)|
      ensures Results(outcomes, n)[x] == HexEncode(outcomes[Positions(outcomes, n)[x]].address) {
      ResultAt(outcomes, n, x);
    }
  }

  /** The limiter after the first `n` requests: each publication is recorded at its time, without any check. */
  function RecordAll(l: Limits, outcomes: seq<Outcome>, times: seq<nat>, n: nat): (r: Limits)
    requires n <= |outcomes| == |times|
  {
    if n == 0 then l
    else
      var front := RecordAll(l, outcomes, times, n - 1);
      if outcomes[n - 1].Published? then RateLimit.Record(front, outcomes[n - 1].domain, times[n - 1]) else front
  }

  /** The events of the concurrent model that a batch amounts to. */
  function BatchEvents(outcomes: seq<Outcome>, times: seq<nat>, n: nat): (r: seq<Handlers.Event>)
    requires n <= |outcomes| == |times|
  {
    if n == 0 then []
    else
      BatchEvents(outcomes, times, n - 1)
      + (if outcomes[n - 1].Published? then [Handlers.Event(Handlers.Batch, outcomes[n - 1].domain, times[n - 1])] else [])
  }

  lemma RunBatchEvent(p: Params, s: Handlers.State, front: seq<Handlers.Event>, domain: Domain, at: nat)
    ensures Handlers.Run(p, s, front + [Handlers.Event(Handlers.Batch, domain, at)]).limits
         == RateLimit.Record(Handlers.Run(p, s, front).limits, domain, at)
  {
    var e := Handlers.Event(Handlers.Batch, domain, at);
    Handlers.RunConcat(p, s, front, [e]);
    assert Handlers.Run(p, Handlers.Run(p, s, front), [e]) == Handlers.Next(p, Handlers.Run(p, s, front), e);
  }

  /** What a batch records is what the concurrent model does on its batch events. */
  lemma {:induction false} BatchIsUnchecked(p: Params, s: Handlers.State, outcomes: seq<Outcome>, times: seq<nat>, n: nat)
    requires n <= |outcomes| == |times|
    ensures Handlers.Run(p, s, BatchEvents(outcomes, times, n)).limits == RecordAll(s.limits, outcomes, times, n)
  {
    if n == 0 {
    } else {
      var front := BatchEvents(outcomes, times, n - 1);
      BatchIsUnchecked(p, s, outcomes, times, n - 1);
      if outcomes[n - 1].Published? {
        RunBatchEvent(p, s, front, outcomes[n - 1].domain, times[n - 1]);
      } else {
        assert front + [] == front;
      }
    }
  }

  /** The counters that publishing moves. */
  datatype Counters = Counters(httpRequests: nat, putTotal: nat, putSuccess: nat, putRejected: nat,
                               sigOk: nat, sigFail: nat, putLatencies: nat)
  {
    function Add(o: Outcome): (c: Counters)
    {
      var c := this.(httpRequests := httpRequests + 1, putTotal := putTotal + 1);
      match o
      case Rejected(badSignature) =>
        c.(putRejected := putRejected + 1, sigFail := if badSignature then sigFail + 1 else sigFail)
      case Unsent => c.(sigOk := sigOk + 1)
      case Refused => c.(sigOk := sigOk + 1, putRejected := putRejected + 1, putLatencies := putLatencies + 1)
      case Published(_, _) => c.(sigOk := sigOk + 1, putSuccess := putSuccess + 1, putLatencies := putLatencies + 1)
    }
  }

  /** The counters after the first `n` requests. */
  function CountersAfter(c: Counters, outcomes: seq<Outcome>, n: nat): (r: Counters)
    requires n <= |outcomes|
  {
    if n == 0 then c else CountersAfter(c, outcomes, n - 1).Add(outcomes[n - 1])
  }

  class Metrics {
    var httpRequests: nat
    var putTotal: nat
    var putSuccess: nat
    var putRejected: nat
    var sigOk: nat
    var sigFail: nat
    var putLatencies: nat

    ghost function Value(): (c: Counters)
      reads this
    {
      Counters(httpRequests, putTotal, putSuccess, putRejected, sigOk, sigFail, putLatencies)
    }
  }

  /** One round of the batch loop: the entry for the answer's list, if the card was published. */
  method PublishOne(limiter: RateLimiter, metrics: Metrics, checked: Checked, delivery: Delivery, now: nat)
    returns (result: Option<string>, command: Option<Command>)
    modifies limiter, metrics
    ensures command == CommandOf(checked, delivery)
    ensures var outcome := Judge(checked, delivery);
            && result == (if outcome.Published? then Some(HexEncode(outcome.address)) else None)
            && metrics.Value() == old(metrics.Value()).Add(outcome)
            && limiter.Value() == (if outcome.Published? then RateLimit.Record(old(limiter.Value()), outcome.domain, now)
                                   else old(limiter.Value()))
  {
    metrics.httpRequests := metrics.httpRequests + 1;
    metrics.putTotal := metrics.putTotal + 1;
    if checked.Malformed? {
      metrics.putRejected := metrics.putRejected + 1;
      return None, None;
    }
    if checked.Unverified? {
      metrics.sigFail := metrics.sigFail + 1;
      metrics.putRejected := metrics.putRejected + 1;
      return None, None;
    }
    metrics.sigOk := metrics.sigOk + 1;
    if delivery == LoopGone {
      return None, None;
    }
    command := Some(Command(checked.address, checked.value));
    if delivery == Answered(EventLoop.PutOk) {
      metrics.putSuccess := metrics.putSuccess + 1;
      limiter.RecordPublish(checked.domain, now);
      result := Some(HexEncode(checked.address));
    } else {
      metrics.putRejected := metrics.putRejected + 1;
      result := None;
    }
    metrics.putLatencies := metrics.putLatencies + 1;
  }

  method RunBatch<R>(check: R -> Checked, limiter: RateLimiter, metrics: Metrics, cards: seq<R>,
                  deliveries: seq<Delivery>, times: seq<nat>)
    returns (ok: nat, fail: nat, results: seq<string>, sent: seq<Command>)
    requires |deliveries| == |cards| == |times|
    modifies limiter, metrics
    ensures sent == Commands(check, cards, deliveries, |cards|)
    ensures var n, outcomes := |cards|, Outcomes(check, cards, deliveries);
            && ok + fail == n && ok == |results| && results == Results(outcomes, n)
            && limiter.Value() == RecordAll(old(limiter.Value()), outcomes, times, n)
            && metrics.Value() == CountersAfter(old(metrics.Value()), outcomes, n)
  {
    ghost var outcomes := Outcomes(check, cards, deliveries);
    ghost var limits, counters := limiter.Value(), metrics.Value();
    ok, fail, results, sent := 0, 0, [], [];
    for i := 0 to |cards|
      invariant ok + fail == i && |results| == ok && results == Results(outcomes, i)
      invariant sent == Commands(check, cards, deliveries, i)
      invariant limiter.Value() == RecordAll(limits, outcomes, times, i)
      invariant metrics.Value() == CountersAfter(counters, outcomes, i)
    {
      var result, command := PublishOne(limiter, metrics, check(cards[i]), deliveries[i], times[i]);
      if command.Some? {
        sent := sent + [command.value];
      }
      if result.Some? {
        ok := ok + 1;
        results := results + [result.value];
      } else {
        fail := fail + 1;
      }
    }
  }

  /** The address of a card that some request asked to publish, authentic and answered PutOk. */
  ghost predicate IsPublished(env: Env, cards: seq<CardRequest>, deliveries: seq<Delivery>, result: string)
    requires |deliveries| == |cards|
  {
    exists i: nat, address, domain ::
      && i < |cards| && deliveries[i] == Answered(EventLoop.PutOk) && AsksAuthentic(env, cards[i], address, domain)
      && result == HexEncode(address)
  }

  lemma ResultsPublished(env: Env, cards: seq<CardRequest>, deliveries: seq<Delivery>)
    requires |deliveries| == |cards|
    ensures var results := Results(Outcomes(req => CheckRequest(env, req), cards, deliveries), |cards|);
            forall x :: 0 <= x < |results| ==> IsPublished(env, cards, deliveries, results[x])
  {
    var outcomes := Outcomes(req => CheckRequest(env, req), cards, deliveries);
    var positions, results := Positions(outcomes, |cards|), Results(outcomes, |cards|);
    ResultsInOrder(outcomes, |cards|);
    forall x | 0 <= x < |results| ensures IsPublished(env, cards, deliveries, results[x]) {
      var i := positions[x];
      OutcomeIff(env, cards[i], deliveries[i], outcomes[i]);
    }
  }

  /** The handler: the requests are parsed and verified against `env`, and only authentic cards get published. */
  method PublishBatch(env: Env, limiter: RateLimiter, metrics: Metrics, cards: seq<CardRequest>,
                      deliveries: seq<Delivery>, times: seq<nat>)
    returns (ok: nat, fail: nat, results: seq<string>, sent: seq<Command>)
    requires |deliveries| == |cards| == |times|
    modifies limiter, metrics
    ensures var n, outcomes := |cards|, Outcomes(req => CheckRequest(env, req), cards, deliveries);
            && ok + fail == n && ok == |results| && results == Results(outcomes, n)
            && limiter.Value() == RecordAll(old(limiter.Value()), outcomes, times, n)
            && metrics.Value() == CountersAfter(old(metrics.Value()), outcomes, n)
    ensures forall x :: 0 <= x < |results| ==> IsPublished(env, cards, deliveries, results[x])
    ensures forall command :: command in sent <==> IsSent(env, cards, deliveries, |cards|, command)
  {
    ok, fail, results, sent := RunBatch(req => CheckRequest(env, req), limiter, metrics, cards, deliveries, times);
    ResultsPublished(env, cards, deliveries);
    forall command ensures command in sent <==> IsSent(env, cards, deliveries, |cards|, command) {
      CommandsIff(env, cards, deliveries, |cards|, command);
    }
  }

  // --- the single publish ------------------------------------------------

  /** The handler's first segment ends with the check; a card that does not pass is counted as rejected. */
  method PublishCheck(limiter: RateLimiter, metrics: Metrics, domain: Domain, now: nat) returns (passed: bool)
    modifies metrics`putRejected
    ensures forall s: Handlers.State :: s.limits == limiter.Value() ==>
              Begun(limiter.params, s, Handlers.Event(Handlers.Begin, domain, now), passed)
    ensures metrics.putRejected == old(metrics.putRejected) + (if passed then 0 else 1)
  {
    var verdict := limiter.CheckDomain(domain, now);
    match verdict
    case TooManyCards(_, _, _) =>
      metrics.putRejected := metrics.putRejected + 1;
      passed := false;
    case CooldownActive(_, _) =>
      metrics.putRejected := metrics.putRejected + 1;
      passed := false;
    case Allowed =>
      passed := true;
  }

  /** In the concurrent model the handler joins those in flight if it passed, and nothing else changes. */
  ghost predicate Begun(p: Params, s: Handlers.State, e: Handlers.Event, passed: bool)
  {
    var t := Handlers.Next(p, s, e);
    && t.limits == s.limits && t.published == s.published && t.batched == s.batched
    && t.inFlight == (if passed then s.inFlight + multiset{e.domain} else s.inFlight)
  }

  /** Its last segment looks at the answer: only a PutOk is recorded, at the time of the answer. */
  method PublishConclude(limiter: RateLimiter, metrics: Metrics, delivery: Delivery, domain: Domain, now: nat)
    requires delivery != LoopGone
    modifies limiter, metrics
    ensures var kind := if delivery == Answered(EventLoop.PutOk) then Handlers.Publish else Handlers.Abort;
            var e := Handlers.Event(kind, domain, now);
            forall s: Handlers.State :: s.limits == old(limiter.Value()) && domain in s.inFlight ==>
              Handlers.Next(limiter.params, s, e).limits == limiter.Value()
    ensures var c := old(metrics.Value()).(putLatencies := old(metrics.putLatencies) + 1);
            metrics.Value() == if delivery == Answered(EventLoop.PutOk) then c.(putSuccess := c.putSuccess + 1)
                               else c.(putRejected := c.putRejected + 1)
  {
    if delivery == Answered(EventLoop.PutOk) {
      metrics.putSuccess := metrics.putSuccess + 1;
      limiter.RecordPublish(domain, now);
    } else {
      metrics.putRejected := metrics.putRejected + 1;
    }
    metrics.putLatencies := metrics.putLatencies + 1;
  }

  // --- what the counters say ---------------------------------------------

  /**
   The counters of a batch: every request is counted, successes as often as something was
   published, and rejections as often as something failed except for want of an event loop.
   Every request but the malformed ones has its signature counted one way or the other.
   */
  lemma {:induction false} BatchCounters(before: Counters, outcomes: seq<Outcome>, n: nat)
    requires n <= |outcomes|
    ensures var after, ok := CountersAfter(before, outcomes, n), |Results(outcomes, n)|;
            && after.httpRequests == before.httpRequests + n
            && after.putTotal == before.putTotal + n
            && after.putSuccess == before.putSuccess + ok
            && after.putRejected == before.putRejected + (n - ok) - UnsentCount(outcomes, n)
            && after.putLatencies == before.putLatencies + n - (after.sigFail - before.sigFail)
                 - Malformations(outcomes, n) - UnsentCount(outcomes, n)
            && (after.sigOk - before.sigOk) + (after.sigFail - before.sigFail) == n - Malformations(outcomes, n)
  {
    if n == 0 {
    } else {
      BatchCounters(before, outcomes, n - 1);
    }
  }

  /** Rejections are as many as failures exactly when every card that verified could be sent. */
  lemma RejectionsAreFailuresIff(before: Counters, outcomes: seq<Outcome>, n: nat)
    requires n <= |outcomes|
    ensures CountersAfter(before, outcomes, n).putRejected == before.putRejected + (n - |Results(outcomes, n)|)
            <==> forall i: nat :: i < n ==> !outcomes[i].Unsent?
  {
    BatchCounters(before, outcomes, n);
    UnsentCounted(outcomes, n);
  }

  lemma {:induction false} UnsentCounted(outcomes: seq<Outcome>, n: nat)
    requires n <= |outcomes|
    ensures UnsentCount(outcomes, n) == 0 <==> forall i: nat :: i < n ==> !outcomes[i].Unsent?
  {
    if n == 0 {
    } else {
      UnsentCounted(outcomes, n - 1);
    }
  }
}
