/**
 Publish handlers that run concurrently over one limiter. A handler passes the check, waits
 for its PUT to be answered, and only then records the publication, so that any number of
 handlers of the same domain can stand between the two.
 */
module Handlers {
  import opened Wrappers
  import opened Orders
  import opened RateLimit

  datatype Kind =
    | Begin    // a single publish reaches the check
    | Publish  // a handler that passed is answered PutOk and records
    | Abort    // a handler that passed ends without a PutOk
    | Remove   // a card of the domain is removed
    | Batch    // a batch publish records, without any check

  datatype Event = Event(kind: Kind, domain: Domain, at: nat)

  /**
   The limiter, the domains of the handlers in flight, the clock, and when each domain published:
   through a handler that had passed the check, and in batches.
   */
  datatype State = State(limits: Limits, inFlight: multiset<Domain>, clock: nat,
                         published: map<Domain, seq<nat>>, batched: map<Domain, seq<nat>>)

  const START := State(UNUSED, multiset{}, 0, map[], map[])

  /** When the domain published through handlers that had passed the check. */
  function Times(s: State, d: Domain): (r: seq<nat>) { if d in s.published then s.published[d] else [] }

  function BatchTimes(s: State, d: Domain): (r: seq<nat>) { if d in s.batched then s.batched[d] else [] }

  function Recorded(s: State, d: Domain, at: nat): (r: State)
  {
    s.(limits := Record(s.limits, d, at), published := s.published[d := Times(s, d) + [at]])
  }

  function BatchRecorded(s: State, d: Domain, at: nat): (r: State)
  {
    s.(limits := Record(s.limits, d, at), batched := s.batched[d := BatchTimes(s, d) + [at]])
  }

  function Next(p: Params, s: State, e: Event): (r: State)
  {
    var t := s.(clock := e.at);
    match e.kind
    case Begin =>
      if Check(p, s.limits, e.domain, e.at) == Allowed then t.(inFlight := s.inFlight + multiset{e.domain}) else t
    case Publish =>
      if e.domain in s.inFlight then Recorded(t, e.domain, e.at).(inFlight := s.inFlight - multiset{e.domain}) else t
    case Abort =>
      if e.domain in s.inFlight then t.(inFlight := s.inFlight - multiset{e.domain}) else t
    case Remove => t.(limits := Removed(s.limits, e.domain))
    case Batch => BatchRecorded(t, e.domain, e.at)
  }

  function Run(p: Params, s: State, events: seq<Event>): (r: State)
    decreases |events|
  {
    if events == [] then s else Run(p, Next(p, s, events[0]), events[1..])
  }

  /** The clock never goes back. */
  ghost predicate Timely(clock: nat, events: seq<Event>)
    decreases |events|
  {
    events == [] || (clock <= events[0].at && Timely(events[0].at, events[1..]))
  }

  /** In every state of the run at most `k` handlers of the domain are in flight. */
  ghost predicate Within(p: Params, s: State, events: seq<Event>, d: Domain, k: nat)
    decreases |events|
  {
    s.inFlight[d] <= k && (events == [] || Within(p, Next(p, s, events[0]), events[1..], d, k))
  }

  /** How many publications of the domain a run records for batches. */
  function Batches(events: seq<Event>, d: Domain): (n: nat)
    decreases |events|
  {
    if events == [] then 0
    else Batched(events[0], d) + Batches(events[1..], d)
  }

  function Batched(e: Event, d: Domain): (n: nat) { if e.kind == Batch && e.domain == d then 1 else 0 }

  lemma {:induction false} RunConcat(p: Params, s: State, a: seq<Event>, b: seq<Event>)
    ensures Run(p, s, a + b) == Run(p, Run(p, s, a), b)
    decreases |a|
  {
    if a == [] {
      assert a + b == b;
    } else {
      var e, rest := a[0], a[1..];
      RunConcat(p, Next(p, s, e), rest, b);
      RunStep(p, s, e, rest + b);
      RunStep(p, s, e, rest);
      FirstApart(a, b);
    }
  }

  lemma FirstApart(a: seq<Event>, b: seq<Event>)
    requires a != []
    ensures a == [a[0]] + a[1..] && a + b == [a[0]] + (a[1..] + b)
  {
  }

  lemma RunStep(p: Params, s: State, e: Event, rest: seq<Event>)
    ensures Run(p, s, [e] + rest) == Run(p, Next(p, s, e), rest)
  {
    assert ([e] + rest)[1..] == rest;
  }

  // --- domains do not affect one another ---------------------------------

  /** All that the limiter and the handlers hold about one domain. */
  datatype View = View(count: Option<nat>, last: Option<nat>, inFlight: nat, times: seq<nat>, batchTimes: seq<nat>)

  function ViewOf(s: State, d: Domain): (v: View)
  {
    View(if d in s.limits.count then Some(s.limits.count[d]) else None,
         if d in s.limits.last then Some(s.limits.last[d]) else None,
         s.inFlight[d], Times(s, d), BatchTimes(s, d))
  }

  function Only(events: seq<Event>, d: Domain): (r: seq<Event>)
    decreases |events|
  {
    if events == [] then []
    else (if events[0].domain == d then [events[0]] else []) + Only(events[1..], d)
  }

  /** What an event of its own does to the view of a domain. */
  function NextView(p: Params, v: View, kind: Kind, at: nat): (r: View)
  {
    match kind
    case Begin => if Passes(p, v, at) then v.(inFlight := v.inFlight + 1) else v
    case Publish =>
      if v.inFlight > 0 then ViewRecorded(v, at).(inFlight := v.inFlight - 1, times := v.times + [at]) else v
    case Abort => if v.inFlight > 0 then v.(inFlight := v.inFlight - 1) else v
    case Remove => if v.count.Some? && v.count.value > 0 then v.(count := Some(v.count.value - 1)) else v
    case Batch => ViewRecorded(v, at).(batchTimes := v.batchTimes + [at])
  }

  predicate Passes(p: Params, v: View, at: nat)
  {
    && (v.count.Some? ==> v.count.value < p.maxCards)
    && (v.last.Some? ==> Elapsed(v.last.value, at) >= p.cooldown)
  }

  function ViewRecorded(v: View, at: nat): (r: View)
  {
    v.(count := Some((if v.count.Some? then v.count.value else 0) + 1), last := Some(at))
  }

  lemma RecordedView(s: State, d: Domain, at: nat, other: Domain)
    ensures ViewOf(Recorded(s, d, at), d) == ViewRecorded(ViewOf(s, d), at).(times := Times(s, d) + [at])
    ensures other != d ==> ViewOf(Recorded(s, d, at), other) == ViewOf(s, other)
  {
    var r := Recorded(s, d, at);
    assert Times(r, d) == Times(s, d) + [at];
    if other != d {
      assert Times(r, other) == Times(s, other);
    }
  }

  lemma BatchRecordedView(s: State, d: Domain, at: nat, other: Domain)
    ensures ViewOf(BatchRecorded(s, d, at), d) == ViewRecorded(ViewOf(s, d), at).(batchTimes := BatchTimes(s, d) + [at])
    ensures other != d ==> ViewOf(BatchRecorded(s, d, at), other) == ViewOf(s, other)
  {
    var r := BatchRecorded(s, d, at);
    assert BatchTimes(r, d) == BatchTimes(s, d) + [at];
    if other != d {
      assert BatchTimes(r, other) == BatchTimes(s, other);
    }
  }

  lemma InFlightView(s: State, inFlight: multiset<Domain>, clock: nat, d: Domain)
    ensures ViewOf(s.(inFlight := inFlight, clock := clock), d) == ViewOf(s, d).(inFlight := inFlight[d])
  {
  }

  /** The event changes the view of its own domain, by that view alone, and of no other. */
  ghost predicate IsLocal(p: Params, s: State, e: Event, d: Domain)
  {
    ViewOf(Next(p, s, e), d) == if e.domain == d then NextView(p, ViewOf(s, d), e.kind, e.at) else ViewOf(s, d)
  }

  lemma BeginIsLocal(p: Params, s: State, e: Event, d: Domain)
    requires e.kind == Begin
    ensures IsLocal(p, s, e, d)
  {
    InFlightView(s, s.inFlight, e.at, d);
    InFlightView(s, s.inFlight + multiset{e.domain}, e.at, d);
  }

  lemma PublishIsLocal(p: Params, s: State, e: Event, d: Domain)
    requires e.kind == Publish
    ensures IsLocal(p, s, e, d)
  {
    var t := s.(clock := e.at);
    InFlightView(s, s.inFlight, e.at, d);
    RecordedView(t, e.domain, e.at, d);
    InFlightView(Recorded(t, e.domain, e.at), s.inFlight - multiset{e.domain}, e.at, d);
  }

  lemma AbortIsLocal(p: Params, s: State, e: Event, d: Domain)
    requires e.kind == Abort
    ensures IsLocal(p, s, e, d)
  {
    InFlightView(s, s.inFlight, e.at, d);
    InFlightView(s, s.inFlight - multiset{e.domain}, e.at, d);
  }

  lemma RemoveIsLocal(p: Params, s: State, e: Event, d: Domain)
    requires e.kind == Remove
    ensures IsLocal(p, s, e, d)
  {
  }

  lemma BatchIsLocal(p: Params, s: State, e: Event, d: Domain)
    requires e.kind == Batch
    ensures IsLocal(p, s, e, d)
  {
    InFlightView(s, s.inFlight, e.at, d);
    BatchRecordedView(s.(clock := e.at), e.domain, e.at, d);
  }

  lemma NextIsLocal(p: Params, s: State, e: Event, d: Domain)
    ensures IsLocal(p, s, e, d)
  {
    match e.kind {
      case Begin => BeginIsLocal(p, s, e, d);
      case Publish => PublishIsLocal(p, s, e, d);
      case Abort => AbortIsLocal(p, s, e, d);
      case Remove => RemoveIsLocal(p, s, e, d);
      case Batch => BatchIsLocal(p, s, e, d);
    }
  }

  /** Whatever other domains do in between: a domain fares as if only its own events had happened. */
  lemma {:induction false} DomainsAreIndependent(p: Params, s: State, t: State, events: seq<Event>, d: Domain)
    requires ViewOf(s, d) == ViewOf(t, d)
    ensures ViewOf(Run(p, s, events), d) == ViewOf(Run(p, t, Only(events, d)), d)
    decreases |events|
  {
    if events == [] {
    } else {
      var e, rest := events[0], Only(events[1..], d);
      NextIsLocal(p, s, e, d);
      NextIsLocal(p, t, e, d);
      if e.domain == d {
        DomainsAreIndependent(p, Next(p, s, e), Next(p, t, e), events[1..], d);
        assert ([e] + rest)[1..] == rest;
      } else {
        DomainsAreIndependent(p, Next(p, s, e), t, events[1..], d);
        assert [] + rest == rest;
      }
    }
  }

  // --- the books of a domain ---------------------------------------------

  /** The event changes something: a begin passes, a handler in flight ends, a card is there to remove. */
  predicate TakesEffect(p: Params, s: State, e: Event)
  {
    match e.kind
    case Begin => Check(p, s.limits, e.domain, e.at) == Allowed
    case Publish => s.inFlight[e.domain] > 0
    case Abort => s.inFlight[e.domain] > 0
    case Remove => CountOf(s.limits, e.domain) > 0
    case Batch => true
  }

  /** How many events of the kind take effect on the domain. */
  function Effects(p: Params, s: State, events: seq<Event>, d: Domain, kind: Kind): (n: nat)
    decreases |events|
  {
    if events == [] then 0
    else Effect(p, s, events[0], d, kind) + Effects(p, Next(p, s, events[0]), events[1..], d, kind)
  }

  function Effect(p: Params, s: State, e: Event, d: Domain, kind: Kind): (n: nat)
  {
    if e.kind == kind && e.domain == d && TakesEffect(p, s, e) then 1 else 0
  }

  /** The books of the domain from one state to another, given how many events of each kind took effect in between. */
  ghost predicate Balanced(s: State, t: State, d: Domain, begun: nat, published: nat, aborted: nat, removed: nat,
                           batched: nat)
  {
    && t.inFlight[d] + published + aborted == s.inFlight[d] + begun
    && CountOf(t.limits, d) + removed == CountOf(s.limits, d) + published + batched
    && |Times(t, d)| == |Times(s, d)| + published
    && |BatchTimes(t, d)| == |BatchTimes(s, d)| + batched
  }

  lemma EventBalanced(p: Params, s: State, e: Event, d: Domain)
    ensures Balanced(s, Next(p, s, e), d, Effect(p, s, e, d, Begin), Effect(p, s, e, d, Publish),
                     Effect(p, s, e, d, Abort), Effect(p, s, e, d, Remove), Effect(p, s, e, d, Batch))
  {
    NextIsLocal(p, s, e, d);
    ViewCounts(s, d);
    ViewCounts(Next(p, s, e), d);
  }

  lemma ViewCounts(s: State, d: Domain)
    ensures var v := ViewOf(s, d);
            && v.inFlight == s.inFlight[d] && v.times == Times(s, d) && v.batchTimes == BatchTimes(s, d)
            && CountOf(s.limits, d) == if v.count.Some? then v.count.value else 0
  {
  }

  /**
   Nothing gets lost in any interleaving: the handlers in flight are those that passed less those
   that ended, and the cards counted are those published and recorded by batches less those removed.
   */
  lemma {:induction false} BooksBalance(p: Params, s: State, events: seq<Event>, d: Domain)
    ensures Balanced(s, Run(p, s, events), d, Effects(p, s, events, d, Begin), Effects(p, s, events, d, Publish),
                     Effects(p, s, events, d, Abort), Effects(p, s, events, d, Remove), Effects(p, s, events, d, Batch))
    decreases |events|
  {
    if events == [] {
    } else {
      EventBalanced(p, s, events[0], d);
      BooksBalance(p, Next(p, s, events[0]), events[1..], d);
    }
  }

  // --- the bound on a domain's cards -------------------------------------

  /** The limit that the check enforces: a domain without an entry always passes. */
  function Limit(p: Params): (n: nat) { if p.maxCards == 0 then 1 else p.maxCards }

  ghost predicate CountBound(p: Params, s: State, d: Domain, k: nat, batched: nat)
  {
    CountOf(s.limits, d) + s.inFlight[d] < Limit(p) + k + batched
  }

  lemma StepKeepsCountBound(p: Params, s: State, e: Event, d: Domain, k: nat, batched: nat)
    requires CountBound(p, s, d, k, batched) && Next(p, s, e).inFlight[d] <= k
    ensures CountBound(p, Next(p, s, e), d, k, batched + Batched(e, d))
  {
  }

  lemma {:induction false} RunKeepsCountBound(p: Params, s: State, events: seq<Event>, d: Domain, k: nat, batched: nat)
    requires CountBound(p, s, d, k, batched) && Within(p, s, events, d, k)
    ensures CountBound(p, Run(p, s, events), d, k, batched + Batches(events, d))
    decreases |events|
  {
    if events == [] {
    } else {
      StepKeepsCountBound(p, s, events[0], d, k, batched);
      RunKeepsCountBound(p, Next(p, s, events[0]), events[1..], d, k, batched + Batched(events[0], d));
    }
  }

  /**
   In every interleaving with at most `k` handlers of the domain in flight, the domain has at
   most `max - 1 + k` cards, and one more for each publication recorded by a batch.
   */
  lemma CardsBounded(p: Params, events: seq<Event>, d: Domain, k: nat)
    requires Within(p, START, events, d, k)
    ensures CountOf(Run(p, START, events).limits, d) <= Limit(p) - 1 + k + Batches(events, d)
  {
    RunKeepsCountBound(p, START, events, d, k, 0);
  }

  // --- the bound is reached ----------------------------------------------

  function Repeat(kind: Kind, d: Domain, at: nat, n: nat): (events: seq<Event>)
  {
    if n == 0 then [] else [Event(kind, d, at)] + Repeat(kind, d, at, n - 1)
  }

  /** `n` handlers one after the other, each a cooldown after the one before, from `at` on. */
  function OneByOne(p: Params, d: Domain, at: nat, n: nat): (events: seq<Event>)
    decreases n
  {
    if n == 0 then []
    else [Event(Begin, d, at), Event(Publish, d, at)] + OneByOne(p, d, at + p.cooldown, n - 1)
  }

  /** The domain has `n` cards, `j` handlers in flight, and its cooldown is over at `at`. */
  ghost predicate Ready(p: Params, s: State, d: Domain, n: nat, j: nat, at: nat)
  {
    && CountOf(s.limits, d) == n && s.inFlight[d] == j && s.clock <= at
    && (d in s.limits.last ==> s.limits.last[d] + p.cooldown <= at)
  }

  lemma OneHandler(p: Params, s: State, d: Domain, n: nat, at: nat)
    requires Ready(p, s, d, n, 0, at) && n < p.maxCards
    ensures var t := Next(p, s, Event(Begin, d, at));
            && t.inFlight[d] == 1 && t.clock == at
            && Ready(p, Next(p, t, Event(Publish, d, at)), d, n + 1, 0, at + p.cooldown)
            && Next(p, t, Event(Publish, d, at)).clock == at
  {
    var t := Next(p, s, Event(Begin, d, at));
    assert Check(p, s.limits, d, at) == Allowed;
    assert d in t.inFlight;
  }

  lemma {:induction false} OneByOneRun(p: Params, s: State, d: Domain, n: nat, m: nat, at: nat, k: nat)
    returns (end: nat)
    requires Ready(p, s, d, n, 0, at) && n + m < p.maxCards && k >= 1
    ensures Ready(p, Run(p, s, OneByOne(p, d, at, m)), d, n + m, 0, end)
    ensures Fits(p, s, OneByOne(p, d, at, m), d, k, 0)
    decreases m
  {
    if m == 0 {
      end := at;
    } else {
      var begin, publish := Event(Begin, d, at), Event(Publish, d, at);
      var rest := OneByOne(p, d, at + p.cooldown, m - 1);
      var t := Next(p, s, begin);
      var u := Next(p, t, publish);
      OneHandler(p, s, d, n, at);
      end := OneByOneRun(p, u, d, n + 1, m - 1, at + p.cooldown, k);
      FitsStep(p, t, publish, rest, d, k, 0);
      FitsStep(p, s, begin, [publish] + rest, d, k, 0);
      assert OneByOne(p, d, at, m) == [begin] + ([publish] + rest);
      RunStep(p, t, publish, rest);
      RunStep(p, s, begin, [publish] + rest);
    }
  }

  /** A timely run in which at most `k` handlers of the domain are in flight. */
  ghost predicate Steady(p: Params, s: State, events: seq<Event>, d: Domain, k: nat)
  {
    Within(p, s, events, d, k) && Timely(s.clock, events)
  }

  /** Such a run in which batches record exactly `b` publications of the domain. */
  ghost predicate Fits(p: Params, s: State, events: seq<Event>, d: Domain, k: nat, b: nat)
  {
    Steady(p, s, events, d, k) && Batches(events, d) == b
  }

  lemma FitsStep(p: Params, s: State, e: Event, rest: seq<Event>, d: Domain, k: nat, b: nat)
    requires s.inFlight[d] <= k && s.clock <= e.at
    ensures Fits(p, s, [e] + rest, d, k, Batched(e, d) + b) <==> Fits(p, Next(p, s, e), rest, d, k, b)
  {
    assert ([e] + rest)[1..] == rest;
    assert Next(p, s, e).clock == e.at;
  }

  lemma {:induction false} BeginsRun(p: Params, s: State, d: Domain, n: nat, j: nat, m: nat, at: nat, k: nat)
    requires Ready(p, s, d, n, j, at) && n < p.maxCards && j + m <= k
    ensures Ready(p, Run(p, s, Repeat(Begin, d, at, m)), d, n, j + m, at)
    ensures Fits(p, s, Repeat(Begin, d, at, m), d, k, 0)
    decreases m
  {
    if m == 0 {
    } else {
      var e, rest := Event(Begin, d, at), Repeat(Begin, d, at, m - 1);
      BeginsRun(p, Next(p, s, e), d, n, j + 1, m - 1, at, k);
      FitsStep(p, s, e, rest, d, k, 0);
      RunStep(p, s, e, rest);
    }
  }

  lemma DrainedOneMore(s: State, t: State, end: State, d: Domain, m: nat, at: nat)
    requires m > 0 && CountOf(t.limits, d) == CountOf(s.limits, d) + 1 && Drained(t, end, d, m - 1, at)
    ensures Drained(s, end, d, m, at)
  {
  }

  lemma OnePublish(p: Params, s: State, d: Domain, at: nat) returns (t: State)
    requires s.inFlight[d] > 0
    ensures t == Next(p, s, Event(Publish, d, at))
    ensures CountOf(t.limits, d) == CountOf(s.limits, d) + 1 && t.inFlight[d] == s.inFlight[d] - 1 && t.clock == at
  {
    t := Next(p, s, Event(Publish, d, at));
    assert d in s.inFlight;
  }

  /** All `m` handlers of the domain have published by `at`. */
  ghost predicate Drained(s: State, end: State, d: Domain, m: nat, at: nat)
  {
    CountOf(end.limits, d) == CountOf(s.limits, d) + m && end.inFlight[d] == 0 && end.clock <= at
  }

  lemma {:induction false} PublishesRun(p: Params, s: State, d: Domain, m: nat, at: nat, k: nat)
    requires s.inFlight[d] == m <= k && s.clock <= at
    ensures Drained(s, Run(p, s, Repeat(Publish, d, at, m)), d, m, at)
    ensures Fits(p, s, Repeat(Publish, d, at, m), d, k, 0)
    decreases m
  {
    if m == 0 {
    } else {
      var e, rest := Event(Publish, d, at), Repeat(Publish, d, at, m - 1);
      var t := OnePublish(p, s, d, at);
      PublishesRun(p, t, d, m - 1, at, k);
      FitsStep(p, s, e, rest, d, k, 0);
      RunStep(p, s, e, rest);
      DrainedOneMore(s, t, Run(p, t, rest), d, m, at);
    }
  }

  /** Batches pass no check: they take a domain to any number of cards, in whatever state they find it. */
  lemma {:induction false} BatchesUnlimited(p: Params, s: State, d: Domain, at: nat, n: nat, k: nat)
    requires s.inFlight[d] <= k && s.clock <= at
    ensures CountOf(Run(p, s, Repeat(Batch, d, at, n)).limits, d) == CountOf(s.limits, d) + n
    ensures Fits(p, s, Repeat(Batch, d, at, n), d, k, n)
    decreases n
  {
    if n == 0 {
    } else {
      var e, rest := Event(Batch, d, at), Repeat(Batch, d, at, n - 1);
      var t := OneBatch(p, s, d, at);
      BatchesUnlimited(p, t, d, at, n - 1, k);
      FitsStep(p, s, e, rest, d, k, n - 1);
      RunStep(p, s, e, rest);
    }
  }

  lemma OneBatch(p: Params, s: State, d: Domain, at: nat) returns (t: State)
    ensures t == Next(p, s, Event(Batch, d, at))
    ensures CountOf(t.limits, d) == CountOf(s.limits, d) + 1 && t.inFlight == s.inFlight && t.clock == at
  {
    t := Next(p, s, Event(Batch, d, at));
  }

  lemma {:induction false} FitsJoin(p: Params, s: State, a: seq<Event>, b: seq<Event>, d: Domain, k: nat, m: nat, n: nat)
    requires Fits(p, s, a, d, k, m) && Fits(p, Run(p, s, a), b, d, k, n)
    ensures Fits(p, s, a + b, d, k, m + n)
    decreases |a|
  {
    if a == [] {
      assert a + b == b;
    } else {
      var e, rest := a[0], a[1..];
      var left := m - Batched(e, d);
      assert a == [e] + rest;
      FitsStep(p, s, e, rest, d, k, left);
      FitsJoin(p, Next(p, s, e), rest, b, d, k, left, n);
      FitsStep(p, s, e, rest + b, d, k, left + n);
      assert a + b == [e] + (rest + b);
    }
  }

  /**
   The bound is reached: `max - 1` handlers one by one, then `k` that all pass before any
   records, and then `b` publications of batches.
   */
  lemma BoundIsReached(p: Params, d: Domain, k: nat, b: nat) returns (events: seq<Event>)
    requires p.maxCards >= 1 && k >= 1
    ensures Fits(p, START, events, d, k, b)
    ensures CountOf(Run(p, START, events).limits, d) == p.maxCards - 1 + k + b
  {
    var n := p.maxCards - 1;
    var first := OneByOne(p, d, 0, n);
    var at := OneByOneRun(p, START, d, 0, n, 0, k);
    var s := Run(p, START, first);
    var rest, end := TogetherRun(p, s, d, n, at, k, b);
    FitsJoin(p, START, first, rest, d, k, 0, b);
    RunConcat(p, START, first, rest);
    events := first + rest;
  }

  lemma TogetherRun(p: Params, s: State, d: Domain, n: nat, at: nat, k: nat, b: nat)
    returns (events: seq<Event>, end: State)
    requires Ready(p, s, d, n, 0, at) && n < p.maxCards
    ensures Fits(p, s, events, d, k, b) && end == Run(p, s, events)
    ensures CountOf(end.limits, d) == n + k + b
  {
    var begins, publishes, batches := Repeat(Begin, d, at, k), Repeat(Publish, d, at, k), Repeat(Batch, d, at, b);
    BeginsRun(p, s, d, n, 0, k, at, k);
    var t := Run(p, s, begins);
    PublishesRun(p, t, d, k, at, k);
    var u := Run(p, t, publishes);
    BatchesUnlimited(p, u, d, at, b, k);
    end := Run(p, u, batches);
    FitsJoin(p, t, publishes, batches, d, k, 0, b);
    RunConcat(p, t, publishes, batches);
    FitsJoin(p, s, begins, publishes + batches, d, k, 0, b);
    RunConcat(p, s, begins, publishes + batches);
    events := begins + (publishes + batches);
  }

  /**
   No domain ever exceeds the limit in runs with at most `k` of its handlers in flight and
   exactly `b` of its publications recorded by batches.
   */
  ghost predicate LimitHolds(p: Params, k: nat, b: nat)
  {
    forall events: seq<Event>, d: Domain ::
      Fits(p, START, events, d, k, b) ==>
        CountOf(Run(p, START, events).limits, d) <= p.maxCards
  }

  /** The advertised limit holds exactly when the handlers of a domain are serialised and no batch records for it. */
  lemma LimitHoldsIffSerialised(p: Params, k: nat, b: nat)
    requires p.maxCards >= 1 && k >= 1
    ensures LimitHolds(p, k, b) <==> k == 1 && b == 0
  {
    if k == 1 && b == 0 {
      forall events: seq<Event>, d: Domain | Fits(p, START, events, d, k, b)
        ensures CountOf(Run(p, START, events).limits, d) <= p.maxCards {
        CardsBounded(p, events, d, k);
      }
    } else {
      var events := BoundIsReached(p, [], k, b);
      assert !LimitHolds(p, k, b);
    }
  }

  // --- sliding windows ---------------------------------------------------

  /** Any `k` publications after one another take at least the cooldown. */
  ghost predicate Spaced(times: seq<nat>, k: nat, cooldown: nat)
  {
    forall i: nat :: i + k < |times| ==> times[i] + cooldown <= times[i + k]
  }

  /**
   While the cooldown after the `i`-th publication lasts, the publications from it on and the
   handlers in flight are together at most `k`, since no further handler passes.
   */
  ghost predicate WindowOpen(p: Params, s: State, d: Domain, k: nat, i: nat)
    requires i < |Times(s, d)|
  {
    Times(s, d)[i] + p.cooldown <= s.clock || |Times(s, d)| - i + s.inFlight[d] <= k
  }

  ghost predicate WindowInv(p: Params, s: State, d: Domain, k: nat)
  {
    var times := Times(s, d);
    && (times != [] ==> d in s.limits.last)
    && (forall i: nat :: i < |times| ==> times[i] <= s.limits.last[d])
    && (d in s.limits.last ==> s.limits.last[d] <= s.clock)
    && Ascending(times)
    && (forall i: nat :: i < |times| ==> WindowOpen(p, s, d, k, i))
    && Spaced(times, k, p.cooldown)
  }

  lemma PublishKeepsWindow(p: Params, s: State, e: Event, d: Domain, k: nat)
    requires WindowInv(p, s, d, k) && s.clock <= e.at && e.domain == d && e.kind == Publish
    requires 0 < s.inFlight[d] <= k
    ensures WindowInv(p, Next(p, s, e), d, k)
  {
    var t := Next(p, s, e);
    var times, after := Times(s, d), Times(t, d);
    assert after == times + [e.at];
    forall i: nat | i < |after| ensures WindowOpen(p, t, d, k, i) {
      if i < |times| {
        assert after[i] == times[i];
        assert WindowOpen(p, s, d, k, i);
      }
    }
    forall i: nat | i + k < |after| ensures after[i] + p.cooldown <= after[i + k] {
      if i + k == |times| {
        assert WindowOpen(p, s, d, k, i);
      }
    }
  }

  lemma BeginKeepsWindow(p: Params, s: State, e: Event, d: Domain, k: nat)
    requires WindowInv(p, s, d, k) && s.clock <= e.at && e.domain == d && e.kind == Begin
    ensures WindowInv(p, Next(p, s, e), d, k)
  {
    var t := Next(p, s, e);
    var times := Times(s, d);
    assert Times(t, d) == times;
    forall i: nat | i < |times| ensures WindowOpen(p, t, d, k, i) {
      assert WindowOpen(p, s, d, k, i);
      assert times[i] <= s.limits.last[d] <= s.clock;
    }
  }

  /** A batch moves the last publication forward and leaves the checked ones alone. */
  lemma BatchKeepsWindow(p: Params, s: State, e: Event, d: Domain, k: nat)
    requires WindowInv(p, s, d, k) && s.clock <= e.at && e.domain == d && e.kind == Batch
    ensures WindowInv(p, Next(p, s, e), d, k)
  {
    NextIsLocal(p, s, e, d);
    ViewKeepsWindow(p, s, Next(p, s, e), d, k);
  }

  lemma OtherKeepsWindow(p: Params, s: State, e: Event, d: Domain, k: nat)
    requires WindowInv(p, s, d, k) && s.clock <= e.at
    requires e.domain != d || e.kind == Abort || e.kind == Remove || (e.kind == Publish && d !in s.inFlight)
    ensures WindowInv(p, Next(p, s, e), d, k)
  {
    var t := Next(p, s, e);
    NextIsLocal(p, s, e, d);
    ViewKeepsWindow(p, s, t, d, k);
  }

  lemma ViewKeepsWindow(p: Params, s: State, t: State, d: Domain, k: nat)
    requires WindowInv(p, s, d, k) && s.clock <= t.clock
    requires ViewOf(t, d).last == ViewOf(s, d).last || ViewOf(t, d).last == Some(t.clock)
    requires Times(t, d) == Times(s, d) && t.inFlight[d] <= s.inFlight[d]
    ensures WindowInv(p, t, d, k)
  {
    var times := Times(s, d);
    assert ViewOf(t, d).last.Some? <==> d in t.limits.last;
    assert ViewOf(s, d).last.Some? <==> d in s.limits.last;
    forall i: nat | i < |times| ensures WindowOpen(p, t, d, k, i) {
      assert WindowOpen(p, s, d, k, i);
    }
  }

  lemma {:induction false} RunKeepsWindow(p: Params, s: State, events: seq<Event>, d: Domain, k: nat)
    requires WindowInv(p, s, d, k) && Steady(p, s, events, d, k)
    ensures WindowInv(p, Run(p, s, events), d, k)
    decreases |events|
  {
    if events == [] {
    } else {
      var e := events[0];
      if e.domain == d && e.kind == Publish && d in s.inFlight {
        PublishKeepsWindow(p, s, e, d, k);
      } else if e.domain == d && e.kind == Begin {
        BeginKeepsWindow(p, s, e, d, k);
      } else if e.domain == d && e.kind == Batch {
        BatchKeepsWindow(p, s, e, d, k);
      } else {
        OtherKeepsWindow(p, s, e, d, k);
      }
      RunKeepsWindow(p, Next(p, s, e), events[1..], d, k);
    }
  }

  /**
   With at most `k` handlers in flight, a checked publication and the `k`-th checked one after
   it lie a cooldown apart, whatever batches record in between.
   */
  lemma PublicationsSpaced(p: Params, events: seq<Event>, d: Domain, k: nat)
    requires Steady(p, START, events, d, k)
    ensures Ascending(Times(Run(p, START, events), d))
    ensures Spaced(Times(Run(p, START, events), d), k, p.cooldown)
  {
    RunKeepsWindow(p, START, events, d, k);
  }

  /** The publications that lie in a closed interval. */
  function InInterval(times: seq<nat>, from: nat, to: nat): (r: set<nat>)
  {
    set i | 0 <= i < |times| && from <= times[i] <= to
  }

  lemma OneMore(q: nat, k: nat)
    requires q > 0
    ensures q * k == (q - 1) * k + k
  {
  }

  lemma {:induction false} SpacedFar(times: seq<nat>, k: nat, cooldown: nat, i: nat, q: nat)
    requires Spaced(times, k, cooldown) && i + q * k < |times|
    ensures times[i] + q * cooldown <= times[i + q * k]
    decreases q
  {
    if q == 0 {
    } else {
      OneMore(q, k);
      OneMore(q, cooldown);
      SpacedFar(times, k, cooldown, i, q - 1);
    }
  }

  lemma SpacedBeyond(times: seq<nat>, k: nat, cooldown: nat, i: nat, q: nat, x: nat)
    requires Ascending(times) && Spaced(times, k, cooldown) && i + q * k <= x < |times|
    ensures times[i] + q * cooldown <= times[x]
  {
    SpacedFar(times, k, cooldown, i, q);
  }

  function FirstFrom(times: seq<nat>, from: nat, i: nat): (r: nat)
    requires i <= |times|
    ensures i <= r <= |times| && (r < |times| ==> times[r] >= from)
    ensures forall j :: i <= j < r ==> times[j] < from
    decreases |times| - i
  {
    if i == |times| || times[i] >= from then i else FirstFrom(times, from, i + 1)
  }

  lemma {:induction false} SetInRange(s: set<nat>, lo: nat, n: nat)
    requires forall x :: x in s ==> lo <= x < lo + n
    ensures |s| <= n
    decreases n
  {
    if n == 0 {
      assert s == {};
    } else {
      var last := lo + n - 1;
      SetInRange(s - {last}, lo, n - 1);
    }
  }

  lemma QuotientExceeds(length: nat, cooldown: nat)
    requires cooldown > 0
    ensures (length / cooldown + 1) * cooldown > length
  {
  }

  lemma SpacedInInterval(times: seq<nat>, k: nat, cooldown: nat, from: nat, to: nat, q: nat)
    requires Ascending(times) && Spaced(times, k, cooldown) && cooldown > 0
    requires from <= to && q == (to - from) / cooldown + 1
    ensures |InInterval(times, from, to)| <= q * k
  {
    QuotientExceeds(to - from, cooldown);
    var lo := FirstFrom(times, from, 0);
    forall x | x in InInterval(times, from, to) ensures lo <= x < lo + q * k {
      if x >= lo + q * k { SpacedBeyond(times, k, cooldown, lo, q, x); }
    }
    SetInRange(InInterval(times, from, to), lo, q * k);
  }

  /**
   Sliding window: with at most `k` handlers of a domain in flight, any closed interval holds
   at most `k * (length / cooldown + 1)` of its publications, and one more for each that a
   batch records within it.
   */
  lemma PublicationsInInterval(p: Params, events: seq<Event>, d: Domain, k: nat, from: nat, to: nat)
    requires Steady(p, START, events, d, k) && p.cooldown > 0 && from <= to
    ensures var end := Run(p, START, events);
            && |InInterval(Times(end, d), from, to)| <= ((to - from) / p.cooldown + 1) * k
            && PublishedIn(end, d, from, to)
                 <= ((to - from) / p.cooldown + 1) * k + |InInterval(BatchTimes(end, d), from, to)|
  {
    PublicationsSpaced(p, events, d, k);
    SpacedInInterval(Times(Run(p, START, events), d), k, p.cooldown, from, to, (to - from) / p.cooldown + 1);
  }

  /** All publications of a domain in a closed interval, checked or not. */
  function PublishedIn(s: State, d: Domain, from: nat, to: nat): (n: nat)
  {
    |InInterval(Times(s, d), from, to)| + |InInterval(BatchTimes(s, d), from, to)|
  }

  /**
   Serialised handlers: gaps of at least the cooldown between checked publications, and at most
   `length / cooldown + 1` of them in an interval.
   */
  lemma SerialisedWindow(p: Params, events: seq<Event>, d: Domain, from: nat, to: nat)
    requires Steady(p, START, events, d, 1) && p.cooldown > 0 && from <= to
    ensures var end := Run(p, START, events);
            && (forall i: nat :: i + 1 < |Times(end, d)| ==> Times(end, d)[i] + p.cooldown <= Times(end, d)[i + 1])
            && |InInterval(Times(end, d), from, to)| <= (to - from) / p.cooldown + 1
            && PublishedIn(end, d, from, to) <= (to - from) / p.cooldown + 1 + |InInterval(BatchTimes(end, d), from, to)|
  {
    PublicationsSpaced(p, events, d, 1);
    PublicationsInInterval(p, events, d, 1, from, to);
  }

  /** How many recorded publications are in neither list. */
  function Unlisted(v: View): (n: int)
  {
    (if v.count.Some? then v.count.value else 0) - |v.times| - |v.batchTimes|
  }

  lemma NextListed(p: Params, v: View, kind: Kind, at: nat)
    requires kind != Remove
    ensures Unlisted(NextView(p, v, kind, at)) == Unlisted(v)
    ensures |NextView(p, v, kind, at).batchTimes| == |v.batchTimes| + (if kind == Batch then 1 else 0)
  {
  }

  lemma {:induction false} RunListed(p: Params, s: State, events: seq<Event>, d: Domain)
    requires forall i :: 0 <= i < |events| && events[i].domain == d ==> events[i].kind != Remove
    ensures Unlisted(ViewOf(Run(p, s, events), d)) == Unlisted(ViewOf(s, d))
    ensures |ViewOf(Run(p, s, events), d).batchTimes| == |ViewOf(s, d).batchTimes| + Batches(events, d)
    decreases |events|
  {
    if events == [] {
    } else {
      var e := events[0];
      NextIsLocal(p, s, e, d);
      if e.domain == d { NextListed(p, ViewOf(s, d), e.kind, e.at); }
      RunListed(p, Next(p, s, e), events[1..], d);
    }
  }

  /** The two lists together are what the limiter counted: they lose nothing and list nothing twice. */
  lemma EveryRecordIsListed(p: Params, events: seq<Event>, d: Domain)
    requires forall i :: 0 <= i < |events| && events[i].domain == d ==> events[i].kind != Remove
    ensures var end := Run(p, START, events);
            && CountOf(end.limits, d) == |Times(end, d)| + |BatchTimes(end, d)|
            && |BatchTimes(end, d)| == Batches(events, d)
  {
    RunListed(p, START, events, d);
    var end := Run(p, START, events);
    assert CountOf(end.limits, d) == if ViewOf(end, d).count.Some? then ViewOf(end, d).count.value else 0;
  }
}
