/**
 The node's event loop: it serves PUT and GET commands from the store and from Kademlia
 queries, and keeps the reply channel of each query until an event answers it. Kademlia
 is the environment: it issues query ids and later reports on them.
 */
module EventLoop {
  import opened Wrappers
  import opened Octets
  import opened StoreSpec
  import opened StoreRuns

  type QueryId = nat

  type Channel = nat

  datatype QueryResult = PutOk | Found(value: Bytes) | NotFound | Error(error: StoreError)

  datatype Reply = Reply(channel: Channel, result: QueryResult)

  /** What a Kademlia progress event reports. */
  datatype Progress =
    | FoundRecord(value: Bytes)
    | FinishedWithNoAdditionalRecord
    | GetFailed
    | PutDone
    | PutFailed
    | OtherProgress

  /** `sent` lists the replies in the order in which they were sent. */
  datatype Loop = Loop(store: Store, pending: map<QueryId, Channel>, sent: seq<Reply>, storedRecords: nat)

  /**
   A command with Kademlia's response to it (a put may fail to start, a get always starts a
   query), a progress event, or an operation of Kademlia's own on the store.
   */
  datatype Event =
    | PutCommand(key: Key, value: Bytes, reply: Channel, io: bool, started: Option<QueryId>)
    | GetCommand(key: Key, reply: Channel, query: QueryId)
    | Progressed(id: QueryId, progress: Progress)
    | StoreOp(op: Op)

  function Initial(store: Store): (s: Loop) { Loop(store, map[], [], 0) }

  function RecordOf(key: Key, value: Bytes): (r: Record) { Record(key, value, None, None) }

  /** The reply that a progress event gives, if it gives one. */
  function Answer(p: Progress): (r: Option<QueryResult>)
  {
    match p
    case FoundRecord(v) => Some(Found(v))
    case FinishedWithNoAdditionalRecord => Some(NotFound)
    case GetFailed => Some(NotFound)
    case PutDone => Some(PutOk)
    case PutFailed => Some(PutOk)
    case OtherProgress => None
  }

  function Send(s: Loop, c: Channel, r: QueryResult): (s': Loop)
  {
    s.(sent := s.sent + [Reply(c, r)])
  }

  function Next(admit: Admission, s: Loop, e: Event): (s': Loop)
  {
    match e
    case PutCommand(k, v, c, io, started) =>
      var res := PutResult(admit, s.store, RecordOf(k, v));
      if res.Err? then Send(s, c, Error(res.error)) else
      var s1 := s.(store := Put(admit, s.store, RecordOf(k, v), io), storedRecords := s.storedRecords + 1);
      if started.Some? then s1.(pending := s1.pending[started.value := c])
      else Send(s1, c, PutOk)
    case GetCommand(k, c, query) =>
      if k in s.store.records then Send(s, c, Found(s.store.records[k].value))
      else s.(pending := s.pending[query := c])
    case Progressed(id, p) =>
      var answer := Answer(p);
      if answer.None? || id !in s.pending then s
      else Send(s.(pending := s.pending - {id}), s.pending[id], answer.value)
    case StoreOp(op) =>
      s.(store := Step(admit, s.store, op))
  }

  function LoopRun(admit: Admission, s: Loop, events: seq<Event>): (s': Loop)
  {
    if events == [] then s
    else Next(admit, LoopRun(admit, s, events[..|events| - 1]), events[|events| - 1])
  }

  // --- reply conservation ------------------------------------------------

  predicate IsCommand(e: Event) { e.PutCommand? || e.GetCommand? }

  /** Every command brings its own reply channel. */
  ghost predicate DistinctChannels(events: seq<Event>)
  {
    forall i, j :: 0 <= i < j < |events| && IsCommand(events[i]) && IsCommand(events[j]) ==>
      events[i].reply != events[j].reply
  }

  ghost predicate Taken(events: seq<Event>, c: Channel)
  {
    exists i :: 0 <= i < |events| && IsCommand(events[i]) && events[i].reply == c
  }

  ghost predicate Answered(s: Loop, c: Channel) { exists j :: 0 <= j < |s.sent| && s.sent[j].channel == c }

  ghost predicate Waiting(s: Loop, c: Channel) { exists id :: id in s.pending && s.pending[id] == c }

  /** No channel is answered twice, waits twice, or is answered and waits; and only commands' channels occur. */
  ghost predicate AtMostOnce(s: Loop, events: seq<Event>)
  {
    && (forall i, j :: 0 <= i < j < |s.sent| ==> s.sent[i].channel != s.sent[j].channel)
    && (forall p, q :: p in s.pending && q in s.pending && p != q ==> s.pending[p] != s.pending[q])
    && (forall id, j :: id in s.pending && 0 <= j < |s.sent| ==> s.pending[id] != s.sent[j].channel)
    && (forall j :: 0 <= j < |s.sent| ==> Taken(events, s.sent[j].channel))
    && (forall id :: id in s.pending ==> Taken(events, s.pending[id]))
  }

  lemma TakenGrows(events: seq<Event>, n: nat, c: Channel)
    requires n <= |events| && Taken(events[..n], c)
    ensures Taken(events, c)
  {
    var i :| 0 <= i < n && IsCommand(events[..n][i]) && events[..n][i].reply == c;
    assert events[i].reply == c;
  }

  lemma NewChannel(events: seq<Event>, n: nat)
    requires n < |events| && DistinctChannels(events) && IsCommand(events[n])
    ensures Taken(events, events[n].reply) && !Taken(events[..n], events[n].reply)
  {
  }

  lemma AtMostOnceGrows(s: Loop, events: seq<Event>, n: nat)
    requires n <= |events| && AtMostOnce(s, events[..n])
    ensures AtMostOnce(s, events)
  {
    forall c | Taken(events[..n], c) ensures Taken(events, c) { TakenGrows(events, n, c); }
  }

  lemma SendKeepsAtMostOnce(s: Loop, events: seq<Event>, c: Channel, r: QueryResult)
    requires AtMostOnce(s, events) && Taken(events, c) && !Accounted(s, c)
    ensures AtMostOnce(Send(s, c, r), events)
  {
  }

  lemma StartKeepsAtMostOnce(s: Loop, events: seq<Event>, c: Channel, id: QueryId)
    requires AtMostOnce(s, events) && Taken(events, c) && !Accounted(s, c)
    ensures AtMostOnce(s.(pending := s.pending[id := c]), events)
  {
  }

  lemma AnswerKeepsAtMostOnce(s: Loop, events: seq<Event>, id: QueryId, r: QueryResult)
    requires AtMostOnce(s, events) && id in s.pending
    ensures AtMostOnce(Send(s.(pending := s.pending - {id}), s.pending[id], r), events)
  {
    var mid := s.(pending := s.pending - {id});
    assert AtMostOnce(mid, events);
    assert !Accounted(mid, s.pending[id]);
    SendKeepsAtMostOnce(mid, events, s.pending[id], r);
  }

  /** Only the store may differ. */
  lemma StoreIsNoReply(s: Loop, t: Loop, events: seq<Event>)
    requires AtMostOnce(s, events) && t.pending == s.pending && t.sent == s.sent
    ensures AtMostOnce(t, events)
    ensures forall c :: Accounted(t, c) <==> Accounted(s, c)
  {
  }

  lemma CommandKeepsAtMostOnce(admit: Admission, s: Loop, events: seq<Event>, e: Event)
    requires AtMostOnce(s, events) && IsCommand(e) && Taken(events, e.reply) && !Accounted(s, e.reply)
    ensures AtMostOnce(Next(admit, s, e), events)
  {
    var s' := Next(admit, s, e);
    var s1 := s.(store := s'.store, storedRecords := s'.storedRecords);
    StoreIsNoReply(s, s1, events);
    var id := Starts(admit, s, e);
    if id.Some? {
      StartKeepsAtMostOnce(s1, events, e.reply, id.value);
      assert s' == s1.(pending := s1.pending[id.value := e.reply]);
    } else {
      var r := s'.sent[|s.sent|].result;
      SendKeepsAtMostOnce(s1, events, e.reply, r);
      assert s' == Send(s1, e.reply, r);
    }
  }

  /** Replies never repeat, whatever query ids and progress events Kademlia produces. */
  lemma {:induction false} RunAnswersAtMostOnce(admit: Admission, store: Store, events: seq<Event>)
    requires DistinctChannels(events)
    ensures AtMostOnce(LoopRun(admit, Initial(store), events), events)
  {
    if events == [] {
    } else {
      var n, e := |events| - 1, events[|events| - 1];
      var s := LoopRun(admit, Initial(store), events[..n]);
      RunAnswersAtMostOnce(admit, store, events[..n]);
      AtMostOnceGrows(s, events, n);
      if IsCommand(e) {
        NewChannel(events, n);
        assert !Accounted(s, e.reply);
        CommandKeepsAtMostOnce(admit, s, events, e);
      } else if e.Progressed? {
        if Answer(e.progress).Some? && e.id in s.pending {
          AnswerKeepsAtMostOnce(s, events, e.id, Answer(e.progress).value);
        }
      } else {
        StoreIsNoReply(s, Next(admit, s, e), events);
      }
    }
  }

  /** The query id that an event puts in the pending map. */
  function Starts(admit: Admission, s: Loop, e: Event): (id: Option<QueryId>)
  {
    match e
    case PutCommand(k, v, _, _, started) =>
      if PutResult(admit, s.store, RecordOf(k, v)).Ok? then started else None
    case GetCommand(k, _, query) =>
      if k in s.store.records then None else Some(query)
    case _ => None
  }

  ghost predicate Collides(admit: Admission, s: Loop, e: Event)
  {
    var id := Starts(admit, s, e);
    id.Some? && id.value in s.pending
  }

  ghost predicate CollidesAt(admit: Admission, store: Store, events: seq<Event>, n: nat)
    requires n < |events|
  {
    Collides(admit, LoopRun(admit, Initial(store), events[..n]), events[n])
  }

  /** No query is started under an id that still has a reply pending. */
  ghost predicate FreshIds(admit: Admission, store: Store, events: seq<Event>)
  {
    forall n: nat :: n < |events| ==> !CollidesAt(admit, store, events, n)
  }

  ghost predicate Accounted(s: Loop, c: Channel) { Answered(s, c) || Waiting(s, c) }

  ghost predicate AllAccounted(s: Loop, events: seq<Event>)
  {
    forall c :: Taken(events, c) ==> Accounted(s, c)
  }

  /** Without a collision a step loses no channel, and it accounts for its own. */
  lemma StepAccounts(admit: Admission, s: Loop, e: Event, c: Channel)
    requires !Collides(admit, s, e) && (Accounted(s, c) || (IsCommand(e) && e.reply == c))
    ensures Accounted(Next(admit, s, e), c)
  {
    var s' := Next(admit, s, e);
    if Answered(s, c) {
      var j :| 0 <= j < |s.sent| && s.sent[j].channel == c;
      assert s'.sent[j].channel == c;
    } else if Waiting(s, c) {
      var id :| id in s.pending && s.pending[id] == c;
      if id in s'.pending {
        assert s'.pending[id] == c;
      } else {
        assert s'.sent[|s.sent|].channel == c;
      }
    } else {
      var id := Starts(admit, s, e);
      if id.Some? {
        assert s'.pending[id.value] == c;
      } else {
        assert s'.sent[|s.sent|].channel == c;
      }
    }
  }

  /** A step accounts for no channel but its own and those accounted for before. */
  lemma StepInventsNone(admit: Admission, s: Loop, e: Event, c: Channel)
    requires Accounted(Next(admit, s, e), c) && !(IsCommand(e) && e.reply == c)
    ensures Accounted(s, c)
  {
    var s' := Next(admit, s, e);
    if Answered(s', c) {
      var j :| 0 <= j < |s'.sent| && s'.sent[j].channel == c;
      if j < |s.sent| {
        assert s.sent[j].channel == c;
      } else {
        assert e.Progressed? && s.pending[e.id] == c;
      }
    } else {
      var id :| id in s'.pending && s'.pending[id] == c;
      assert id in s.pending && s.pending[id] == c;
    }
  }

  /** A collision loses the channel that was pending under the id. */
  lemma CollisionLoses(admit: Admission, s: Loop, events: seq<Event>, n: nat)
    requires n < |events| && DistinctChannels(events) && AtMostOnce(s, events[..n]) && Collides(admit, s, events[n])
    ensures exists c :: Taken(events, c) && !Accounted(Next(admit, s, events[n]), c)
  {
    var e := events[n];
    var id := Starts(admit, s, e).value;
    var c := s.pending[id];
    TakenGrows(events, n, c);
    NewChannel(events, n);
    var s' := Next(admit, s, e);
    assert s'.sent == s.sent && s'.pending == s.pending[id := e.reply];
    assert !Accounted(s', c);
  }

  /**
   Reply conservation. Each command taken is answered exactly once or waits in exactly one
   pending entry: at most once always, at least once if and only if no query was started
   under an id that was still pending.
   */
  lemma {:induction false} RepliesConserved(admit: Admission, store: Store, events: seq<Event>)
    requires DistinctChannels(events)
    ensures AtMostOnce(LoopRun(admit, Initial(store), events), events)
    ensures AllAccounted(LoopRun(admit, Initial(store), events), events) <==> FreshIds(admit, store, events)
  {
    RunAnswersAtMostOnce(admit, store, events);
    if events == [] {
    } else {
      var n := |events| - 1;
      var front, e := events[..n], events[n];
      var s := LoopRun(admit, Initial(store), front);
      RepliesConserved(admit, store, front);
      FreshPrefix(admit, store, events);
      if !FreshIds(admit, store, front) {
        LossIsForGood(admit, s, events);
      } else if Collides(admit, s, e) {
        CollisionLoses(admit, s, events, n);
      } else {
        forall c | Taken(events, c) ensures Accounted(Next(admit, s, e), c) {
          assert Taken(front, c) || (IsCommand(e) && e.reply == c) by { TakenBefore(events, c); }
          StepAccounts(admit, s, e, c);
        }
      }
    }
  }

  lemma TakenBefore(events: seq<Event>, c: Channel)
    requires events != [] && Taken(events, c)
    ensures Taken(events[..|events| - 1], c) || (IsCommand(events[|events| - 1]) && events[|events| - 1].reply == c)
  {
    var i :| 0 <= i < |events| && IsCommand(events[i]) && events[i].reply == c;
    if i < |events| - 1 {
      assert events[..|events| - 1][i].reply == c;
    }
  }

  lemma FreshPrefix(admit: Admission, store: Store, events: seq<Event>)
    requires events != []
    ensures var n := |events| - 1;
            FreshIds(admit, store, events) <==>
              FreshIds(admit, store, events[..n]) && !CollidesAt(admit, store, events, n)
  {
    var n := |events| - 1;
    forall m: nat | m < n ensures CollidesAt(admit, store, events[..n], m) <==> CollidesAt(admit, store, events, m) {
      CollidesAtPrefix(admit, store, events, n, m);
    }
  }

  lemma CollidesAtPrefix(admit: Admission, store: Store, events: seq<Event>, n: nat, m: nat)
    requires m < n <= |events|
    ensures CollidesAt(admit, store, events[..n], m) <==> CollidesAt(admit, store, events, m)
  {
    assert events[..n][..m] == events[..m];
  }

  /** A lost channel stays lost: no later event can send on it. */
  lemma LossIsForGood(admit: Admission, s: Loop, events: seq<Event>)
    requires events != [] && DistinctChannels(events) && !AllAccounted(s, events[..|events| - 1])
    ensures !AllAccounted(Next(admit, s, events[|events| - 1]), events)
  {
    var n := |events| - 1;
    var c :| Taken(events[..n], c) && !Accounted(s, c);
    TakenGrows(events, n, c);
    if IsCommand(events[n]) { NewChannel(events, n); }
    if Accounted(Next(admit, s, events[n]), c) {
      StepInventsNone(admit, s, events[n], c);
    }
  }

  // --- what is answered --------------------------------------------------

  ghost predicate PutChannel(events: seq<Event>, c: Channel)
  {
    exists i :: 0 <= i < |events| && events[i].PutCommand? && events[i].reply == c
  }

  ghost predicate GetChannel(events: seq<Event>, c: Channel)
  {
    exists i :: 0 <= i < |events| && events[i].GetCommand? && events[i].reply == c
  }

  predicate AnswersPut(r: QueryResult) { r.PutOk? || r.Error? }

  /** The result is of the kind that `c`'s command expects. */
  ghost predicate Fits(events: seq<Event>, c: Channel, r: QueryResult)
  {
    if AnswersPut(r) then PutChannel(events, c) else GetChannel(events, c)
  }

  ghost predicate RepliesFit(s: Loop, events: seq<Event>)
  {
    forall j :: 0 <= j < |s.sent| ==> Fits(events, s.sent[j].channel, s.sent[j].result)
  }

  /** What a progress event answers to a pending channel is of that channel's kind. */
  ghost predicate AnswerFits(s: Loop, events: seq<Event>, e: Event)
  {
    e.Progressed? && e.id in s.pending && Answer(e.progress).Some? ==>
      Fits(events, s.pending[e.id], Answer(e.progress).value)
  }

  ghost predicate AnswerFitsAt(admit: Admission, store: Store, events: seq<Event>, n: nat)
    requires n < |events|
  {
    AnswerFits(LoopRun(admit, Initial(store), events[..n]), events[..n], events[n])
  }

  ghost predicate AnswersFit(admit: Admission, store: Store, events: seq<Event>)
  {
    forall n: nat :: n < |events| ==> AnswerFitsAt(admit, store, events, n)
  }

  lemma AnswerFitsAtPrefix(admit: Admission, store: Store, events: seq<Event>, n: nat, m: nat)
    requires m < n <= |events|
    ensures AnswerFitsAt(admit, store, events[..n], m) <==> AnswerFitsAt(admit, store, events, m)
  {
    assert events[..n][..m] == events[..m];
  }

  lemma AnswersFitPrefix(admit: Admission, store: Store, events: seq<Event>)
    requires events != []
    ensures var n := |events| - 1;
            AnswersFit(admit, store, events) <==>
              AnswersFit(admit, store, events[..n]) && AnswerFitsAt(admit, store, events, n)
  {
    var n := |events| - 1;
    forall m: nat | m < n
      ensures AnswerFitsAt(admit, store, events[..n], m) <==> AnswerFitsAt(admit, store, events, m) {
      AnswerFitsAtPrefix(admit, store, events, n, m);
    }
  }

  /** A channel taken earlier keeps its kind when another event comes. */
  lemma FitsStable(events: seq<Event>, n: nat, c: Channel, r: QueryResult)
    requires n == |events| - 1 && DistinctChannels(events) && Taken(events[..n], c)
    ensures Fits(events[..n], c, r) <==> Fits(events, c, r)
  {
    var i :| 0 <= i < n && IsCommand(events[..n][i]) && events[..n][i].reply == c;
    assert events[i].reply == c;
    if Fits(events, c, r) {
      var j :| 0 <= j < |events| && IsCommand(events[j]) && events[j].reply == c
               && (events[j].PutCommand? <==> AnswersPut(r));
      assert j == i;
      assert events[..n][i] == events[i];
    }
    if Fits(events[..n], c, r) {
      var j :| 0 <= j < n && IsCommand(events[..n][j]) && events[..n][j].reply == c
               && (events[..n][j].PutCommand? <==> AnswersPut(r));
      assert events[j] == events[..n][j];
    }
  }

  lemma SendFits(s: Loop, events: seq<Event>, c: Channel, r: QueryResult)
    ensures RepliesFit(Send(s, c, r), events) <==> RepliesFit(s, events) && Fits(events, c, r)
  {
    var s' := Send(s, c, r);
    assert s'.sent[|s.sent|] == Reply(c, r);
    assert forall j :: 0 <= j < |s.sent| ==> s'.sent[j] == s.sent[j];
  }

  /** A command's own reply always fits; an event's fits when its kind matches. */
  lemma StepRepliesFit(admit: Admission, s: Loop, events: seq<Event>, e: Event)
    requires events != [] && e == events[|events| - 1]
    ensures RepliesFit(Next(admit, s, e), events) <==> RepliesFit(s, events) && AnswerFits(s, events, e)
  {
    var s' := Next(admit, s, e);
    if IsCommand(e) {
      assert events[|events| - 1].reply == e.reply;
      var s1 := s.(store := s'.store, storedRecords := s'.storedRecords);
      assert RepliesFit(s1, events) <==> RepliesFit(s, events);
      if Starts(admit, s, e).None? {
        var r := s'.sent[|s.sent|].result;
        assert s' == Send(s1, e.reply, r);
        SendFits(s1, events, e.reply, r);
      }
    } else if e.Progressed? && Answer(e.progress).Some? && e.id in s.pending {
      SendFits(s.(pending := s.pending - {e.id}), events, s.pending[e.id], Answer(e.progress).value);
    }
  }

  /** Step by step: all replies fit exactly when each one that an event sends does. */
  lemma {:induction false} RepliesFitIffAnswersFit(admit: Admission, store: Store, events: seq<Event>)
    requires DistinctChannels(events)
    ensures RepliesFit(LoopRun(admit, Initial(store), events), events) <==> AnswersFit(admit, store, events)
  {
    if events == [] {
    } else {
      var n, e := |events| - 1, events[|events| - 1];
      var front := events[..n];
      var s := LoopRun(admit, Initial(store), front);
      RepliesFitIffAnswersFit(admit, store, front);
      RunAnswersAtMostOnce(admit, store, front);
      AnswersFitPrefix(admit, store, events);
      StepRepliesFit(admit, s, events, e);
      forall j | 0 <= j < |s.sent|
        ensures Fits(front, s.sent[j].channel, s.sent[j].result) <==> Fits(events, s.sent[j].channel, s.sent[j].result) {
        FitsStable(events, n, s.sent[j].channel, s.sent[j].result);
      }
      if e.Progressed? && e.id in s.pending && Answer(e.progress).Some? {
        FitsStable(events, n, s.pending[e.id], Answer(e.progress).value);
      }
    }
  }

  // The kinds of queries and of the events that report on them, read off the trace.

  /** The event reports the outcome of the query. */
  predicate Concludes(e: Event, id: QueryId) { e.Progressed? && e.id == id && e.progress != OtherProgress }

  /** The event before position `n` that opened the query of that id, unless another has answered it since. */
  function Opener(admit: Admission, store: Store, events: seq<Event>, id: QueryId, n: nat): (i: Option<nat>)
    requires n <= |events|
    ensures i.Some? ==> i.value < n && IsCommand(events[i.value])
  {
    if n == 0 then None else
    var e := events[n - 1];
    if Starts(admit, LoopRun(admit, Initial(store), events[..n - 1]), e) == Some(id) then Some(n - 1)
    else if Concludes(e, id) then None
    else Opener(admit, store, events, id, n - 1)
  }

  lemma NextPending(admit: Admission, s: Loop, e: Event, id: QueryId)
    ensures var pending := Next(admit, s, e).pending;
            if Starts(admit, s, e) == Some(id) then IsCommand(e) && id in pending && pending[id] == e.reply
            else if Concludes(e, id) then id !in pending
            else (id in pending <==> id in s.pending) && (id in pending ==> pending[id] == s.pending[id])
  {
  }

  /** What is pending under an id is the channel of the command that opened the query. */
  lemma {:induction false} PendingIsOpener(admit: Admission, store: Store, events: seq<Event>, id: QueryId, n: nat)
    requires n <= |events|
    ensures var pending := LoopRun(admit, Initial(store), events[..n]).pending;
            match Opener(admit, store, events, id, n)
            case None => id !in pending
            case Some(i) => id in pending && pending[id] == events[i].reply
  {
    if n == 0 {
    } else {
      assert events[..n][..n - 1] == events[..n - 1] && events[..n][n - 1] == events[n - 1];
      PendingIsOpener(admit, store, events, id, n - 1);
      NextPending(admit, LoopRun(admit, Initial(store), events[..n - 1]), events[n - 1], id);
    }
  }

  /** The progress concerns a put. */
  predicate ReportsPut(p: Progress) { p.PutDone? || p.PutFailed? }

  /** If the event at position `n` answers an open query, it reports on a put exactly when a put opened that query. */
  ghost predicate KindMatches(admit: Admission, store: Store, events: seq<Event>, n: nat)
    requires n < |events|
  {
    events[n].Progressed? && events[n].progress != OtherProgress ==>
      match Opener(admit, store, events, events[n].id, n)
      case None => true
      case Some(i) => events[i].PutCommand? <==> ReportsPut(events[n].progress)
  }

  /** Kademlia reports on each query as on one of its kind. */
  ghost predicate KindsMatch(admit: Admission, store: Store, events: seq<Event>)
  {
    forall n: nat :: n < |events| ==> KindMatches(admit, store, events, n)
  }

  lemma ChannelKind(events: seq<Event>, i: nat, r: QueryResult)
    requires DistinctChannels(events) && i < |events| && IsCommand(events[i])
    ensures Fits(events, events[i].reply, r) <==> (events[i].PutCommand? <==> AnswersPut(r))
  {
    var c := events[i].reply;
    forall k | 0 <= k < |events| && IsCommand(events[k]) && events[k].reply == c ensures k == i {
    }
  }

  lemma KindMatchesIffAnswerFits(admit: Admission, store: Store, events: seq<Event>, n: nat)
    requires DistinctChannels(events) && n < |events|
    ensures KindMatches(admit, store, events, n) <==> AnswerFitsAt(admit, store, events, n)
  {
    if events[n].Progressed? && events[n].progress != OtherProgress {
      var id, r := events[n].id, Answer(events[n].progress).value;
      PendingIsOpener(admit, store, events, id, n);
      var opener := Opener(admit, store, events, id, n);
      if opener.Some? {
        assert events[..n][opener.value] == events[opener.value];
        ChannelKind(events[..n], opener.value, r);
      }
    }
  }

  /**
   Puts are answered only PutOk or Error and gets only Found or NotFound, if and only if every
   progress event that answers an open query reports on a put exactly when a put opened that
   query. The handler itself does not check this.
   */
  lemma RepliesFitIffKindsMatch(admit: Admission, store: Store, events: seq<Event>)
    requires DistinctChannels(events)
    ensures RepliesFit(LoopRun(admit, Initial(store), events), events) <==> KindsMatch(admit, store, events)
  {
    RepliesFitIffAnswersFit(admit, store, events);
    forall n: nat | n < |events|
      ensures KindMatches(admit, store, events, n) <==> AnswerFitsAt(admit, store, events, n) {
      KindMatchesIffAnswerFits(admit, store, events, n);
    }
  }

  /** Was the put at position `i` accepted by the store when its turn came? */
  function PutOutcome(admit: Admission, store: Store, events: seq<Event>, i: nat): (r: Result<(), StoreError>)
    requires i < |events| && events[i].PutCommand?
  {
    PutResult(admit, LoopRun(admit, Initial(store), events[..i]).store, RecordOf(events[i].key, events[i].value))
  }

  /** What is sent on `c` or pending for it agrees with the store's outcome. */
  ghost predicate Truthful(s: Loop, c: Channel, outcome: Result<(), StoreError>)
  {
    && (forall j :: 0 <= j < |s.sent| && s.sent[j].channel == c ==>
          match outcome
          case Ok(_) => !s.sent[j].result.Error?
          case Err(e) => s.sent[j].result == Error(e))
    && (forall id :: id in s.pending && s.pending[id] == c ==> outcome.Ok?)
  }

  lemma OtherStepTruthful(admit: Admission, s: Loop, e: Event, c: Channel, outcome: Result<(), StoreError>)
    requires Truthful(s, c, outcome) && !(IsCommand(e) && e.reply == c)
    ensures Truthful(Next(admit, s, e), c, outcome)
  {
  }

  lemma OwnStepTruthful(admit: Admission, s: Loop, e: Event)
    requires e.PutCommand? && !Accounted(s, e.reply)
    ensures Truthful(Next(admit, s, e), e.reply, PutResult(admit, s.store, RecordOf(e.key, e.value)))
  {
  }

  /**
   An accepted put is never answered with an error, and a refused one is answered with the
   store's error only, in every run. With progress events of the right kind, PutOk is
   therefore sent exactly to the accepted puts.
   */
  lemma {:induction false} RunAnswersPutsTruthfully(admit: Admission, store: Store, events: seq<Event>, i: nat)
    requires DistinctChannels(events) && i < |events| && events[i].PutCommand?
    ensures Truthful(LoopRun(admit, Initial(store), events), events[i].reply, PutOutcome(admit, store, events, i))
  {
    var n, e := |events| - 1, events[|events| - 1];
    var front := events[..n];
    var s := LoopRun(admit, Initial(store), front);
    if i < n {
      assert front[..i] == events[..i];
      RunAnswersPutsTruthfully(admit, store, front, i);
      OtherStepTruthful(admit, s, e, events[i].reply, PutOutcome(admit, store, events, i));
    } else {
      RunAnswersAtMostOnce(admit, store, front);
      NewChannel(events, n);
      OwnStepTruthful(admit, s, e);
    }
  }

  /** What fits the channel of a put answers a put. */
  lemma PutFits(events: seq<Event>, c: Channel, r: QueryResult, i: nat)
    requires DistinctChannels(events) && Fits(events, c, r)
    requires i < |events| && events[i].PutCommand? && events[i].reply == c
    ensures AnswersPut(r)
  {
    forall k | 0 <= k < |events| && events[k].GetCommand? ensures events[k].reply != c {
      assert IsCommand(events[k]) && IsCommand(events[i]);
    }
  }

  /** An accepted put that was answered was answered PutOk, and no other command was. */
  lemma PutOkIffAccepted(admit: Admission, store: Store, events: seq<Event>, j: nat)
    requires DistinctChannels(events) && KindsMatch(admit, store, events)
    requires j < |LoopRun(admit, Initial(store), events).sent|
    ensures var sent := LoopRun(admit, Initial(store), events).sent;
            sent[j].result.PutOk? <==>
              exists i :: && 0 <= i < |events| && events[i].PutCommand? && events[i].reply == sent[j].channel
                          && PutOutcome(admit, store, events, i).Ok?
  {
    var s := LoopRun(admit, Initial(store), events);
    var c, r := s.sent[j].channel, s.sent[j].result;
    RepliesFitIffKindsMatch(admit, store, events);
    assert Fits(events, c, r);
    forall i | 0 <= i < |events| && events[i].PutCommand? && events[i].reply == c
      ensures r.PutOk? <==> PutOutcome(admit, store, events, i).Ok?
    {
      RunAnswersPutsTruthfully(admit, store, events, i);
      PutFits(events, c, r, i);
    }
  }

  // --- reads -------------------------------------------------------------

  predicate Removes(e: Event, key: Key) { e.StoreOp? && e.op.RemoveOp? && e.op.key == key }

  /** `st'` holds at `key` at least what `st` holds there. */
  ghost predicate KeepsHeld(st: Store, st': Store, key: Key)
  {
    key in st.records && key in st.seqCache ==>
      key in st'.records && key in st'.seqCache && st.seqCache[key] <= st'.seqCache[key]
  }

  lemma PutKeepsHeld(admit: Admission, st: Store, r: Record, io: bool, key: Key)
    ensures KeepsHeld(st, Put(admit, st, r, io), key)
  {
  }

  /** The store after an event holds at least what it held, unless the event removes it. */
  lemma NextKeepsHeld(admit: Admission, s: Loop, e: Event, key: Key)
    requires Coherent(admit, s.store)
    ensures Coherent(admit, Next(admit, s, e).store)
    ensures !Removes(e, key) ==> KeepsHeld(s.store, Next(admit, s, e).store, key)
  {
    match e
    case PutCommand(k, v, _, io, _) =>
      PutKeepsInvariant(admit, s.store, RecordOf(k, v), io);
      PutKeepsHeld(admit, s.store, RecordOf(k, v), io, key);
    case StoreOp(op) =>
      StepKeepsInvariant(admit, s.store, op);
      if op.PutOp? { PutKeepsHeld(admit, s.store, op.record, op.io, key); }
    case GetCommand(_, _, _) =>
    case Progressed(_, _) =>
  }

  lemma {:induction false} RunKeepsHeld(admit: Admission, s: Loop, events: seq<Event>, key: Key)
    requires Coherent(admit, s.store)
    ensures Coherent(admit, LoopRun(admit, s, events).store)
    ensures (forall i :: 0 <= i < |events| ==> !Removes(events[i], key)) ==>
              KeepsHeld(s.store, LoopRun(admit, s, events).store, key)
  {
    if events == [] {
    } else {
      var n := |events| - 1;
      RunKeepsHeld(admit, s, events[..n], key);
      NextKeepsHeld(admit, LoopRun(admit, s, events[..n]), events[n], key);
    }
  }

  lemma LoopRunStep(admit: Admission, s: Loop, events: seq<Event>, e: Event)
    ensures LoopRun(admit, s, events + [e]) == Next(admit, LoopRun(admit, s, events), e)
  {
    assert (events + [e])[..|events|] == events;
  }

  lemma LastApart(a: seq<Event>, b: seq<Event>)
    requires b != []
    ensures var front, last := b[..|b| - 1], b[|b| - 1]; b == front + [last] && a + b == (a + front) + [last]
  {
  }

  lemma {:induction false} LoopRunConcat(admit: Admission, s: Loop, a: seq<Event>, b: seq<Event>)
    ensures LoopRun(admit, s, a + b) == LoopRun(admit, LoopRun(admit, s, a), b)
  {
    if b == [] {
      assert a + b == a;
    } else {
      var front, last := b[..|b| - 1], b[|b| - 1];
      LoopRunConcat(admit, s, a, front);
      LoopRunStep(admit, s, a + front, last);
      LoopRunStep(admit, LoopRun(admit, s, a), front, last);
      LastApart(a, b);
    }
  }

  /** The store when the event at position `n` comes. */
  function StoreAt(admit: Admission, store: Store, events: seq<Event>, n: nat): (st: Store)
    requires n <= |events|
  {
    LoopRun(admit, Initial(store), events[..n]).store
  }

  /** From position `a` to `b`, without removes of `key`, what is held there only gets newer. */
  lemma HeldBetween(admit: Admission, store: Store, events: seq<Event>, a: nat, b: nat, key: Key)
    requires Coherent(admit, store) && a <= b <= |events|
    requires forall i :: a <= i < b ==> !Removes(events[i], key)
    ensures Coherent(admit, StoreAt(admit, store, events, a)) && Coherent(admit, StoreAt(admit, store, events, b))
    ensures KeepsHeld(StoreAt(admit, store, events, a), StoreAt(admit, store, events, b), key)
  {
    RunKeepsHeld(admit, Initial(store), events[..a], key);
    var s := LoopRun(admit, Initial(store), events[..a]);
    forall i | 0 <= i < b - a ensures !Removes(events[a..b][i], key) {
      assert events[a..b][i] == events[a + i];
    }
    RunKeepsHeld(admit, s, events[a..b], key);
    RunThrough(admit, store, events, a, b);
  }

  lemma RunThrough(admit: Admission, store: Store, events: seq<Event>, a: nat, b: nat)
    requires a <= b <= |events|
    ensures LoopRun(admit, Initial(store), events[..b])
         == LoopRun(admit, LoopRun(admit, Initial(store), events[..a]), events[a..b])
  {
    assert events[..a] + events[a..b] == events[..b];
    LoopRunConcat(admit, Initial(store), events[..a], events[a..b]);
  }

  /** The get at position `g` is answered at once, with a value of seq at least `least`. */
  ghost predicate ReadsAtLeast(admit: Admission, store: Store, events: seq<Event>, g: nat, least: u64)
    requires g < |events| && events[g].GetCommand?
  {
    var s := LoopRun(admit, Initial(store), events[..g]);
    exists w :: && Next(admit, s, events[g]).sent == s.sent + [Reply(events[g].reply, Found(w))]
                && admit(events[g].key, w).Some? && admit(events[g].key, w).value >= least
  }

  /** A get is answered at once exactly from what the store then holds. */
  lemma ReadShowsHeld(admit: Admission, store: Store, events: seq<Event>, g: nat, least: u64)
    requires g < |events| && events[g].GetCommand? && Coherent(admit, StoreAt(admit, store, events, g))
    ensures ReadsAtLeast(admit, store, events, g, least) <==>
              var st := StoreAt(admit, store, events, g);
              events[g].key in st.records && st.seqCache[events[g].key] >= least
  {
    var s := LoopRun(admit, Initial(store), events[..g]);
    var k, c := events[g].key, events[g].reply;
    if k in s.store.records {
      var w := s.store.records[k].value;
      assert Next(admit, s, events[g]).sent == s.sent + [Reply(c, Found(w))];
      assert (s.sent + [Reply(c, Found(w))])[|s.sent|].result == Found(w);
    } else {
      assert Next(admit, s, events[g]).sent == s.sent;
    }
  }

  lemma PutIsHeld(admit: Admission, st: Store, r: Record, io: bool)
    requires Coherent(admit, st) && PutResult(admit, st, r).Ok?
    ensures var st' := Put(admit, st, r, io);
            r.key in st'.records && r.key in st'.seqCache && st'.seqCache[r.key] >= admit(r.key, r.value).value
  {
  }

  /**
   Read your writes. Once a put of seq n at an address was accepted, every later get of that
   address, with no remove of it in between, is answered at once with a seq of at least n.
   */
  lemma ReadYourWrites(admit: Admission, store: Store, events: seq<Event>, p: nat, g: nat)
    requires Coherent(admit, store) && p < g < |events| && events[p].PutCommand? && events[g].GetCommand?
    requires events[p].key == events[g].key && PutOutcome(admit, store, events, p).Ok?
    requires forall i :: p < i < g ==> !Removes(events[i], events[g].key)
    ensures ReadsAtLeast(admit, store, events, g, admit(events[p].key, events[p].value).value)
  {
    var key := events[p].key;
    HeldBetween(admit, store, events, p, p, key);
    PutIsHeld(admit, StoreAt(admit, store, events, p), RecordOf(key, events[p].value), events[p].io);
    assert events[..p + 1][..p] == events[..p];
    assert StoreAt(admit, store, events, p + 1)
        == Put(admit, StoreAt(admit, store, events, p), RecordOf(key, events[p].value), events[p].io);
    HeldBetween(admit, store, events, p + 1, g, key);
    ReadShowsHeld(admit, store, events, g, admit(key, events[p].value).value);
  }

  /**
   Monotonic reads. If a get is answered from the store, every later get of the address, with
   no remove of it in between, is answered at once with at least the same seq.
   */
  lemma MonotonicReads(admit: Admission, store: Store, events: seq<Event>, g: nat, h: nat, least: u64)
    requires Coherent(admit, store) && g < h < |events| && events[g].GetCommand? && events[h].GetCommand?
    requires events[g].key == events[h].key && ReadsAtLeast(admit, store, events, g, least)
    requires forall i :: g <= i < h ==> !Removes(events[i], events[h].key)
    ensures ReadsAtLeast(admit, store, events, h, least)
  {
    HeldBetween(admit, store, events, g, h, events[g].key);
    ReadShowsHeld(admit, store, events, g, least);
    ReadShowsHeld(admit, store, events, h, least);
  }

  // --- when a get returns what was put ------------------------------------

  /** The event puts an acceptable value with a seq above `n` at the key. */
  predicate Supersedes(admit: Admission, e: Event, key: Key, n: u64)
  {
    match e
    case PutCommand(k, v, _, _, _) => k == key && Above(admit(k, v), n)
    case StoreOp(PutOp(r, _)) => r.key == key && Above(admit(r.key, r.value), n)
    case _ => false
  }

  predicate Above(seqNo: Option<u64>, n: u64) { seqNo.Some? && seqNo.value > n }

  ghost predicate Superseded(admit: Admission, events: seq<Event>, a: nat, b: nat, key: Key, n: u64)
    requires b <= |events|
  {
    exists i :: a <= i < b && Supersedes(admit, events[i], key, n)
  }

  lemma PutSupersedes(admit: Admission, st: Store, r: Record, io: bool, key: Key)
    requires Coherent(admit, st) && key in st.records
    ensures NewerIff(st, Put(admit, st, r, io), key,
                     r.key == key && Above(admit(r.key, r.value), st.seqCache[key]))
  {
  }

  lemma NextSupersedes(admit: Admission, s: Loop, e: Event, key: Key)
    requires Coherent(admit, s.store) && key in s.store.records && !Removes(e, key)
    ensures NewerIff(s.store, Next(admit, s, e).store, key, Supersedes(admit, e, key, s.store.seqCache[key]))
  {
    match e
    case PutCommand(k, v, _, io, _) => PutSupersedes(admit, s.store, RecordOf(k, v), io, key);
    case StoreOp(op) =>
      if op.PutOp? { PutSupersedes(admit, s.store, op.record, op.io, key); }
    case GetCommand(_, _, _) =>
    case Progressed(_, _) =>
  }

  lemma SupersededPart(admit: Admission, events: seq<Event>, a: nat, b: nat, key: Key, n: u64)
    requires a <= b <= |events|
    ensures Superseded(admit, events[a..b], 0, b - a, key, n) <==> Superseded(admit, events, a, b, key, n)
  {
    var part := events[a..b];
    if i :| a <= i < b && Supersedes(admit, events[i], key, n) {
      assert Supersedes(admit, part[i - a], key, n);
    }
    if i :| 0 <= i < |part| && Supersedes(admit, part[i], key, n) {
      assert Supersedes(admit, events[a + i], key, n);
    }
  }

  lemma SupersededLast(admit: Admission, events: seq<Event>, key: Key, n: u64)
    requires events != []
    ensures var last := |events| - 1;
            Superseded(admit, events, 0, |events|, key, n)
            <==> Superseded(admit, events[..last], 0, last, key, n) || Supersedes(admit, events[last], key, n)
  {
    SupersededPart(admit, events, 0, |events| - 1, key, n);
  }

  lemma {:induction false} RunSupersedes(admit: Admission, s: Loop, events: seq<Event>, key: Key)
    requires Coherent(admit, s.store) && key in s.store.records
    requires forall i :: 0 <= i < |events| ==> !Removes(events[i], key)
    ensures Coherent(admit, LoopRun(admit, s, events).store)
    ensures NewerIff(s.store, LoopRun(admit, s, events).store, key,
                     Superseded(admit, events, 0, |events|, key, s.store.seqCache[key]))
  {
    if events == [] {
    } else {
      var n := |events| - 1;
      var mid := LoopRun(admit, s, events[..n]);
      RunSupersedes(admit, s, events[..n], key);
      NextSupersedes(admit, mid, events[n], key);
      NextKeepsHeld(admit, mid, events[n], key);
      var held := s.store.seqCache[key];
      SupersededLast(admit, events, key, held);
      NewerTwice(s.store, mid.store, LoopRun(admit, s, events).store, key, Superseded(admit, events[..n], 0, n, key, held),
                 Supersedes(admit, events[n], key, mid.store.seqCache[key]),
                 Superseded(admit, events, 0, |events|, key, held));
    }
  }

  /** From position `a` to `b` what is held gets newer exactly when it is superseded in between. */
  lemma SupersededBetween(admit: Admission, store: Store, events: seq<Event>, a: nat, b: nat, key: Key)
    requires Coherent(admit, store) && a <= b <= |events| && key in StoreAt(admit, store, events, a).records
    requires forall i :: a <= i < b ==> !Removes(events[i], key)
    ensures var st, st' := StoreAt(admit, store, events, a), StoreAt(admit, store, events, b);
            key in st.seqCache && NewerIff(st, st', key, Superseded(admit, events, a, b, key, st.seqCache[key]))
  {
    RunKeepsHeld(admit, Initial(store), events[..a], key);
    var s, part := LoopRun(admit, Initial(store), events[..a]), events[a..b];
    forall i | 0 <= i < |part| ensures !Removes(part[i], key) { assert part[i] == events[a + i]; }
    RunSupersedes(admit, s, part, key);
    RunThrough(admit, store, events, a, b);
    SupersededPart(admit, events, a, b, key, s.store.seqCache[key]);
  }

  /** A put of `v` leaves `v` held: there was room for a new address, or a lower seq, or `v` itself. */
  predicate TakesEffect(admit: Admission, st: Store, key: Key, v: Bytes)
    requires admit(key, v).Some? && (key in st.records ==> key in st.seqCache)
  {
    key !in st.records || st.seqCache[key] < admit(key, v).value || st.records[key].value == v
  }

  lemma EffectOfPut(admit: Admission, st: Store, r: Record, io: bool)
    requires Coherent(admit, st) && PutResult(admit, st, r).Ok?
    ensures var st' := Put(admit, st, r, io);
            && r.key in st'.records && r.key in st'.seqCache && admit(r.key, r.value).Some?
            && (st'.records[r.key].value == r.value <==> TakesEffect(admit, st, r.key, r.value))
            && st'.seqCache[r.key] >= admit(r.key, r.value).value
  {
  }

  /** The get at position `g` is answered at once, with exactly `v`. */
  ghost predicate Reads(admit: Admission, store: Store, events: seq<Event>, g: nat, v: Bytes)
    requires g < |events| && events[g].GetCommand?
  {
    var s := LoopRun(admit, Initial(store), events[..g]);
    Next(admit, s, events[g]).sent == s.sent + [Reply(events[g].reply, Found(v))]
  }

  lemma ReadShowsValue(admit: Admission, store: Store, events: seq<Event>, g: nat, v: Bytes)
    requires g < |events| && events[g].GetCommand?
    ensures Reads(admit, store, events, g, v) <==>
              var st := StoreAt(admit, store, events, g);
              events[g].key in st.records && st.records[events[g].key].value == v
  {
    var s := LoopRun(admit, Initial(store), events[..g]);
    var k, c := events[g].key, events[g].reply;
    if k in s.store.records {
      var w := s.store.records[k].value;
      assert (s.sent + [Reply(c, Found(w))])[|s.sent|] == Reply(c, Found(w));
      assert (s.sent + [Reply(c, Found(v))])[|s.sent|] == Reply(c, Found(v));
    } else {
      assert Next(admit, s, events[g]).sent == s.sent;
    }
  }

  /**
   Exactly when a get returns what was put. PutOk alone does not say so, for the store accepts
   and ignores a put whose seq is not above the one it holds. After an accepted put, a later
   get with no remove in between is answered with that very value if and only if the put took
   effect and nothing with a greater seq was put at the address since.
   */
  lemma ReadsOwnPutIff(admit: Admission, store: Store, events: seq<Event>, p: nat, g: nat)
    requires Coherent(admit, store) && p < g < |events| && events[p].PutCommand? && events[g].GetCommand?
    requires events[p].key == events[g].key && PutOutcome(admit, store, events, p).Ok?
    requires forall i :: p < i < g ==> !Removes(events[i], events[g].key)
    ensures var key, v, st := events[p].key, events[p].value, StoreAt(admit, store, events, p);
            && admit(key, v).Some? && (key in st.records ==> key in st.seqCache)
            && (Reads(admit, store, events, g, v) <==>
                  && TakesEffect(admit, st, key, v)
                  && !Superseded(admit, events, p + 1, g, key, admit(key, v).value))
  {
    var key, v := events[p].key, events[p].value;
    var st, st1 := StoreAt(admit, store, events, p), StoreAt(admit, store, events, p + 1);
    var r := RecordOf(key, v);
    HeldBetween(admit, store, events, p, p, key);
    assert events[..p + 1][..p] == events[..p];
    assert st1 == Put(admit, st, r, events[p].io);
    EffectOfPut(admit, st, r, events[p].io);
    SupersededBetween(admit, store, events, p + 1, g, key);
    HeldBetween(admit, store, events, p + 1, g, key);
    ReadShowsValue(admit, store, events, g, v);
  }
}
