/** Exactly which replies the event loop sends, read off the trace. */
module Replies {
  import opened Wrappers
  import opened StoreSpec
  import opened EventLoop

  /** The command at position `m` is answered `r` as soon as it comes. */
  ghost predicate AnsweredAtOnce(admit: Admission, store: Store, events: seq<Event>, m: nat, r: QueryResult)
    requires m < |events|
  {
    match events[m]
    case PutCommand(_, _, _, _, started) =>
      var outcome := PutOutcome(admit, store, events, m);
      if outcome.Err? then r == Error(outcome.error) else started.None? && r == PutOk
    case GetCommand(key, _, _) =>
      HeldAt(admit, store, events, m, key, r)
    case _ => false
  }

  /** The store holds what `r` says was found when the event at position `m` comes. */
  ghost predicate HeldAt(admit: Admission, store: Store, events: seq<Event>, m: nat, key: Key, r: QueryResult)
    requires m <= |events|
  {
    var held := StoreAt(admit, store, events, m).records;
    key in held && r == Found(held[key].value)
  }

  /** The event at position `m` concludes the query that the command at position `i` opened. */
  ghost predicate ConcludesOpen(admit: Admission, store: Store, events: seq<Event>, m: nat, i: nat)
    requires m < |events|
  {
    && events[m].Progressed? && events[m].progress != OtherProgress
    && Opener(admit, store, events, events[m].id, m) == Some(i)
  }

  /** What is said to a command whose query ends so. A put is told the same whether it failed or not. */
  predicate Says(p: Progress, r: QueryResult)
  {
    match r
    case Found(v) => p == FoundRecord(v)
    case NotFound => p == FinishedWithNoAdditionalRecord || p == GetFailed
    case PutOk => p == PutDone || p == PutFailed
    case Error(_) => false
  }

  /** The event at position `m` has `r` sent on channel `c`. */
  ghost predicate SendsAt(admit: Admission, store: Store, events: seq<Event>, m: nat, c: Channel, r: QueryResult)
    requires m < |events|
  {
    || (IsCommand(events[m]) && events[m].reply == c && AnsweredAtOnce(admit, store, events, m, r))
    || exists i: nat :: ConcludesOpen(admit, store, events, m, i) && events[i].reply == c && Says(events[m].progress, r)
  }

  lemma SendGrows(s: Loop, c: Channel, r: QueryResult, reply: Reply)
    ensures reply in Send(s, c, r).sent <==> reply in s.sent || reply == Reply(c, r)
  {
  }

  lemma SaysAnswer(p: Progress, r: QueryResult)
    ensures Says(p, r) <==> Answer(p) == Some(r)
  {
  }

  /** After the event at position `m` exactly what was sent before is sent, and what the event has sent. */
  ghost predicate SendsExactly(admit: Admission, store: Store, events: seq<Event>, m: nat, c: Channel, r: QueryResult)
    requires m < |events|
  {
    var s := LoopRun(admit, Initial(store), events[..m]);
    Reply(c, r) in Next(admit, s, events[m]).sent <==> Reply(c, r) in s.sent || SendsAt(admit, store, events, m, c, r)
  }

  lemma PutSends(admit: Admission, store: Store, events: seq<Event>, m: nat, c: Channel, r: QueryResult)
    requires m < |events| && events[m].PutCommand?
    ensures SendsExactly(admit, store, events, m, c, r)
  {
    var s, e := LoopRun(admit, Initial(store), events[..m]), events[m];
    var res := PutResult(admit, s.store, RecordOf(e.key, e.value));
    SendGrows(s, e.reply, if res.Err? then Error(res.error) else PutOk, Reply(c, r));
  }

  lemma GetSends(admit: Admission, store: Store, events: seq<Event>, m: nat, c: Channel, r: QueryResult)
    requires m < |events| && events[m].GetCommand?
    ensures SendsExactly(admit, store, events, m, c, r)
  {
    var s, e := LoopRun(admit, Initial(store), events[..m]), events[m];
    if e.key in s.store.records { SendGrows(s, e.reply, Found(s.store.records[e.key].value), Reply(c, r)); }
  }

  lemma ProgressSends(admit: Admission, store: Store, events: seq<Event>, m: nat, c: Channel, r: QueryResult)
    requires m < |events| && events[m].Progressed?
    ensures SendsExactly(admit, store, events, m, c, r)
  {
    var s, id, p := LoopRun(admit, Initial(store), events[..m]), events[m].id, events[m].progress;
    PendingIsOpener(admit, store, events, id, m);
    SaysAnswer(p, r);
    if Answer(p).Some? && id in s.pending {
      SendGrows(s.(pending := s.pending - {id}), s.pending[id], Answer(p).value, Reply(c, r));
      assert ConcludesOpen(admit, store, events, m, Opener(admit, store, events, id, m).value);
    }
  }

  lemma EventSends(admit: Admission, store: Store, events: seq<Event>, m: nat, c: Channel, r: QueryResult)
    requires m < |events|
    ensures SendsExactly(admit, store, events, m, c, r)
  {
    match events[m]
    case PutCommand(_, _, _, _, _) => PutSends(admit, store, events, m, c, r);
    case GetCommand(_, _, _) => GetSends(admit, store, events, m, c, r);
    case Progressed(_, _) => ProgressSends(admit, store, events, m, c, r);
    case StoreOp(_) =>
  }

  /**
   Exactly which replies are sent, in every run: a put refused by the store gets the store's
   error, one that is accepted gets PutOk at once if no query was started for it; a get gets
   what the store holds; and when an event concludes an open query, the command that opened it
   is told what the event says.
   */
  lemma {:induction false} RepliesExactly(admit: Admission, store: Store, events: seq<Event>, n: nat, c: Channel, r: QueryResult)
    requires n <= |events|
    ensures Reply(c, r) in LoopRun(admit, Initial(store), events[..n]).sent <==> Sent(admit, store, events, n, c, r)
  {
    if n == 0 {
    } else {
      RepliesExactly(admit, store, events, n - 1, c, r);
      LastSends(admit, store, events, n, c, r);
      SentLast(admit, store, events, n, c, r);
    }
  }

  lemma LastSends(admit: Admission, store: Store, events: seq<Event>, n: nat, c: Channel, r: QueryResult)
    requires 0 < n <= |events|
    ensures Reply(c, r) in LoopRun(admit, Initial(store), events[..n]).sent <==>
              || Reply(c, r) in LoopRun(admit, Initial(store), events[..n - 1]).sent
              || SendsAt(admit, store, events, n - 1, c, r)
  {
    RunLast(admit, store, events, n);
    EventSends(admit, store, events, n - 1, c, r);
  }

  /** One of the first `n` events has `r` sent on `c`. */
  ghost predicate Sent(admit: Admission, store: Store, events: seq<Event>, n: nat, c: Channel, r: QueryResult)
    requires n <= |events|
  {
    exists m: nat :: m < n && SendsAt(admit, store, events, m, c, r)
  }

  lemma SentLast(admit: Admission, store: Store, events: seq<Event>, n: nat, c: Channel, r: QueryResult)
    requires 0 < n <= |events|
    ensures Sent(admit, store, events, n, c, r) <==>
              Sent(admit, store, events, n - 1, c, r) || SendsAt(admit, store, events, n - 1, c, r)
  {
  }

  lemma RunLast(admit: Admission, store: Store, events: seq<Event>, n: nat)
    requires 0 < n <= |events|
    ensures LoopRun(admit, Initial(store), events[..n])
         == Next(admit, LoopRun(admit, Initial(store), events[..n - 1]), events[n - 1])
  {
    assert events[..n][..n - 1] == events[..n - 1];
  }

  lemma OnlyCommandOf(events: seq<Event>, i: nat, k: nat)
    requires DistinctChannels(events) && i < |events| && k < |events| && IsCommand(events[i]) && IsCommand(events[k])
    ensures events[i].reply == events[k].reply <==> i == k
  {
  }

  /** Some event concludes the query of the command at position `i` with what `r` says. */
  ghost predicate Concluded(admit: Admission, store: Store, events: seq<Event>, i: nat, r: QueryResult)
  {
    exists m: nat :: m < |events| && ConcludesOpen(admit, store, events, m, i) && Says(events[m].progress, r)
  }

  /** What is sent on the channel of the command at position `i`. */
  lemma CommandAnsweredIff(admit: Admission, store: Store, events: seq<Event>, i: nat, r: QueryResult)
    requires DistinctChannels(events) && i < |events| && IsCommand(events[i])
    ensures Reply(events[i].reply, r) in LoopRun(admit, Initial(store), events).sent <==>
              AnsweredAtOnce(admit, store, events, i, r) || Concluded(admit, store, events, i, r)
  {
    var c := events[i].reply;
    assert events[..|events|] == events;
    RepliesExactly(admit, store, events, |events|, c, r);
    forall m: nat | m < |events| && SendsAt(admit, store, events, m, c, r)
      ensures AnsweredAtOnce(admit, store, events, i, r) || Concluded(admit, store, events, i, r) {
      if IsCommand(events[m]) {
        OnlyCommandOf(events, i, m);
      } else {
        var k: nat :| ConcludesOpen(admit, store, events, m, k) && events[k].reply == c;
        OnlyCommandOf(events, i, k);
      }
    }
    if AnsweredAtOnce(admit, store, events, i, r) {
      assert SendsAt(admit, store, events, i, c, r);
    }
    if Concluded(admit, store, events, i, r) {
      var m: nat :| m < |events| && ConcludesOpen(admit, store, events, m, i) && Says(events[m].progress, r);
      assert SendsAt(admit, store, events, m, c, r);
    }
  }

  /**
   A get is answered Found with a value exactly if the store held that value when the get came,
   or an event concluded its query with that record; NotFound exactly if an event concluded its
   query without a record or with a failure; and, if the kinds match, nothing else.
   */
  lemma GetAnsweredIff(admit: Admission, store: Store, events: seq<Event>, g: nat, r: QueryResult)
    requires DistinctChannels(events) && KindsMatch(admit, store, events) && g < |events| && events[g].GetCommand?
    ensures Reply(events[g].reply, r) in LoopRun(admit, Initial(store), events).sent <==>
              match r
              case Found(v) =>
                || (var held := StoreAt(admit, store, events, g).records;
                    events[g].key in held && held[events[g].key].value == v)
                || (exists m: nat :: m < |events| && ConcludesOpen(admit, store, events, m, g)
                                     && events[m].progress == FoundRecord(v))
              case NotFound =>
                exists m: nat :: m < |events| && ConcludesOpen(admit, store, events, m, g)
                                 && events[m].progress in {FinishedWithNoAdditionalRecord, GetFailed}
              case _ => false
  {
    CommandAnsweredIff(admit, store, events, g, r);
    forall m: nat | m < |events| && ConcludesOpen(admit, store, events, m, g) ensures !ReportsPut(events[m].progress) {
      assert KindMatches(admit, store, events, m);
    }
  }

  /** How many of the first `n` events are puts that the store accepted. */
  ghost function AcceptedPuts(admit: Admission, store: Store, events: seq<Event>, n: nat): (r: nat)
    requires n <= |events|
  {
    if n == 0 then 0
    else
      AcceptedPuts(admit, store, events, n - 1)
      + (if events[n - 1].PutCommand? && PutOutcome(admit, store, events, n - 1).Ok? then 1 else 0)
  }

  /** The counter of stored records counts the accepted puts, also those that the store ignores. */
  lemma {:induction false} StoredCountsAccepted(admit: Admission, store: Store, events: seq<Event>, n: nat)
    requires n <= |events|
    ensures LoopRun(admit, Initial(store), events[..n]).storedRecords == AcceptedPuts(admit, store, events, n)
  {
    if n == 0 {
    } else {
      StoredCountsAccepted(admit, store, events, n - 1);
      RunLast(admit, store, events, n);
    }
  }
}
