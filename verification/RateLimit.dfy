/** The per-domain limiter of card publications. Times are in nanoseconds of a monotonic clock. */
module RateLimit {
  type Domain = string

  const MAX_CARDS_PER_DOMAIN := 10
  const SECOND := 1_000_000_000
  const PUBLISH_COOLDOWN := 60 * SECOND

  datatype Params = Params(maxCards: nat, cooldown: nat)

  datatype Verdict =
    | Allowed
    | TooManyCards(domain: Domain, count: nat, max: nat)
    | CooldownActive(domain: Domain, remainingSecs: nat)

  /** How many cards each domain has published, and when it last did. */
  datatype Limits = Limits(count: map<Domain, nat>, last: map<Domain, nat>)

  const UNUSED := Limits(map[], map[])

  function Elapsed(last: nat, now: nat): (r: nat) { if now >= last then now - last else 0 }

  function Check(p: Params, l: Limits, domain: Domain, now: nat): (v: Verdict)
  {
    if domain in l.count && l.count[domain] >= p.maxCards then
      TooManyCards(domain, l.count[domain], p.maxCards)
    else if domain in l.last && Elapsed(l.last[domain], now) < p.cooldown then
      CooldownActive(domain, (p.cooldown - Elapsed(l.last[domain], now)) / SECOND + 1)
    else Allowed
  }

  function CountOf(l: Limits, domain: Domain): (n: nat) { if domain in l.count then l.count[domain] else 0 }

  function Record(l: Limits, domain: Domain, now: nat): (r: Limits)
  {
    Limits(l.count[domain := CountOf(l, domain) + 1], l.last[domain := now])
  }

  /** Only the count goes back, not below zero: the cooldown stays. */
  function Removed(l: Limits, domain: Domain): (r: Limits)
  {
    if domain in l.count && l.count[domain] > 0 then l.(count := l.count[domain := l.count[domain] - 1]) else l
  }

  class RateLimiter {
    var domainCardCount: map<Domain, nat>
    var domainLastPublish: map<Domain, nat>
    const params: Params

    constructor ()
      ensures params == Params(MAX_CARDS_PER_DOMAIN, PUBLISH_COOLDOWN) && Value() == UNUSED
    {
      domainCardCount, domainLastPublish := map[], map[];
      params := Params(MAX_CARDS_PER_DOMAIN, PUBLISH_COOLDOWN);
    }

    constructor WithParams(maxCards: nat, cooldown: nat)
      ensures params == Params(maxCards, cooldown) && Value() == UNUSED
    {
      domainCardCount, domainLastPublish := map[], map[];
      params := Params(maxCards, cooldown);
    }

    ghost function Value(): (l: Limits)
      reads this
    {
      Limits(domainCardCount, domainLastPublish)
    }

    method CheckDomain(domain: Domain, now: nat) returns (verdict: Verdict)
      ensures verdict == Check(params, Value(), domain, now)
    {
      if domain in domainCardCount {
        var count := domainCardCount[domain];
        if count >= params.maxCards {
          return TooManyCards(domain, count, params.maxCards);
        }
      }
      if domain in domainLastPublish {
        var elapsed := Elapsed(domainLastPublish[domain], now);
        if elapsed < params.cooldown {
          var remaining := params.cooldown - elapsed;
          return CooldownActive(domain, remaining / SECOND + 1);
        }
      }
      return Allowed;
    }

    method RecordPublish(domain: Domain, now: nat)
      modifies this
      ensures Value() == Record(old(Value()), domain, now)
    {
      if domain !in domainCardCount {
        domainCardCount := domainCardCount[domain := 0];
      }
      domainCardCount := domainCardCount[domain := domainCardCount[domain] + 1];
      domainLastPublish := domainLastPublish[domain := now];
    }

    method RemoveCard(domain: Domain)
      modifies this`domainCardCount
      ensures Value() == Removed(old(Value()), domain)
    {
      if domain in domainCardCount {
        var count := domainCardCount[domain];
        domainCardCount := domainCardCount[domain := if count == 0 then 0 else count - 1];
      }
    }
  }

  /** How long the domain still has to wait; nothing has passed yet if it published later than now. */
  function Left(p: Params, l: Limits, domain: Domain, now: nat): (left: int)
    requires domain in l.last
  {
    l.last[domain] + p.cooldown - if now > l.last[domain] then now else l.last[domain]
  }

  /** Which verdict is given: the count is looked at before the cooldown, and the seconds are rounded up, at least to one. */
  lemma CheckIff(p: Params, l: Limits, domain: Domain, now: nat, v: Verdict)
    ensures var full := domain in l.count && l.count[domain] >= p.maxCards;
            var waits := domain in l.last && Left(p, l, domain, now) > 0;
            Check(p, l, domain, now) == v <==>
              match v
              case TooManyCards(d, count, max) => full && d == domain && count == l.count[domain] && max == p.maxCards
              case CooldownActive(d, secs) =>
                && !full && waits && d == domain
                && (secs - 1) * 1_000_000_000 <= Left(p, l, domain, now) < secs * 1_000_000_000
              case Allowed => !full && !waits
  {
  }

  /** The limiter after `n` cards of the domain were removed. */
  function RemovedTimes(l: Limits, domain: Domain, n: nat): (r: Limits)
  {
    if n == 0 then l else Removed(RemovedTimes(l, domain, n - 1), domain)
  }

  /**
   Removing a card gives back the place it took and never more, only in its own domain, and never
   the cooldown.
   */
  lemma {:induction false} RemovalGivesBack(l: Limits, domain: Domain, n: nat, other: Domain)
    ensures var r := RemovedTimes(l, domain, n);
            && CountOf(r, domain) == (if CountOf(l, domain) >= n then CountOf(l, domain) - n else 0)
            && (other != domain ==> CountOf(r, other) == CountOf(l, other))
            && r.last == l.last
  {
    if n == 0 {
    } else {
      RemovalGivesBack(l, domain, n - 1, other);
    }
  }

  /** Recording takes one place of the domain and starts its cooldown, and touches no other domain. */
  lemma RecordTakesPlace(p: Params, l: Limits, domain: Domain, now: nat, other: Domain)
    requires other != domain
    ensures var r := Record(l, domain, now);
            && CountOf(r, domain) == CountOf(l, domain) + 1
            && domain in r.last && r.last[domain] == now
            && forall later :: Check(p, r, other, later) == Check(p, l, other, later)
  {
  }

  /**
   Waiting out the cooldown: without a publish in between, it is over after the reported seconds,
   which exceed the time that is really left by at most one second.
   */
  lemma WaitingClearsCooldown(p: Params, l: Limits, domain: Domain, now: nat, wait: nat)
    requires Check(p, l, domain, now).CooldownActive? && l.last[domain] <= now
    ensures var left := l.last[domain] + p.cooldown - now;
            var reported := Check(p, l, domain, now).remainingSecs * SECOND;
            && left < reported <= left + SECOND
            && (Check(p, l, domain, now + wait) == Allowed <==> wait >= left)
            && (wait >= reported ==> Check(p, l, domain, now + wait) == Allowed)
  {
    var left := l.last[domain] + p.cooldown - now;
    assert Check(p, l, domain, now).remainingSecs == left / SECOND + 1;
  }
}
