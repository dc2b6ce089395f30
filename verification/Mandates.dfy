/** Mandates for node operators: issuing them for a day, renewing them, and verifying them at an instant. */
module Mandates {
  import opened Wrappers
  import opened Octets
  import opened Orders
  import opened Schema
  import opened Codec
  import opened CardOps

  const MANDATE_TTL_SECS := 24 * 60 * 60

  datatype ValidatorError =
    | InvalidMandateSignature
    | MandateExpired(expiredAt: u64, now: u64)
    | MandateNotYetValid(issuedAt: u64, now: u64)
    | UnknownValidatorKey
    | InvalidNodePubkeyLength(n: nat)

  /** Addition of 64-bit words, which wraps around in a release build; a debug build panics instead. */
  function WrappingAdd(a: u64, b: u64): (r: u64) { (a + b) % U64_LIMIT }

  function IssueMandate(env: Env, sk: Bytes, nodePubkey: Blob, now: u64): (r: Result<SignedMandate, ValidatorError>)
  {
    if |nodePubkey| != 32 then Err(InvalidNodePubkeyLength(|nodePubkey|))
    else
      var record := MandateRecord(nodePubkey, now, WrappingAdd(now, MANDATE_TTL_SECS));
      Ok(SignedMandate(record, env.sign(sk, EncodeMandate(record))))
  }

  /** Renewing is issuing afresh. */
  function RenewMandate(env: Env, sk: Bytes, nodePubkey: Blob, now: u64): (r: Result<SignedMandate, ValidatorError>)
  {
    IssueMandate(env, sk, nodePubkey, now)
  }

  ghost predicate SignedByOneOf(env: Env, keys: seq<Bytes>, m: SignedMandate)
  {
    exists i :: 0 <= i < |keys| && env.verify(keys[i], EncodeMandate(m.record), m.validatorSig)
  }

  /** The search of the trusted keys from position `i` on. */
  function SearchKeys(env: Env, keys: seq<Bytes>, message: Bytes, sig: Bytes, i: nat): (found: bool)
    requires i <= |keys|
    ensures found <==> exists j :: i <= j < |keys| && env.verify(keys[j], message, sig)
    decreases |keys| - i
  {
    i < |keys| && (env.verify(keys[i], message, sig) || SearchKeys(env, keys, message, sig, i + 1))
  }

  function VerifySignature(env: Env, keys: seq<Bytes>, m: SignedMandate): (r: Result<(), ValidatorError>)
  {
    if |m.validatorSig| != 64 then Err(InvalidMandateSignature)
    else if SearchKeys(env, keys, EncodeMandate(m.record), m.validatorSig, 0) then Ok(())
    else Err(UnknownValidatorKey)
  }

  function VerifyTemporal(m: SignedMandate, now: u64): (r: Result<(), ValidatorError>)
  {
    if now < m.record.issuedAt then Err(MandateNotYetValid(m.record.issuedAt, now))
    else if now >= m.record.expiresAt then Err(MandateExpired(m.record.expiresAt, now))
    else Ok(())
  }

  /** The signature is judged before the time. */
  function VerifyAt(env: Env, keys: seq<Bytes>, m: SignedMandate, now: u64): (r: Result<(), ValidatorError>)
  {
    var signature := VerifySignature(env, keys, m);
    if signature.Err? then signature else VerifyTemporal(m, now)
  }

  /** Acceptance in full: a 64-byte signature by a trusted key, at an instant within the window. */
  lemma AcceptedIff(env: Env, keys: seq<Bytes>, m: SignedMandate, now: u64)
    ensures VerifyAt(env, keys, m, now).Ok? <==>
              && |m.validatorSig| == 64 && SignedByOneOf(env, keys, m)
              && m.record.issuedAt <= now < m.record.expiresAt
  {
  }

  /** Refusal in full: which error is given, the first in this order that applies. */
  lemma RefusedIff(env: Env, keys: seq<Bytes>, m: SignedMandate, now: u64, e: ValidatorError)
    ensures VerifyAt(env, keys, m, now) == Err(e) <==>
              match e
              case InvalidMandateSignature => |m.validatorSig| != 64
              case UnknownValidatorKey => |m.validatorSig| == 64 && !SignedByOneOf(env, keys, m)
              case MandateNotYetValid(from, at) =>
                && |m.validatorSig| == 64 && SignedByOneOf(env, keys, m)
                && now < m.record.issuedAt == from && at == now
              case MandateExpired(to, at) =>
                && |m.validatorSig| == 64 && SignedByOneOf(env, keys, m)
                && m.record.issuedAt <= now && to == m.record.expiresAt <= now && at == now
              case InvalidNodePubkeyLength(_) => false
  {
  }

  /** Issued for that operator at that time, for a day of 64-bit seconds. */
  predicate IssuedFor(m: SignedMandate, nodePubkey: Blob, t: u64)
  {
    && m.record.nodePubkey == nodePubkey && m.record.issuedAt == t
    && m.record.expiresAt == (t + 86_400) % U64_LIMIT
  }

  /** Issuing and renewing succeed for keys of 32 bytes only, and yield a mandate of the operator with that key. */
  lemma IssuedIff(env: Env, sk: Bytes, nodePubkey: Blob, t: u64)
    ensures RightlyIssued(env, sk, nodePubkey, t, IssueMandate(env, sk, nodePubkey, t))
    ensures RightlyIssued(env, sk, nodePubkey, t, RenewMandate(env, sk, nodePubkey, t))
  {
  }

  predicate RightlyIssued(env: Env, sk: Bytes, nodePubkey: Blob, t: u64, r: Result<SignedMandate, ValidatorError>)
  {
    if |nodePubkey| == 32 then
      && r.Ok? && IssuedFor(r.value, nodePubkey, t)
      && r.value.validatorSig == env.sign(sk, EncodeMandate(r.value.record))
    else r == Err(InvalidNodePubkeyLength(|nodePubkey|))
  }

  /**
   What is signed for one operator is never what is signed for another, whoever signs it and
   when, not even as the beginning of a longer stream.
   */
  lemma OperatorsApart(m: SignedMandate, n: SignedMandate, a: Blob, b: Blob, t: u64, u: u64, r: Bytes, q: Bytes)
    requires IssuedFor(m, a, t) && IssuedFor(n, b, u) && a != b
    ensures EncodeMandate(m.record) + r != EncodeMandate(n.record) + q
  {
    if EncodeMandate(m.record) + r == EncodeMandate(n.record) + q {
      MandateEncodingInjective(m.record, n.record, r, q);
    }
  }

  /** A mandate issued by a trusted key at `t`: only the time decides on it. */
  lemma IssuedVerdict(env: Env, keys: seq<Bytes>, sk: Bytes, nodePubkey: Blob, t: u64, now: u64)
    returns (m: SignedMandate)
    requires SignatureLaw(env) && env.publicKey(sk) in keys && |nodePubkey| == 32
    ensures IssueMandate(env, sk, nodePubkey, t) == Ok(m) && IssuedFor(m, nodePubkey, t)
    ensures VerifyAt(env, keys, m, now) == VerifyTemporal(m, now)
  {
    m := IssueMandate(env, sk, nodePubkey, t).value;
    var message := EncodeMandate(m.record);
    assert env.verify(env.publicKey(sk), message, env.sign(sk, message)) && |env.sign(sk, message)| == 64;
    var i :| 0 <= i < |keys| && keys[i] == env.publicKey(sk);
    assert env.verify(keys[i], message, m.validatorSig);
  }

  lemma Wrapping(t: u64)
    ensures t + 86_400 < U64_LIMIT ==> (t + 86_400) % U64_LIMIT == t + 86_400
    ensures t + 86_400 >= U64_LIMIT ==> (t + 86_400) % U64_LIMIT < t
  {
  }

  /** Unless its end exceeds 64 bits, it is accepted at exactly the instants from `t` to a day later. */
  lemma AcceptedForADay(env: Env, keys: seq<Bytes>, sk: Bytes, nodePubkey: Blob, t: u64, now: u64)
    returns (m: SignedMandate)
    requires SignatureLaw(env) && env.publicKey(sk) in keys && |nodePubkey| == 32
    requires t + 86_400 < U64_LIMIT
    ensures IssueMandate(env, sk, nodePubkey, t) == Ok(m) && m.record.nodePubkey == nodePubkey
    ensures VerifyAt(env, keys, m, now)
         == if now < t then Err(MandateNotYetValid(t, now))
            else if now < t + 86_400 then Ok(())
            else Err(MandateExpired(t + 86_400, now))
  {
    m := IssuedVerdict(env, keys, sk, nodePubkey, t, now);
    Wrapping(t);
  }

  /**
   That bound is sharp: from it on a fresh mandate is not even accepted at once. No clock of
   signed 64-bit seconds comes near it.
   */
  lemma FreshAcceptedIff(env: Env, keys: seq<Bytes>, sk: Bytes, nodePubkey: Blob, t: u64) returns (m: SignedMandate)
    requires SignatureLaw(env) && env.publicKey(sk) in keys && |nodePubkey| == 32
    ensures IssueMandate(env, sk, nodePubkey, t) == Ok(m)
    ensures VerifyAt(env, keys, m, t).Ok? <==> t + 86_400 < U64_LIMIT
  {
    m := IssuedVerdict(env, keys, sk, nodePubkey, t, t);
    Wrapping(t);
  }

  /** Trusting more keys changes a verdict only from an unknown key to what the time says. */
  lemma MoreKeysOnlyAccept(env: Env, few: seq<Bytes>, many: seq<Bytes>, m: SignedMandate, now: u64)
    requires forall k :: k in few ==> k in many
    ensures var before, after := VerifyAt(env, few, m, now), VerifyAt(env, many, m, now);
            && (before.Ok? ==> after.Ok?)
            && (before != after ==> before == Err(UnknownValidatorKey) && after == VerifyTemporal(m, now))
  {
    if SignedByOneOf(env, few, m) {
      var i :| 0 <= i < |few| && env.verify(few[i], EncodeMandate(m.record), m.validatorSig);
      assert few[i] in many;
      var j :| 0 <= j < |many| && many[j] == few[i];
      assert SignedByOneOf(env, many, m);
    }
  }

  // --- chains of renewals ------------------------------------------------

  /** Some mandate of the chain, of which all but the first are renewals, is the operator's and accepted at `now`. */
  ghost predicate Covered(env: Env, keys: seq<Bytes>, sk: Bytes, nodePubkey: Blob, issues: seq<u64>, now: u64)
  {
    exists i: nat :: i < |issues| && Accepts(env, keys, nodePubkey, ChainAt(env, sk, nodePubkey, issues, i), now)
  }

  function ChainAt(env: Env, sk: Bytes, nodePubkey: Blob, issues: seq<u64>, i: nat)
    : (m: Result<SignedMandate, ValidatorError>)
    requires i < |issues|
  {
    if i == 0 then IssueMandate(env, sk, nodePubkey, issues[0]) else RenewMandate(env, sk, nodePubkey, issues[i])
  }

  predicate Accepts(env: Env, keys: seq<Bytes>, nodePubkey: Blob, m: Result<SignedMandate, ValidatorError>, now: u64)
  {
    m.Ok? && m.value.record.nodePubkey == nodePubkey && VerifyAt(env, keys, m.value, now).Ok?
  }

  /** Each renewal comes at most a day after the issue before. */
  ghost predicate Gapless(issues: seq<u64>)
  {
    forall i :: 0 <= i < |issues| - 1 ==> issues[i + 1] <= issues[i] + MANDATE_TTL_SECS
  }

  ghost predicate InWindow(issues: seq<u64>, now: nat)
  {
    exists i :: 0 <= i < |issues| && issues[i] <= now < issues[i] + MANDATE_TTL_SECS
  }

  lemma CoveredIff(env: Env, keys: seq<Bytes>, sk: Bytes, nodePubkey: Blob, issues: seq<u64>, now: u64)
    requires SignatureLaw(env) && env.publicKey(sk) in keys && |nodePubkey| == 32
    requires forall i :: 0 <= i < |issues| ==> issues[i] + MANDATE_TTL_SECS < U64_LIMIT
    ensures Covered(env, keys, sk, nodePubkey, issues, now) <==> InWindow(issues, now)
  {
    forall i: nat | i < |issues|
      ensures Accepts(env, keys, nodePubkey, ChainAt(env, sk, nodePubkey, issues, i), now)
              <==> issues[i] <= now < issues[i] + MANDATE_TTL_SECS {
      var _ := AcceptedForADay(env, keys, sk, nodePubkey, issues[i], now);
    }
    if InWindow(issues, now) {
      var i :| 0 <= i < |issues| && issues[i] <= now < issues[i] + MANDATE_TTL_SECS;
      assert Accepts(env, keys, nodePubkey, ChainAt(env, sk, nodePubkey, issues, i), now);
    }
  }

  /** The last issue not after `now` covers it, when there are no gaps. */
  lemma {:induction false} GaplessCovers(issues: seq<u64>, n: nat, now: nat)
    requires Gapless(issues) && n < |issues| && issues[0] <= now < issues[n] + MANDATE_TTL_SECS
    ensures InWindow(issues, now)
    decreases n
  {
    if issues[n] <= now {
    } else {
      assert issues[n] <= issues[n - 1] + MANDATE_TTL_SECS;
      GaplessCovers(issues, n - 1, now);
    }
  }

  /** In a gap of more than a day, the instant at which the earlier mandate ends is not covered. */
  lemma GapUncovered(issues: seq<u64>, i: nat)
    requires Ascending(issues) && i + 1 < |issues| && issues[i + 1] > issues[i] + MANDATE_TTL_SECS
    ensures !InWindow(issues, issues[i] + MANDATE_TTL_SECS)
  {
    forall j | 0 <= j < |issues|
      ensures !(issues[j] <= issues[i] + MANDATE_TTL_SECS < issues[j] + MANDATE_TTL_SECS) {
      assert if j <= i then issues[j] <= issues[i] else issues[i + 1] <= issues[j];
    }
  }

  /**
   A chain of renewals leaves every instant from the first issue to the last expiry covered by
   an accepted mandate if and only if no renewal comes more than a day after the issue before.
   */
  lemma ChainCoversIffGapless(env: Env, keys: seq<Bytes>, sk: Bytes, nodePubkey: Blob, issues: seq<u64>)
    requires SignatureLaw(env) && env.publicKey(sk) in keys && |nodePubkey| == 32
    requires issues != [] && Ascending(issues) && issues[|issues| - 1] + MANDATE_TTL_SECS < U64_LIMIT
    ensures Gapless(issues) <==>
              forall now: u64 :: issues[0] <= now < issues[|issues| - 1] + MANDATE_TTL_SECS ==>
                Covered(env, keys, sk, nodePubkey, issues, now)
  {
    var last := |issues| - 1;
    forall i | 0 <= i < |issues| ensures issues[i] + MANDATE_TTL_SECS < U64_LIMIT {
      assert issues[i] <= issues[last];
    }
    if Gapless(issues) {
      forall now: u64 | issues[0] <= now < issues[last] + MANDATE_TTL_SECS
        ensures Covered(env, keys, sk, nodePubkey, issues, now) {
        GaplessCovers(issues, last, now);
        CoveredIff(env, keys, sk, nodePubkey, issues, now);
      }
    } else {
      var i: nat :| i < |issues| - 1 && issues[i + 1] > issues[i] + MANDATE_TTL_SECS;
      GapUncovered(issues, i);
      var now: u64 := issues[i] + MANDATE_TTL_SECS;
      CoveredIff(env, keys, sk, nodePubkey, issues, now);
      assert issues[0] <= issues[i] && issues[i + 1] <= issues[last];
    }
  }
}
