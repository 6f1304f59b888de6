/**
 The three-state circuit breaker. Times are in ms on a clock that never goes back.

 Zero settings are what the derived default configuration gives. A threshold of zero acts as one. A trial count of
 zero acts as one for closing, but every allow in the half-open state is then denied.
 */
module CircuitBreaker {
  import opened Common

  const U32 := 0x1_0000_0000

  datatype CircuitState = Closed | Open | HalfOpen

  datatype Config = Config(failureThreshold: nat, recoveryTimeoutMs: nat, halfOpenMaxCalls: nat)

  datatype Breaker = Breaker(state: CircuitState, failures: nat, lastFailure: Option<nat>, successCount: nat)

  /** A 32-bit increment that wraps around. */
  function Inc(n: nat): nat { if n + 1 == U32 then 0 else n + 1 }

  function Elapsed(since: nat, now: nat): nat { if now >= since then now - since else 0 }

  function DoAllow(b: Breaker, c: Config, now: nat): (Breaker, bool) {
    match b.state
    case Closed => (b, true)
    case Open =>
      if b.lastFailure.Some? && Elapsed(b.lastFailure.value, now) > c.recoveryTimeoutMs
      then (b.(state := HalfOpen, successCount := 0), true)
      else (b, false)
    case HalfOpen => (b, b.successCount < c.halfOpenMaxCalls)
  }

  function DoSuccess(b: Breaker, c: Config): Breaker {
    match b.state
    case HalfOpen =>
      if Inc(b.successCount) >= c.halfOpenMaxCalls
      then b.(state := Closed, failures := 0, successCount := 0)
      else b.(successCount := Inc(b.successCount))
    case Closed => b.(failures := if b.failures == 0 then 0 else b.failures - 1)
    case Open => b
  }

  function DoFailure(b: Breaker, c: Config, now: nat): Breaker {
    var b' := b.(failures := Inc(b.failures), lastFailure := Some(now));
    if b'.failures >= c.failureThreshold then b'.(state := Open) else b'
  }

  /** The breaker as the gateway holds it, its fields updated in place. */
  class Circuit {
    var state: CircuitState
    var failures: nat
    var lastFailure: Option<nat>
    var successCount: nat
    const config: Config

    ghost function View(): Breaker
      reads this
    {
      Breaker(state, failures, lastFailure, successCount)
    }

    constructor (config: Config)
      ensures View() == New() && this.config == config
    {
      state, failures, lastFailure, successCount := Closed, 0, None, 0;
      this.config := config;
    }

    method Allow(now: nat) returns (ok: bool)
      modifies this
      ensures (View(), ok) == DoAllow(old(View()), config, now)
    {
      match state
      case Closed => ok := true;
      case Open =>
        ok := false;
        if lastFailure.Some? {
          if Elapsed(lastFailure.value, now) > config.recoveryTimeoutMs {
            state := HalfOpen;
            successCount := 0;
            ok := true;
          }
        }
      case HalfOpen => ok := successCount < config.halfOpenMaxCalls;
    }

    method RecordSuccess()
      modifies this
      ensures View() == DoSuccess(old(View()), config)
    {
      match state
      case HalfOpen =>
        successCount := Inc(successCount);
        if successCount >= config.halfOpenMaxCalls {
          state := Closed;
          failures := 0;
          successCount := 0;
        }
      case Closed => failures := if failures == 0 then 0 else failures - 1;
      case Open =>
    }

    method RecordFailure(now: nat)
      modifies this
      ensures View() == DoFailure(old(View()), config, now)
    {
      failures := Inc(failures);
      lastFailure := Some(now);
      if failures >= config.failureThreshold {
        state := Open;
      }
    }
  }

  // ---- Runs ----

  datatype Event = Allow(now: nat) | Success | Failure(now: nat)

  function New(): Breaker { Breaker(Closed, 0, None, 0) }

  function Step(b: Breaker, c: Config, e: Event): Breaker {
    match e
    case Allow(now) => DoAllow(b, c, now).0
    case Success => DoSuccess(b, c)
    case Failure(now) => DoFailure(b, c, now)
  }

  function Play(c: Config, es: seq<Event>): Breaker {
    if es == [] then New() else Step(Play(c, es[..|es| - 1]), c, es[|es| - 1])
  }

  function AtLeastOne(n: nat): nat { if n == 0 then 1 else n }

  function FailuresIn(es: seq<Event>): nat {
    if es == [] then 0 else FailuresIn(es[..|es| - 1]) + if es[|es| - 1].Failure? then 1 else 0
  }

  /** The range of the counters: 32-bit settings, and fewer failures in the run than a 32-bit counter holds. */
  predicate InRange(c: Config, es: seq<Event>) {
    c.failureThreshold < U32 && c.halfOpenMaxCalls < U32 && FailuresIn(es) < U32
  }

  ghost predicate Clock(es: seq<Event>) {
    forall i, j :: 0 <= i < j < |es| && !es[i].Success? && !es[j].Success? ==> es[i].now <= es[j].now
  }

  lemma {:induction false} FailuresInPrefix(es: seq<Event>, k: nat)
    requires k <= |es|
    ensures FailuresIn(es[..k]) <= FailuresIn(es)
  {
    if k < |es| {
      assert es[..|es| - 1][..k] == es[..k];
      FailuresInPrefix(es[..|es| - 1], k);
    } else {
      assert es[..k] == es;
    }
  }

  /** Closed to open transitions along the run. */
  function Trips(c: Config, es: seq<Event>): nat {
    if es == [] then 0
    else
      var front := es[..|es| - 1];
      Trips(c, front) + if Play(c, front).state == Closed && Play(c, es).state == Open then 1 else 0
  }

  /** What each state says about the counters. */
  predicate StateOk(b: Breaker, c: Config) {
    && (b.state == Closed ==> b.failures < AtLeastOne(c.failureThreshold) && b.successCount == 0)
    && (b.state != Closed ==> b.failures >= AtLeastOne(c.failureThreshold) && b.lastFailure.Some?)
    && (b.state == HalfOpen ==> b.successCount < AtLeastOne(c.halfOpenMaxCalls))
  }

  lemma StepKeepsState(b: Breaker, c: Config, e: Event)
    requires StateOk(b, c) && c.halfOpenMaxCalls < U32 && (e.Failure? ==> b.failures + 1 < U32)
    ensures StateOk(Step(b, c, e), c)
    ensures Step(b, c, e).failures <= b.failures + if e.Failure? then 1 else 0
    // Any failure outside Closed leaves the breaker open; a late success never closes it.
    ensures b.state != Closed && e.Failure? ==> Step(b, c, e).state == Open
    ensures b.state == Open && e.Success? ==> Step(b, c, e) == b
  {
  }

  /** A failure opens a breaker that is not open exactly when it reaches the threshold and the counter does not wrap. */
  lemma FailureOpensExactly(b: Breaker, c: Config, now: nat)
    requires b.failures < U32 && c.failureThreshold < U32 && b.state != Open
    ensures DoFailure(b, c, now).state == Open <==>
              c.failureThreshold == 0 || (b.failures + 1 < U32 && b.failures + 1 >= c.failureThreshold)
    ensures DoFailure(b, c, now).failures == if b.failures + 1 < U32 then b.failures + 1 else 0
  {
  }

  lemma {:induction false} StateAlwaysOk(c: Config, es: seq<Event>)
    requires InRange(c, es)
    ensures StateOk(Play(c, es), c) && Play(c, es).failures <= FailuresIn(es)
  {
    if es != [] {
      StateAlwaysOk(c, es[..|es| - 1]);
      StepKeepsState(Play(c, es[..|es| - 1]), c, es[|es| - 1]);
    }
  }

  /** Failures that count towards the next trip. */
  function Saved(b: Breaker): nat { if b.state == Closed then b.failures else 0 }

  lemma StepPays(b: Breaker, c: Config, e: Event)
    requires StateOk(b, c) && c.halfOpenMaxCalls < U32 && (e.Failure? ==> b.failures + 1 < U32)
    ensures var b' := Step(b, c, e);
            (if b.state == Closed && b'.state == Open then AtLeastOne(c.failureThreshold) else 0) + Saved(b')
              <= Saved(b) + if e.Failure? then 1 else 0
  {
  }

  /** The threshold is spent afresh on every trip: threshold times trips is at most the failures recorded. */
  lemma {:induction false} TripsArePaidFor(c: Config, es: seq<Event>)
    requires InRange(c, es)
    ensures AtLeastOne(c.failureThreshold) * Trips(c, es) + Saved(Play(c, es)) <= FailuresIn(es)
  {
    if es != [] {
      var front := es[..|es| - 1];
      TripsArePaidFor(c, front);
      StateAlwaysOk(c, front);
      StepPays(Play(c, front), c, es[|es| - 1]);
      assert AtLeastOne(c.failureThreshold) * (Trips(c, front) + 1)
          == AtLeastOne(c.failureThreshold) * Trips(c, front) + AtLeastOne(c.failureThreshold);
    }
  }

  // ---- The counter of the closed state ----

  function Weight(e: Event): int {
    match e case Failure(_) => 1 case Success => -1 case Allow(_) => 0
  }

  /** Failures minus successes among the events i, ..., j - 1. */
  function Excess(es: seq<Event>, i: nat, j: nat): int
    requires i <= j <= |es|
  {
    if i == j then 0 else Excess(es, i, j - 1) + Weight(es[j - 1])
  }

  lemma {:induction false} ExcessOfPrefix(es: seq<Event>, n: nat, i: nat, j: nat)
    requires i <= j <= n <= |es|
    ensures Excess(es[..n], i, j) == Excess(es, i, j)
  {
    if i < j { ExcessOfPrefix(es, n, i, j - 1); }
  }

  /** No contiguous stretch of the run has failures ahead of successes by the threshold. */
  ghost predicate Calm(c: Config, es: seq<Event>) {
    forall i, j :: 0 <= i <= j <= |es| ==> Excess(es, i, j) < AtLeastOne(c.failureThreshold)
  }

  lemma EmptyIsCalm(c: Config)
    ensures Calm(c, [])
  {
  }

  lemma CalmPrefix(c: Config, es: seq<Event>, n: nat)
    requires Calm(c, es) && n <= |es|
    ensures Calm(c, es[..n])
  {
    forall i, j | 0 <= i <= j <= n ensures Excess(es[..n], i, j) < AtLeastOne(c.failureThreshold) {
      ExcessOfPrefix(es, n, i, j);
    }
  }

  /** Some suffix has the given excess, and none has more. */
  ghost predicate WorstSuffix(es: seq<Event>, worst: int) {
    && (exists i :: 0 <= i <= |es| && Excess(es, i, |es|) == worst)
    && (forall i :: 0 <= i <= |es| ==> Excess(es, i, |es|) <= worst)
  }

  lemma WorstSuffixSnoc(es: seq<Event>, worst: nat)
    requires es != [] && WorstSuffix(es[..|es| - 1], worst)
    ensures WorstSuffix(es, var next := worst + Weight(es[|es| - 1]); if next < 0 then 0 else next)
  {
    var n := |es| - 1;
    forall i | 0 <= i <= n ensures Excess(es, i, |es|) <= worst + Weight(es[n]) {
      ExcessOfPrefix(es, n, i, n);
    }
    var i :| 0 <= i <= n && Excess(es[..n], i, n) == worst;
    ExcessOfPrefix(es, n, i, n);
    assert Excess(es, i, |es|) == worst + Weight(es[n]);
    assert Excess(es, |es|, |es|) == 0;
  }

  /** The breaker has just closed, or is new: a closed spell begins after `pre`. */
  predicate SpellBegins(c: Config, pre: seq<Event>) {
    pre == [] || (Play(c, pre[..|pre| - 1]).state != Closed && Play(c, pre).state == Closed)
  }

  lemma SpellBeginsEmpty(c: Config, pre: seq<Event>)
    requires SpellBegins(c, pre)
    ensures Play(c, pre).state == Closed && Play(c, pre).failures == 0
  {
  }

  lemma PlayNext(c: Config, pre: seq<Event>, es: seq<Event>)
    requires es != []
    ensures Play(c, pre + es) == Step(Play(c, pre + es[..|es| - 1]), c, es[|es| - 1])
  {
    assert (pre + es)[..|pre + es| - 1] == pre + es[..|es| - 1];
  }

  lemma InRangePrefix(c: Config, pre: seq<Event>, es: seq<Event>, k: nat)
    requires InRange(c, pre + es) && k <= |es|
    ensures InRange(c, pre + es[..k])
  {
    assert (pre + es)[..|pre| + k] == pre + es[..k];
    FailuresInPrefix(pre + es, |pre| + k);
  }

  lemma EmptySuffix(es: seq<Event>)
    requires es == []
    ensures WorstSuffix(es, 0)
  {
    assert Excess(es, 0, 0) == 0;
  }

  /** A closed breaker moves its counter by the weight of the event, down to zero, unless that trips it. */
  lemma ClosedStep(b: Breaker, c: Config, e: Event)
    requires b.state == Closed && b.failures + 1 < U32
    ensures var next := b.failures + Weight(e);
            var b' := Step(b, c, e);
            && b'.failures == (if next < 0 then 0 else next)
            && (e.Failure? && next >= AtLeastOne(c.failureThreshold) ==> b'.state == Open)
            && (!e.Failure? || next < AtLeastOne(c.failureThreshold) ==> b'.state == Closed)
  {
  }

  /** In a closed spell, while no stretch of it reaches the threshold, the counter is the worst suffix of the spell. */
  lemma {:induction false} CounterIsWorstSuffix(c: Config, pre: seq<Event>, es: seq<Event>)
    requires InRange(c, pre + es) && SpellBegins(c, pre) && Calm(c, es)
    ensures Play(c, pre + es).state == Closed && WorstSuffix(es, Play(c, pre + es).failures)
    decreases |es|
  {
    if es == [] {
      assert pre + es == pre;
      SpellBeginsEmpty(c, pre);
      EmptySuffix(es);
    } else {
      var n := |es| - 1;
      CalmPrefix(c, es, n);
      InRangePrefix(c, pre, es, n);
      CounterIsWorstSuffix(c, pre, es[..n]);
      CounterMoves(c, pre, es);
      var i :| 0 <= i <= |es| && Excess(es, i, |es|) == Play(c, pre + es).failures;
    }
  }

  lemma CounterMoves(c: Config, pre: seq<Event>, es: seq<Event>)
    requires InRange(c, pre + es) && es != []
    requires var b := Play(c, pre + es[..|es| - 1]); b.state == Closed && WorstSuffix(es[..|es| - 1], b.failures)
    ensures WorstSuffix(es, Play(c, pre + es).failures)
    ensures var b := Play(c, pre + es);
            b.state == if es[|es| - 1].Failure? && b.failures >= AtLeastOne(c.failureThreshold) then Open else Closed
  {
    var n := |es| - 1;
    var b := Play(c, pre + es[..n]);
    InRangePrefix(c, pre, es, n);
    StateAlwaysOk(c, pre + es[..n]);
    PlayNext(c, pre, es);
    ClosedStep(b, c, es[n]);
    WorstSuffixSnoc(es, b.failures);
  }

  /** The breaker has stayed closed since `pre`. */
  ghost predicate NeverTripped(c: Config, pre: seq<Event>, es: seq<Event>) {
    forall k :: 0 <= k <= |es| ==> Play(c, pre + es[..k]).state == Closed
  }

  /** A first stretch of a closed spell that reaches the threshold ends in a failure that opens the breaker. */
  lemma TripsAtFirstBadStretch(c: Config, pre: seq<Event>, es: seq<Event>)
    requires InRange(c, pre + es) && SpellBegins(c, pre) && es != [] && Calm(c, es[..|es| - 1]) && !Calm(c, es)
    ensures es[|es| - 1].Failure? && Play(c, pre + es).state == Open
  {
    var n := |es| - 1;
    InRangePrefix(c, pre, es, n);
    CounterIsWorstSuffix(c, pre, es[..n]);
    CounterMoves(c, pre, es);
    BadStretchIsLast(c, es);
    StateAlwaysOk(c, pre + es[..n]);
    PlayNext(c, pre, es);
  }

  /** If only the last event spoils the calm, the bad stretch ends with it. */
  lemma BadStretchIsLast(c: Config, es: seq<Event>)
    requires es != [] && Calm(c, es[..|es| - 1]) && !Calm(c, es)
    ensures exists i :: 0 <= i <= |es| && Excess(es, i, |es|) >= AtLeastOne(c.failureThreshold)
  {
    var n := |es| - 1;
    var i, j :| 0 <= i <= j <= |es| && Excess(es, i, j) >= AtLeastOne(c.failureThreshold);
    if j <= n { ExcessOfPrefix(es, n, i, j); }
  }

  /** In every closed spell the breaker has tripped exactly when some stretch of the spell reached the threshold. */
  lemma {:induction false} TripsExactlyOnBadStretch(c: Config, pre: seq<Event>, es: seq<Event>)
    requires InRange(c, pre + es) && SpellBegins(c, pre)
    ensures NeverTripped(c, pre, es) <==> Calm(c, es)
    decreases |es|
  {
    EmptyIsCalm(c);
    if Calm(c, es) {
      CalmNeverTrips(c, pre, es);
    } else if es != [] {
      var n := |es| - 1;
      InRangePrefix(c, pre, es, n);
      if Calm(c, es[..n]) {
        TripsAtFirstBadStretch(c, pre, es);
        assert es[..|es|] == es;
      } else {
        TripsExactlyOnBadStretch(c, pre, es[..n]);
        var k :| 0 <= k <= n && Play(c, pre + es[..n][..k]).state != Closed;
        assert es[..n][..k] == es[..k];
      }
    }
  }

  lemma CalmNeverTrips(c: Config, pre: seq<Event>, es: seq<Event>)
    requires InRange(c, pre + es) && SpellBegins(c, pre) && Calm(c, es)
    ensures NeverTripped(c, pre, es)
  {
    forall k | 0 <= k <= |es| ensures Play(c, pre + es[..k]).state == Closed {
      CalmPrefix(c, es, k);
      InRangePrefix(c, pre, es, k);
      CounterIsWorstSuffix(c, pre, es[..k]);
    }
  }

  // ---- Open and half-open ----

  lemma StepLastFailure(b: Breaker, c: Config, e: Event)
    ensures Step(b, c, e).lastFailure == if e.Failure? then Some(e.now) else b.lastFailure
  {
  }

  /** The time of the latest failure is kept. */
  lemma {:induction false} LastFailureIsLatest(c: Config, es: seq<Event>)
    requires Clock(es)
    ensures forall m :: 0 <= m < |es| && es[m].Failure? ==>
              Play(c, es).lastFailure.Some? && es[m].now <= Play(c, es).lastFailure.value
  {
    if es != [] {
      var front, e := es[..|es| - 1], es[|es| - 1];
      LastFailureIsLatest(c, front);
      StepLastFailure(Play(c, front), c, e);
    }
  }

  predicate Grants(c: Config, es: seq<Event>, k: nat)
    requires k < |es|
  {
    es[k].Allow? && DoAllow(Play(c, es[..k]), c, es[k].now).1
  }

  /** The time of the latest failure recorded. */
  function LatestFailure(es: seq<Event>): Option<nat> {
    if es == [] then None
    else if es[|es| - 1].Failure? then Some(es[|es| - 1].now)
    else LatestFailure(es[..|es| - 1])
  }

  lemma {:induction false} RemembersLatestFailure(c: Config, es: seq<Event>)
    ensures Play(c, es).lastFailure == LatestFailure(es)
  {
    if es != [] {
      RemembersLatestFailure(c, es[..|es| - 1]);
      StepLastFailure(Play(c, es[..|es| - 1]), c, es[|es| - 1]);
    }
  }

  /** More than the recovery timeout has gone by since the latest failure. */
  predicate TimedOut(c: Config, es: seq<Event>, now: nat) {
    LatestFailure(es).Some? && now > LatestFailure(es).value + c.recoveryTimeoutMs
  }

  /**
   In every run a call is let through exactly when the breaker is closed, or open for longer than the timeout since
   the latest failure, or half-open with a trial count that is not zero.
   */
  lemma GrantsExactly(c: Config, es: seq<Event>, k: nat)
    requires k < |es| && InRange(c, es[..k]) && es[k].Allow?
    ensures Grants(c, es, k) <==>
              match Play(c, es[..k]).state
              case Closed => true
              case Open => TimedOut(c, es[..k], es[k].now)
              case HalfOpen => c.halfOpenMaxCalls > 0
  {
    RemembersLatestFailure(c, es[..k]);
    StateAlwaysOk(c, es[..k]);
  }

  /** In every run the breaker is half-open exactly after it was let through while open, until it closes or fails. */
  lemma HalfOpenExactly(c: Config, before: seq<Event>, e: Event)
    requires InRange(c, before + [e])
    ensures Play(c, before + [e]).state == HalfOpen <==>
              match Play(c, before).state
              case Closed => false
              case Open => e.Allow? && TimedOut(c, before, e.now)
              case HalfOpen =>
                !e.Failure? && Play(c, before + [e]).state != Closed
  {
    var es := before + [e];
    assert es[..|es| - 1] == before;
    FailuresInPrefix(es, |before|);
    RemembersLatestFailure(c, before);
    StateAlwaysOk(c, before);
    StateAlwaysOk(c, es);
  }

  /** It is open exactly after a failure that it does not absorb, until a call is let through. */
  lemma OpenExactly(c: Config, before: seq<Event>, e: Event)
    requires InRange(c, before + [e])
    ensures Play(c, before + [e]).state == Open <==>
              match Play(c, before).state
              case Closed => e.Failure? && Play(c, before).failures + 1 >= AtLeastOne(c.failureThreshold)
              case Open => !(e.Allow? && TimedOut(c, before, e.now))
              case HalfOpen => e.Failure?
  {
    var es := before + [e];
    assert es[..|es| - 1] == before;
    FailuresInPrefix(es, |before|);
    RemembersLatestFailure(c, before);
    StateAlwaysOk(c, before);
    StateAlwaysOk(c, es);
  }

  /** Without failures the breaker stays closed and lets every call through. */
  lemma {:induction false} HealthyUpstreamIsServed(c: Config, es: seq<Event>)
    requires FailuresIn(es) == 0
    ensures Play(c, es).state == Closed && Play(c, es).failures == 0
    ensures forall k :: 0 <= k < |es| && es[k].Allow? ==> Grants(c, es, k)
  {
    if es != [] {
      var n := |es| - 1;
      HealthyUpstreamIsServed(c, es[..n]);
      forall k | 0 <= k < |es| && es[k].Allow? ensures Grants(c, es, k) {
        if k < n {
          assert Grants(c, es[..n], k);
          assert es[..n][..k] == es[..k];
        }
      }
    }
  }

  lemma {:induction false} StaysOpenUntilGranted(c: Config, es: seq<Event>, i: nat, j: nat)
    requires InRange(c, es) && i < j <= |es| && es[i].Failure? && Play(c, es[..i + 1]).state == Open
    requires forall k :: i < k < j ==> !Grants(c, es, k)
    ensures Play(c, es[..j]).state == Open
  {
    if j > i + 1 {
      StaysOpenUntilGranted(c, es, i, j - 1);
      FailuresInPrefix(es, j - 1);
      FailuresInPrefix(es, j);
      StateAlwaysOk(c, es[..j - 1]);
      var b, e := Play(c, es[..j - 1]), es[j - 1];
      assert es[..j][..j - 1] == es[..j - 1];
      if e.Failure? {
        StepKeepsState(b, c, e);
      } else if e.Allow? {
        assert !Grants(c, es, j - 1);
      }
    }
  }

  /** Once a failure leaves it open, the next grant comes more than the timeout after every failure so far. */
  lemma NoGrantBeforeTimeout(c: Config, es: seq<Event>, i: nat, j: nat, m: nat)
    requires InRange(c, es) && Clock(es) && i < j < |es| && es[i].Failure? && Play(c, es[..i + 1]).state == Open
    requires Grants(c, es, j) && forall k :: i < k < j ==> !Grants(c, es, k)
    requires m < j && es[m].Failure?
    ensures es[j].now > es[m].now + c.recoveryTimeoutMs
  {
    StaysOpenUntilGranted(c, es, i, j);
    LastFailureIsLatest(c, es[..j]);
    assert es[..j][m] == es[m];
  }

  /** The index of the event that entered the current half-open spell. */
  function Entry(c: Config, es: seq<Event>): (k: nat)
    requires Play(c, es).state == HalfOpen
    ensures k < |es|
  {
    var n := |es| - 1;
    if Play(c, es[..n]).state == HalfOpen then Entry(c, es[..n]) else n
  }

  function SuccessesIn(es: seq<Event>, i: nat, j: nat): nat
    requires i <= j <= |es|
  {
    if i == j then 0 else SuccessesIn(es, i, j - 1) + if es[j - 1].Success? then 1 else 0
  }

  lemma {:induction false} SuccessesOfPrefix(es: seq<Event>, n: nat, i: nat, j: nat)
    requires i <= j <= n <= |es|
    ensures SuccessesIn(es[..n], i, j) == SuccessesIn(es, i, j)
  {
    if i < j { SuccessesOfPrefix(es, n, i, j - 1); }
  }

  /** In a half-open spell the counter is the number of successes since it began, and no failure fell in it. */
  lemma {:induction false} TrialCount(c: Config, es: seq<Event>)
    requires InRange(c, es) && Play(c, es).state == HalfOpen
    ensures Play(c, es).successCount == SuccessesIn(es, Entry(c, es) + 1, |es|)
    ensures forall k :: Entry(c, es) < k < |es| ==> !es[k].Failure?
  {
    var n := |es| - 1;
    StateAlwaysOk(c, es[..n]);
    StepKeepsState(Play(c, es[..n]), c, es[n]);
    if Play(c, es[..n]).state == HalfOpen {
      TrialCount(c, es[..n]);
      SuccessesOfPrefix(es, n, Entry(c, es[..n]) + 1, n);
    }
  }

  /** In every reachable half-open state a call is let through exactly when the configured trial count is not zero. */
  lemma HalfOpenGrantsExactly(c: Config, es: seq<Event>, now: nat)
    requires InRange(c, es) && Play(c, es).state == HalfOpen
    ensures DoAllow(Play(c, es), c, now).1 <==> c.halfOpenMaxCalls > 0
  {
    StateAlwaysOk(c, es);
  }

  lemma ClosingStep(b: Breaker, c: Config, e: Event)
    requires StateOk(b, c) && b.state != Closed && c.halfOpenMaxCalls < U32 && (e.Failure? ==> b.failures + 1 < U32)
    ensures Step(b, c, e).state == Closed <==>
              b.state == HalfOpen && e.Success? && b.successCount + 1 == AtLeastOne(c.halfOpenMaxCalls)
  {
  }

  /** A breaker that is not closed closes exactly at the configured number of successes in a half-open spell. */
  lemma ClosesExactlyAfterTrials(c: Config, before: seq<Event>, e: Event)
    requires InRange(c, before + [e]) && Play(c, before).state != Closed
    ensures Play(c, before + [e]).state == Closed <==>
              && Play(c, before).state == HalfOpen && e.Success?
              && SuccessesIn(before, Entry(c, before) + 1, |before|) + 1 == AtLeastOne(c.halfOpenMaxCalls)
  {
    assert (before + [e])[..|before + [e]| - 1] == before;
    StateAlwaysOk(c, before);
    ClosingStep(Play(c, before), c, e);
    if Play(c, before).state == HalfOpen { TrialCount(c, before); }
  }
}
