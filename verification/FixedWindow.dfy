/**
 The per-project request limiter: one Redis counter per aligned window. Times are in ms.

 A check is one atomic pipeline of INCR and EXPIRE. It may also fail, before or after its commands took
 effect, and a failed check lets the request through.
 */
module FixedWindow {
  import opened Common

  /** `window` is in seconds; the constructor sets 100, 150 and 60. */
  datatype Limits = Limits(rps: nat, burst: nat, window: nat)

  datatype Counter = Counter(count: nat, deadline: Option<nat>)

  /** How Redis answered, and which commands took effect when the answer was an error. */
  datatype Reply = Done | Failed(incremented: bool, refreshed: bool)

  datatype Answer = Answer(allowed: bool, remaining: nat, resetAt: nat)

  function Bucket(now: nat, l: Limits): nat
    requires l.window > 0
  {
    now / 1000 / l.window
  }

  /** The value INCR starts from: an expired or missing counter counts as zero. */
  function Current(counters: map<nat, Counter>, bucket: nat, now: nat): Counter {
    if bucket in counters && !(counters[bucket].deadline.Some? && now > counters[bucket].deadline.value)
    then counters[bucket] else Counter(0, None)
  }

  function Deadline(now: nat, l: Limits): nat { now + 1000 * (l.window + 1) }

  function Check(counters: map<nat, Counter>, now: nat, reply: Reply, l: Limits): (map<nat, Counter>, Answer)
    requires l.window > 0
  {
    var bucket := Bucket(now, l);
    var c := Current(counters, bucket, now);
    match reply
    case Done =>
      var count := c.count + 1;
      (counters[bucket := Counter(count, Some(Deadline(now, l)))],
       Answer(count <= l.burst, if l.rps < count then 0 else l.rps - count, now / 1000 + l.window))
    case Failed(incremented, refreshed) =>
      var c1 := if incremented then c.(count := c.count + 1) else c;
      var c2 := if refreshed && c1.count > 0 then c1.(deadline := Some(Deadline(now, l))) else c1;
      (if c2.count > 0 then counters[bucket := c2] else counters - {bucket}, Answer(true, 0, 0))
  }

  /** The limiter of one project; its counters live in Redis and change with every check. */
  class Limiter {
    var counters: map<nat, Counter>
    const limits: Limits

    constructor (limits: Limits)
      requires limits.window > 0
      ensures counters == map[] && this.limits == limits
    {
      counters, this.limits := map[], limits;
    }

    method CheckLimit(now: nat, reply: Reply) returns (answer: Answer)
      requires limits.window > 0
      modifies this
      ensures (counters, answer) == Check(old(counters), now, reply, limits)
    {
      var bucket := Bucket(now, limits);
      var c := Current(counters, bucket, now);
      if reply.Done? || reply.incremented {
        c := c.(count := c.count + 1);
      }
      if c.count > 0 && (reply.Done? || reply.refreshed) {
        c := c.(deadline := Some(Deadline(now, limits)));
      }
      counters := if c.count > 0 then counters[bucket := c] else counters - {bucket};
      if reply.Failed? {
        return Answer(true, 0, 0);
      }
      var remaining := if limits.rps < c.count then 0 else limits.rps - c.count;
      return Answer(c.count <= limits.burst, remaining, now / 1000 + limits.window);
    }
  }

  // ---- Runs ----

  datatype Call = Call(now: nat, reply: Reply)

  function Play(calls: seq<Call>, l: Limits): map<nat, Counter>
    requires l.window > 0
  {
    if calls == [] then map[]
    else
      var last := calls[|calls| - 1];
      Check(Play(calls[..|calls| - 1], l), last.now, last.reply, l).0
  }

  /** The answer to the last call of a run. */
  function LastAnswer(calls: seq<Call>, l: Limits): Answer
    requires l.window > 0 && calls != []
  {
    var last := calls[|calls| - 1];
    Check(Play(calls[..|calls| - 1], l), last.now, last.reply, l).1
  }

  /** Increments, checks, failures and admissions that fell into one aligned window. */
  function IncrementsIn(calls: seq<Call>, l: Limits, w: nat): nat
    requires l.window > 0
  {
    if calls == [] then 0
    else
      var last := calls[|calls| - 1];
      IncrementsIn(calls[..|calls| - 1], l, w)
      + One(Bucket(last.now, l) == w && (last.reply.Done? || last.reply.incremented))
  }

  function ChecksIn(calls: seq<Call>, l: Limits, w: nat): nat
    requires l.window > 0
  {
    if calls == [] then 0
    else ChecksIn(calls[..|calls| - 1], l, w) + One(Bucket(calls[|calls| - 1].now, l) == w)
  }

  function FailuresIn(calls: seq<Call>, l: Limits, w: nat): nat
    requires l.window > 0
  {
    if calls == [] then 0
    else
      var last := calls[|calls| - 1];
      FailuresIn(calls[..|calls| - 1], l, w) + One(Bucket(last.now, l) == w && last.reply.Failed?)
  }

  function AdmittedIn(calls: seq<Call>, l: Limits, w: nat): nat
    requires l.window > 0
  {
    if calls == [] then 0
    else
      AdmittedIn(calls[..|calls| - 1], l, w)
      + One(Bucket(calls[|calls| - 1].now, l) == w && LastAnswer(calls, l).allowed)
  }

  /** Admissions at times in [from, to). */
  function AdmittedWithin(calls: seq<Call>, l: Limits, from: nat, to: nat): nat
    requires l.window > 0
  {
    if calls == [] then 0
    else
      AdmittedWithin(calls[..|calls| - 1], l, from, to)
      + One(from <= calls[|calls| - 1].now < to && LastAnswer(calls, l).allowed)
  }

  // ---- The counter never expires inside its window ----

  /** The end of an aligned window. */
  function End(w: nat, l: Limits): nat { 1000 * (l.window * (w + 1)) }

  lemma BucketSpan(now: nat, l: Limits)
    requires l.window > 0
    ensures End(Bucket(now, l), l) - 1000 * l.window <= now < End(Bucket(now, l), l)
  {
    var s, n := now / 1000, l.window;
    assert n * (s / n) <= s < n * (s / n) + n;
    assert n * (s / n + 1) == n * (s / n) + n;
  }

  ghost predicate Lasting(counters: map<nat, Counter>, l: Limits) {
    forall w :: w in counters && counters[w].deadline.Some? ==> End(w, l) <= counters[w].deadline.value
  }

  lemma CheckKeepsLasting(counters: map<nat, Counter>, now: nat, reply: Reply, l: Limits)
    requires l.window > 0 && Lasting(counters, l)
    ensures Lasting(Check(counters, now, reply, l).0, l)
    ensures Bucket(now, l) in counters ==> Current(counters, Bucket(now, l), now) == counters[Bucket(now, l)]
  {
    BucketSpan(now, l);
  }

  /** The aligned windows are the stretches of one window length from zero on. */
  lemma BucketExactly(now: nat, w: nat, l: Limits)
    requires l.window > 0
    ensures Bucket(now, l) == w <==> 1000 * (l.window * w) <= now < 1000 * (l.window * w) + 1000 * l.window
  {
    var b, n := Bucket(now, l), l.window;
    BucketSpan(now, l);
    assert n * (b + 1) == n * b + n && n * (w + 1) == n * w + n;
    Scales(n, b + 1, w);
    Scales(n, w + 1, b);
  }

  /** A counter whose deadline has passed starts anew. */
  lemma ExpiredStartsAnew(counters: map<nat, Counter>, now: nat, l: Limits)
    requires l.window > 0 && Bucket(now, l) in counters
    ensures var before, after := counters[Bucket(now, l)], Check(counters, now, Done, l).0[Bucket(now, l)];
            after.count == if before.deadline.Some? && before.deadline.value < now then 1 else before.count + 1
  {
  }

  /** When the counter of a window is to be deleted: a window and a second after its latest EXPIRE took effect. */
  function DeadlineOf(calls: seq<Call>, l: Limits, w: nat): Option<nat>
    requires l.window > 0
  {
    if calls == [] then None
    else
      var front, last := calls[..|calls| - 1], calls[|calls| - 1];
      if Bucket(last.now, l) == w && IncrementsIn(calls, l, w) > 0 && (last.reply.Done? || last.reply.refreshed)
      then Some(last.now + 1000 * l.window + 1000) else DeadlineOf(front, l, w)
  }

  lemma {:induction false} CounterDeadline(calls: seq<Call>, l: Limits, w: nat)
    requires l.window > 0
    ensures w in Play(calls, l) <==> IncrementsIn(calls, l, w) > 0
    ensures w in Play(calls, l) ==> Play(calls, l)[w].deadline == DeadlineOf(calls, l, w)
    ensures w !in Play(calls, l) ==> DeadlineOf(calls, l, w) == None
  {
    if calls != [] {
      var front, last := calls[..|calls| - 1], calls[|calls| - 1];
      CounterDeadline(front, l, w);
      CounterIsIncrements(front, l, w);
      CounterIsIncrements(calls, l, w);
      CheckKeepsLasting(Play(front, l), last.now, last.reply, l);
    }
  }

  function CountAt(counters: map<nat, Counter>, w: nat): nat {
    if w in counters then counters[w].count else 0
  }

  /** Whatever the clock does, each counter is the number of increments sent to its window. */
  lemma {:induction false} CounterIsIncrements(calls: seq<Call>, l: Limits, w: nat)
    requires l.window > 0
    ensures Lasting(Play(calls, l), l)
    ensures CountAt(Play(calls, l), w) == IncrementsIn(calls, l, w)
  {
    if calls != [] {
      var front, last := calls[..|calls| - 1], calls[|calls| - 1];
      CounterIsIncrements(front, l, w);
      CheckKeepsLasting(Play(front, l), last.now, last.reply, l);
    }
  }

  lemma ResetIsLate(now: nat, l: Limits)
    requires l.window > 0
    ensures End(Bucket(now, l), l) <= 1000 * (now / 1000 + l.window)
  {
    var s, n := now / 1000, l.window;
    assert n * (s / n) <= s;
    assert n * (s / n + 1) == n * (s / n) + n;
  }

  lemma AnswerByIncrements(calls: seq<Call>, l: Limits)
    requires l.window > 0 && calls != []
    ensures var last := calls[|calls| - 1];
            LastAnswer(calls, l).allowed <==>
              last.reply.Failed? || IncrementsIn(calls[..|calls| - 1], l, Bucket(last.now, l)) + 1 <= l.burst
    ensures var last := calls[|calls| - 1];
            var used := IncrementsIn(calls[..|calls| - 1], l, Bucket(last.now, l)) + 1;
            last.reply.Done? ==> LastAnswer(calls, l).remaining == if used < l.rps then l.rps - used else 0
    // The announced reset is one window ahead, so never before the aligned window has ended.
    ensures var last := calls[|calls| - 1];
            last.reply.Done? ==>
              && LastAnswer(calls, l).resetAt == last.now / 1000 + l.window
              && End(Bucket(last.now, l), l) <= 1000 * LastAnswer(calls, l).resetAt
    ensures calls[|calls| - 1].reply.Failed? ==> LastAnswer(calls, l) == Answer(true, 0, 0)
  {
    var front, last := calls[..|calls| - 1], calls[|calls| - 1];
    ResetIsLate(last.now, l);
    CounterIsIncrements(front, l, Bucket(last.now, l));
    CheckKeepsLasting(Play(front, l), last.now, last.reply, l);
  }

  // ---- Main results ----

  function Min(a: nat, b: nat): nat { if a <= b then a else b }

  /** In an aligned window, min(checks, burst) requests are admitted; each failed check can add at most itself. */
  lemma {:induction false} WindowAdmitsExactly(calls: seq<Call>, l: Limits, w: nat)
    requires l.window > 0
    ensures FailuresIn(calls, l, w) == 0 ==>
              && IncrementsIn(calls, l, w) == ChecksIn(calls, l, w)
              && AdmittedIn(calls, l, w) == Min(ChecksIn(calls, l, w), l.burst)
    ensures AdmittedIn(calls, l, w) <= Min(IncrementsIn(calls, l, w), l.burst) + FailuresIn(calls, l, w)
  {
    if calls != [] {
      WindowAdmitsExactly(calls[..|calls| - 1], l, w);
      AnswerByIncrements(calls, l);
    }
  }

  lemma SpanTouchesTwo(now: nat, from: nat, l: Limits)
    requires l.window > 0 && from <= now < from + 1000 * l.window
    ensures Bucket(now, l) == Bucket(from, l) || Bucket(now, l) == Bucket(from, l) + 1
  {
    BucketSpan(now, l);
    BucketSpan(from, l);
    var b, a, n := Bucket(now, l), Bucket(from, l), l.window;
    Scales(n, b + 1, a);
    Scales(n, a + 2, b);
    assert n * (a + 1) == n * a + n && n * (a + 2) == n * a + 2 * n && n * (b + 1) == n * b + n;
  }

  lemma Scales(n: nat, a: nat, b: nat)
    ensures a <= b ==> n * a <= n * b
  {
  }

  lemma {:induction false} SpanIsTwoWindows(calls: seq<Call>, l: Limits, from: nat)
    requires l.window > 0
    ensures AdmittedWithin(calls, l, from, from + 1000 * l.window)
            <= AdmittedIn(calls, l, Bucket(from, l)) + AdmittedIn(calls, l, Bucket(from, l) + 1)
  {
    if calls != [] {
      SpanIsTwoWindows(calls[..|calls| - 1], l, from);
      var now := calls[|calls| - 1].now;
      if from <= now < from + 1000 * l.window { SpanTouchesTwo(now, from, l); }
    }
  }

  /** Without Redis errors, any span of one window length admits at most twice the burst. */
  lemma SpanBound(calls: seq<Call>, l: Limits, from: nat)
    requires l.window > 0
    requires FailuresIn(calls, l, Bucket(from, l)) == 0 && FailuresIn(calls, l, Bucket(from, l) + 1) == 0
    ensures AdmittedWithin(calls, l, from, from + 1000 * l.window) <= 2 * l.burst
  {
    SpanIsTwoWindows(calls, l, from);
    WindowAdmitsExactly(calls, l, Bucket(from, l));
    WindowAdmitsExactly(calls, l, Bucket(from, l) + 1);
  }

  // ---- The bound is reached ----

  /** `n` checks in the last ms of window 0, then `m` in the first ms of window 1. */
  function Straddle(n: nat, m: nat, l: Limits): seq<Call>
    requires l.window > 0
  {
    if m > 0 then Straddle(n, m - 1, l) + [Call(1000 * l.window, Done)]
    else if n > 0 then Straddle(n - 1, 0, l) + [Call(1000 * l.window - 1, Done)]
    else []
  }

  lemma StraddleBuckets(l: Limits)
    requires l.window > 0
    ensures Bucket(1000 * l.window - 1, l) == 0 && Bucket(1000 * l.window, l) == 1
  {
    var n := l.window;
    assert (1000 * n - 1) / 1000 == n - 1 && 1000 * n / 1000 == n;
    assert (n - 1) / n == 0 && n / n == 1;
  }

  lemma AppendCounts(front: seq<Call>, now: nat, l: Limits, w: nat)
    requires l.window > 0
    ensures var calls := front + [Call(now, Done)];
            && ChecksIn(calls, l, w) == ChecksIn(front, l, w) + One(Bucket(now, l) == w)
            && FailuresIn(calls, l, w) == FailuresIn(front, l, w)
  {
    assert (front + [Call(now, Done)])[..|front + [Call(now, Done)]| - 1] == front;
  }

  /** Admissions in the first two windows that all lie in one span are counted there. */
  predicate SpanHasBoth(calls: seq<Call>, l: Limits, from: nat, to: nat)
    requires l.window > 0
  {
    AdmittedWithin(calls, l, from, to) == AdmittedIn(calls, l, 0) + AdmittedIn(calls, l, 1)
  }

  lemma AppendInSpan(front: seq<Call>, now: nat, l: Limits, from: nat, to: nat)
    requires l.window > 0 && SpanHasBoth(front, l, from, to) && from <= now < to && Bucket(now, l) <= 1
    ensures SpanHasBoth(front + [Call(now, Done)], l, from, to)
  {
    assert (front + [Call(now, Done)])[..|front + [Call(now, Done)]| - 1] == front;
  }

  lemma {:induction false} StraddleCounts(n: nat, m: nat, l: Limits)
    requires l.window > 0
    ensures var calls := Straddle(n, m, l);
            && ChecksIn(calls, l, 0) == n && ChecksIn(calls, l, 1) == m
            && FailuresIn(calls, l, 0) == 0 && FailuresIn(calls, l, 1) == 0
            && SpanHasBoth(calls, l, 1000 * l.window - 1, 2000 * l.window - 1)
  {
    StraddleBuckets(l);
    if m > 0 {
      StraddleCounts(n, m - 1, l);
      AppendStraddle(Straddle(n, m - 1, l), 1000 * l.window, l);
    } else if n > 0 {
      StraddleCounts(n - 1, 0, l);
      AppendStraddle(Straddle(n - 1, 0, l), 1000 * l.window - 1, l);
    }
  }

  lemma AppendStraddle(front: seq<Call>, now: nat, l: Limits)
    requires l.window > 0 && (now == 1000 * l.window - 1 || now == 1000 * l.window)
    requires SpanHasBoth(front, l, 1000 * l.window - 1, 2000 * l.window - 1)
    ensures var calls, first := front + [Call(now, Done)], One(now < 1000 * l.window);
            && ChecksIn(calls, l, 0) == ChecksIn(front, l, 0) + first
            && ChecksIn(calls, l, 1) == ChecksIn(front, l, 1) + 1 - first
            && FailuresIn(calls, l, 0) == FailuresIn(front, l, 0) && FailuresIn(calls, l, 1) == FailuresIn(front, l, 1)
            && SpanHasBoth(calls, l, 1000 * l.window - 1, 2000 * l.window - 1)
  {
    StraddleBuckets(l);
    AppendCounts(front, now, l, 0);
    AppendCounts(front, now, l, 1);
    AppendInSpan(front, now, l, 1000 * l.window - 1, 2000 * l.window - 1);
  }

  /** Twice the burst can pass within one window length: the limiter is a fixed window, not a token bucket. */
  lemma SpanBoundIsReached(l: Limits) returns (calls: seq<Call>, from: nat)
    requires l.window > 0
    ensures AdmittedWithin(calls, l, from, from + 1000 * l.window) == 2 * l.burst
  {
    calls, from := Straddle(l.burst, l.burst, l), 1000 * l.window - 1;
    StraddleCounts(l.burst, l.burst, l);
    WindowAdmitsExactly(calls, l, 0);
    WindowAdmitsExactly(calls, l, 1);
  }
}
