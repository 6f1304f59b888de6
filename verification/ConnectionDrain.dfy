/**
 Connection admission and graceful drain of the gateway server, as interleaved steps.

 The accept loop, every connection handler and the clock move independently. A step that is not enabled
 leaves the state as it is, so every sequence of steps is a run. Times are in ms.

 What a panicking handler does depends on the build. The release profile, which the image ships, aborts the
 process; a development build unwinds the handler past its decrement and still drops its permit.
 */
module ConnectionDrain {
  import opened Common

  const MAX_CONNECTIONS := 10000
  const DRAIN_INTERVAL := 100
  const MAX_DRAIN := 30000
  const MAX_SLEEPS := 301
  const USIZE := 0x1_0000_0000_0000_0000

  datatype Build = Abort | Unwind

  datatype Handler = Running | Decremented | Finished | Panicked

  /** Where the server task stands. `sleeps` counts the sleeps of the drain loop begun so far. */
  datatype Main =
    | Accepting
    | Holding                                             // permit acquired, counter not incremented yet
    | Draining(start: nat, sleeps: nat)                   // about to load the counter
    | Timing(start: nat, sleeps: nat)                     // counter was positive, about to look at the clock
    | Sleeping(start: nat, sleeps: nat, wake: nat)
    | Stopped(start: nat, sleeps: nat, at: nat, drained: bool)
    | Aborted                                             // the process is gone

  datatype Server = Server(build: Build, main: Main, permits: nat, active: nat, handlers: seq<Handler>, now: nat)

  datatype Action =
    | AcceptFails
    | TryAcquire
    | CountAndSpawn
    | ShutdownSeen
    | LoadCounter
    | LookAtClock
    | Wake
    | Decrement(h: nat)
    | Release(h: nat)
    | Panic(h: nat)
    | Pass(ms: nat)

  function Initial(build: Build): Server { Server(build, Accepting, MAX_CONNECTIONS, 0, [], 0) }

  predicate Is(s: Server, h: nat, phase: Handler) { h < |s.handlers| && s.handlers[h] == phase }

  function MainStep(s: Server, a: Action): Server {
    match (a, s.main)
    case (TryAcquire, Accepting) =>
      if s.permits > 0 then s.(permits := s.permits - 1, main := Holding) else s
    case (CountAndSpawn, Holding) =>
      s.(active := s.active + 1, handlers := s.handlers + [Running], main := Accepting)
    case (ShutdownSeen, Accepting) => s.(main := Draining(s.now, 0))
    case (LoadCounter, Draining(start, sleeps)) =>
      s.(main := if s.active == 0 then Stopped(start, sleeps, s.now, true) else Timing(start, sleeps))
    case (LookAtClock, Timing(start, sleeps)) =>
      s.(main := if s.now - start > MAX_DRAIN then Stopped(start, sleeps, s.now, false)
                 else Sleeping(start, sleeps + 1, s.now + DRAIN_INTERVAL))
    case (Wake, Sleeping(start, sleeps, wake)) =>
      if s.now >= wake then s.(main := Draining(start, sleeps)) else s
    case _ => s
  }

  function HandlerStep(s: Server, a: Action): Server {
    match a
    case Decrement(h) =>
      if !Is(s, h, Running) then s else
      s.(active := if s.active == 0 then USIZE - 1 else s.active - 1, handlers := s.handlers[h := Decremented])
    case Release(h) =>
      if !Is(s, h, Decremented) then s else s.(permits := s.permits + 1, handlers := s.handlers[h := Finished])
    case Panic(h) =>
      if !Is(s, h, Running) then s
      else if s.build == Abort then s.(main := Aborted)
      else s.(permits := s.permits + 1, handlers := s.handlers[h := Panicked])
    case _ => s
  }

  function Step(s: Server, a: Action): Server {
    if s.main.Aborted? then s else
    match a
    case Pass(ms) => s.(now := s.now + ms)
    case Decrement(_) => HandlerStep(s, a)
    case Release(_) => HandlerStep(s, a)
    case Panic(_) => HandlerStep(s, a)
    case _ => MainStep(s, a)
  }

  function Exec(s: Server, actions: seq<Action>): Server
    decreases |actions|
  {
    if actions == [] then s else Exec(Step(s, actions[0]), actions[1..])
  }

  function Count(hs: seq<Handler>, phase: Handler): nat {
    if hs == [] then 0 else Count(hs[..|hs| - 1], phase) + One(hs[|hs| - 1] == phase)
  }

  lemma {:induction false} CountUpdate(hs: seq<Handler>, i: nat, x: Handler, phase: Handler)
    requires i < |hs|
    ensures Count(hs[i := x], phase) == Count(hs, phase) - One(hs[i] == phase) + One(x == phase)
  {
    var n := |hs| - 1;
    if i == n {
      assert hs[i := x][..n] == hs[..n];
    } else {
      CountUpdate(hs[..n], i, x, phase);
      assert hs[i := x][..n] == hs[..n][i := x];
    }
  }

  lemma CountSnoc(hs: seq<Handler>, x: Handler, phase: Handler)
    ensures Count(hs + [x], phase) == Count(hs, phase) + One(x == phase)
  {
    assert (hs + [x])[..|hs + [x]| - 1] == hs;
  }

  lemma {:induction false} CountHas(hs: seq<Handler>, phase: Handler, h: nat)
    requires h < |hs|
    ensures hs[h] == phase ==> Count(hs, phase) > 0
  {
    if h < |hs| - 1 { CountHas(hs[..|hs| - 1], phase, h); }
  }

  lemma {:induction false} CountSome(hs: seq<Handler>, phase: Handler) returns (h: nat)
    requires Count(hs, phase) > 0
    ensures h < |hs| && hs[h] == phase
  {
    var n := |hs| - 1;
    if hs[n] == phase { h := n; } else { h := CountSome(hs[..n], phase); }
  }

  // ---- What every step keeps ----

  /** Permits held: by the accept loop before it counts, by running handlers, by handlers past their decrement. */
  function PermitsOut(s: Server): nat {
    One(s.main == Holding) + Count(s.handlers, Running) + Count(s.handlers, Decremented)
  }

  /** A process that has aborted keeps the counts it had. */
  predicate Balanced(s: Server) {
    && (if s.main.Aborted? then MAX_CONNECTIONS - 1 <= s.permits + PermitsOut(s) <= MAX_CONNECTIONS
        else s.permits + PermitsOut(s) == MAX_CONNECTIONS)
    && s.active == Count(s.handlers, Running) + Count(s.handlers, Panicked)
    && (s.build == Abort ==> Count(s.handlers, Panicked) == 0)
  }

  /** Each completed sleep took its interval, and none begins after the drain limit. */
  predicate Paced(s: Server) {
    match s.main
    case Accepting => true
    case Holding => true
    case Draining(start, sleeps) => start + DRAIN_INTERVAL * sleeps <= s.now && sleeps <= MAX_SLEEPS
    case Timing(start, sleeps) => start + DRAIN_INTERVAL * sleeps <= s.now && sleeps <= MAX_SLEEPS
    case Sleeping(start, sleeps, wake) =>
      start + DRAIN_INTERVAL * sleeps <= wake <= s.now + DRAIN_INTERVAL && 0 < sleeps <= MAX_SLEEPS
    case Stopped(start, sleeps, at, drained) =>
      && sleeps <= MAX_SLEEPS && start + DRAIN_INTERVAL * sleeps <= at <= s.now
      && (drained ==> s.active == 0)
      && (!drained ==> at - start > MAX_DRAIN)
    case Aborted => true
  }

  ghost predicate Ok(s: Server) { Balanced(s) && Paced(s) }

  /** One handler moves on; what it holds moves with it. */
  lemma HandlerMoves(s: Server, h: nat, x: Handler, s': Server)
    requires Balanced(s) && !s.main.Aborted? && h < |s.handlers|
    requires s' == s.(handlers := s.handlers[h := x], permits := s'.permits, active := s'.active)
    requires match (s.handlers[h], x)
             case (Running, Decremented) =>
               s'.permits == s.permits && s'.active == if s.active == 0 then USIZE - 1 else s.active - 1
             case (Decremented, Finished) => s'.permits == s.permits + 1 && s'.active == s.active
             case (Running, Panicked) => s'.permits == s.permits + 1 && s'.active == s.active && s.build == Unwind
             case _ => false
    ensures Balanced(s') && s'.active <= s.active
  {
    CountUpdate(s.handlers, h, x, Running);
    CountUpdate(s.handlers, h, x, Decremented);
    CountUpdate(s.handlers, h, x, Panicked);
    CountHas(s.handlers, s.handlers[h], h);
  }

  lemma HandlerKeeps(s: Server, a: Action)
    requires Ok(s) && !s.main.Aborted?
    ensures Ok(HandlerStep(s, a))
  {
    var s' := HandlerStep(s, a);
    match a
    case Decrement(h) => if Is(s, h, Running) { HandlerMoves(s, h, Decremented, s'); }
    case Release(h) => if Is(s, h, Decremented) { HandlerMoves(s, h, Finished, s'); }
    case Panic(h) => if Is(s, h, Running) && s.build == Unwind { HandlerMoves(s, h, Panicked, s'); }
    case _ =>
  }

  lemma MainKeeps(s: Server, a: Action)
    requires Ok(s)
    ensures Ok(MainStep(s, a))
  {
    CountSnoc(s.handlers, Running, Running);
    CountSnoc(s.handlers, Running, Decremented);
    CountSnoc(s.handlers, Running, Panicked);
  }

  lemma StepKeeps(s: Server, a: Action)
    requires Ok(s)
    ensures Ok(Step(s, a)) && Step(s, a).build == s.build
  {
    if !s.main.Aborted? && !a.Pass? {
      HandlerKeeps(s, a);
      MainKeeps(s, a);
    }
  }

  lemma {:induction false} OkFrom(s: Server, actions: seq<Action>)
    requires Ok(s)
    ensures Ok(Exec(s, actions)) && Exec(s, actions).build == s.build
    decreases |actions|
  {
    if actions != [] {
      StepKeeps(s, actions[0]);
      OkFrom(Step(s, actions[0]), actions[1..]);
    }
  }

  lemma EmptyIsOk(s: Server)
    requires s.main == Accepting && s.permits == MAX_CONNECTIONS && s.active == 0 && s.handlers == []
    ensures Ok(s)
  {
  }

  lemma OkAlways(build: Build, actions: seq<Action>)
    ensures Ok(Exec(Initial(build), actions)) && Exec(Initial(build), actions).build == build
  {
    var s := Initial(build);
    EmptyIsOk(s);
    OkFrom(s, actions);
  }

  // ---- Permits and the counter ----

  /**
   The permits out are the counter, plus those between acquire and increment or between decrement and release,
   less the counts leaked by panicked handlers; a decrement never meets a zero counter.
   */
  ghost predicate Accounted(s: Server) {
    && (!s.main.Aborted? ==>
          MAX_CONNECTIONS - s.permits + Count(s.handlers, Panicked)
          == s.active + One(s.main == Holding) + Count(s.handlers, Decremented))
    && s.permits <= MAX_CONNECTIONS
    && s.active <= MAX_CONNECTIONS + Count(s.handlers, Panicked)
    && (forall h :: Is(s, h, Running) ==> s.active > 0)
  }

  lemma BalancedIsAccounted(s: Server)
    requires Balanced(s)
    ensures Accounted(s)
  {
    forall h | Is(s, h, Running) ensures s.active > 0 { CountHas(s.handlers, Running, h); }
  }

  /** In every interleaving of every build. */
  lemma PermitsMatchCounter(build: Build, actions: seq<Action>)
    ensures Accounted(Exec(Initial(build), actions))
  {
    OkAlways(build, actions);
    BalancedIsAccounted(Exec(Initial(build), actions));
  }

  /**
   In every run of the shipped build, panics included, the counter never exceeds the connection limit, and while
   the process lives the permits out are exactly the counter and the two gaps.
   */
  lemma ShippedCounterIsExact(actions: seq<Action>)
    ensures var s := Exec(Initial(Abort), actions);
            && s.active <= 10000
            && (!s.main.Aborted? ==>
                  10000 - s.permits == s.active + One(s.main == Holding) + Count(s.handlers, Decremented))
  {
    OkAlways(Abort, actions);
    BalancedIsAccounted(Exec(Initial(Abort), actions));
  }

  // ---- Who is let in ----

  /** While the loop accepts, a connection is refused exactly when all 10000 permits are out. */
  ghost predicate RefusesOnlyWhenFull(s: Server) {
    && PermitsOut(s) <= MAX_CONNECTIONS
    && (Step(s, TryAcquire).main == Holding <==> PermitsOut(s) < MAX_CONNECTIONS)
    && (Step(s, TryAcquire) == s <==> PermitsOut(s) == MAX_CONNECTIONS)
  }

  lemma RefusesFrom(s: Server)
    requires Ok(s) && s.main == Accepting
    ensures RefusesOnlyWhenFull(s)
  {
  }

  lemma RefusedExactly(build: Build, actions: seq<Action>)
    requires Exec(Initial(build), actions).main == Accepting
    ensures RefusesOnlyWhenFull(Exec(Initial(build), actions))
  {
    OkAlways(build, actions);
    RefusesFrom(Exec(Initial(build), actions));
  }

  /** The accept loop is left exactly for a connection that gets a permit, for the signal, or by an abort. */
  lemma LoopLeftExactly(s: Server, a: Action)
    requires s.main == Accepting
    ensures Step(s, a).main == Holding <==> a == TryAcquire && s.permits > 0
    ensures Step(s, a).main.Draining? <==> a == ShutdownSeen
    ensures Step(s, a).main == Aborted <==> a.Panic? && s.build == Abort && Is(s, a.h, Running)
    ensures Step(s, a).main != Accepting ==>
              Step(s, a).main == Holding || Step(s, a).main == Draining(s.now, 0) || Step(s, a).main == Aborted
  {
  }

  /** What each handler does in one step, as long as the process lives. */
  lemma HandlerExactly(s: Server, a: Action, h: nat)
    requires h < |s.handlers| && !s.main.Aborted?
    ensures Is(Step(s, a), h, Decremented) <==>
              (Is(s, h, Running) && a == Decrement(h)) || (Is(s, h, Decremented) && a != Release(h))
    ensures Is(Step(s, a), h, Finished) <==> Is(s, h, Finished) || (Is(s, h, Decremented) && a == Release(h))
    ensures Is(Step(s, a), h, Panicked) <==>
              Is(s, h, Panicked) || (Is(s, h, Running) && a == Panic(h) && s.build == Unwind)
    ensures Is(Step(s, a), h, Running) <==>
              Is(s, h, Running) && a != Decrement(h) && (a != Panic(h) || s.build == Abort)
  {
  }

  /** Handlers still to release their permits, each by at most two steps. */
  function Unreleased(s: Server): nat { 2 * Count(s.handlers, Running) + Count(s.handlers, Decremented) }

  /** From any state of a living process that is not about to spawn, every permit can come back. */
  lemma {:induction false} EveryPermitReturns(start: Server, s: Server) returns (t: Server)
    requires Reaches(start, s) && Ok(s) && !s.main.Aborted? && !s.main.Holding?
    ensures Reaches(start, t) && t.permits == MAX_CONNECTIONS && t.main == s.main
    decreases Unreleased(s)
  {
    if Unreleased(s) == 0 {
      t := s;
    } else {
      var s' := ReleaseSome(start, s);
      t := EveryPermitReturns(start, s');
    }
  }

  lemma ReleaseSome(start: Server, s: Server) returns (t: Server)
    requires Reaches(start, s) && Ok(s) && !s.main.Aborted? && Unreleased(s) > 0
    ensures Reaches(start, t) && Ok(t) && t.main == s.main && Unreleased(t) < Unreleased(s)
  {
    var phase := if Count(s.handlers, Running) > 0 then Running else Decremented;
    var h := CountSome(s.handlers, phase);
    var a := if phase == Running then Decrement(h) else Release(h);
    var next := if phase == Running then Decremented else Finished;
    CountUpdate(s.handlers, h, next, Running);
    CountUpdate(s.handlers, h, next, Decremented);
    ReachesNext(start, s, a);
    StepKeeps(s, a);
    t := Step(s, a);
  }

  /** Any number of connections up to the limit can be open at once. */
  lemma {:induction false} CanHold(start: Server, n: nat) returns (t: Server)
    requires n <= MAX_CONNECTIONS
    requires start.main == Accepting && start.permits == MAX_CONNECTIONS && start.active == 0 && start.handlers == []
    ensures Reaches(start, t) && Ok(t) && t.main == Accepting && t.active == n && Count(t.handlers, Running) == n
    ensures t.permits == MAX_CONNECTIONS - n
  {
    if n == 0 {
      ReachesItself(start);
      EmptyIsOk(start);
      t := start;
    } else {
      var s := CanHold(start, n - 1);
      t := AdmitOne(start, s);
    }
  }

  lemma AdmitOne(start: Server, s: Server) returns (t: Server)
    requires Reaches(start, s) && Ok(s) && s.main == Accepting && s.permits > 0
    ensures Reaches(start, t) && Ok(t) && t.main == Accepting && t.permits == s.permits - 1 && t.active == s.active + 1
    ensures Count(t.handlers, Running) == Count(s.handlers, Running) + 1
  {
    var s1 := Step(s, TryAcquire);
    ReachesNext(start, s, TryAcquire);
    StepKeeps(s, TryAcquire);
    t := Step(s1, CountAndSpawn);
    ReachesNext(start, s1, CountAndSpawn);
    StepKeeps(s1, CountAndSpawn);
    CountSnoc(s.handlers, Running, Running);
  }

  // ---- The drain ----

  /**
   At most 301 sleeps. When the drain has stopped, either every accepted connection is past its decrement and none
   of their handlers ever panicked, or more than the 30 s limit has gone by.
   */
  ghost predicate DrainedOrTimedOut(s: Server) {
    && (s.main.Draining? || s.main.Timing? || s.main.Sleeping? || s.main.Stopped? ==> s.main.sleeps <= MAX_SLEEPS)
    && (s.main.Stopped? && s.main.drained ==>
          forall h :: 0 <= h < |s.handlers| ==> s.handlers[h] == Decremented || s.handlers[h] == Finished)
    && (s.main.Stopped? && !s.main.drained ==> s.main.at - s.main.start > MAX_DRAIN)
  }

  lemma IdleMeansPastDecrement(s: Server, h: nat)
    requires Balanced(s) && s.active == 0 && h < |s.handlers|
    ensures s.handlers[h] == Decremented || s.handlers[h] == Finished
  {
    CountHas(s.handlers, Running, h);
    CountHas(s.handlers, Panicked, h);
  }

  lemma PacedIsDrained(s: Server)
    requires Ok(s)
    ensures DrainedOrTimedOut(s)
  {
    if s.main.Stopped? && s.main.drained {
      forall h | 0 <= h < |s.handlers| ensures s.handlers[h] == Decremented || s.handlers[h] == Finished {
        IdleMeansPastDecrement(s, h);
      }
    }
  }

  /** The drain stops exactly when it finds the counter at zero, or looks at the clock past the limit. */
  lemma StopsExactly(s: Server, a: Action)
    requires !s.main.Stopped?
    ensures Step(s, a).main.Stopped? <==>
              || (a == LoadCounter && s.main.Draining? && s.active == 0)
              || (a == LookAtClock && s.main.Timing? && s.now - s.main.start > MAX_DRAIN)
    ensures Step(s, a).main.Stopped? ==>
              && Step(s, a).main.at == s.now && Step(s, a).main.drained == (a == LoadCounter)
              && Step(s, a).main.start == s.main.start && Step(s, a).main.sleeps == s.main.sleeps
  {
  }

  predicate StartedAt(s: Server, time: nat) {
    match s.main
    case Draining(start, _) => start == time
    case Timing(start, _) => start == time
    case Sleeping(start, _, _) => start == time
    case Stopped(start, _, _, _) => start == time
    case Aborted => true
    case _ => false
  }

  lemma {:induction false} StartStays(s: Server, actions: seq<Action>, time: nat)
    requires StartedAt(s, time)
    ensures StartedAt(Exec(s, actions), time)
    decreases |actions|
  {
    if actions != [] { StartStays(Step(s, actions[0]), actions[1..], time); }
  }

  /**
   However the run goes on after the signal is seen: if the drain has stopped, each of its sleeps took 100 ms since
   the signal, and it gave up only more than 30 s after it.
   */
  lemma DrainTiming(s: Server, more: seq<Action>)
    requires Ok(s) && s.main == Accepting
    ensures var t := Exec(Step(s, ShutdownSeen), more);
            t.main.Stopped? ==>
              && s.now + 100 * t.main.sleeps <= t.main.at <= t.now
              && (!t.main.drained ==> t.main.at > s.now + 30000)
  {
    StepKeeps(s, ShutdownSeen);
    OkFrom(Step(s, ShutdownSeen), more);
    StartStays(Step(s, ShutdownSeen), more, s.now);
  }

  predicate InDrain(s: Server) {
    s.main.Draining? || s.main.Timing? || s.main.Sleeping? || s.main.Stopped? || s.main.Aborted?
  }

  /** What is left of the drain loop, in steps of the server task. */
  function Rank(s: Server): nat
    requires InDrain(s) && Paced(s)
  {
    match s.main
    case Draining(_, sleeps) => 3 * (MAX_SLEEPS + 1 - sleeps)
    case Timing(_, sleeps) => 3 * (MAX_SLEEPS + 1 - sleeps) - 1
    case Sleeping(_, sleeps, _) => 3 * (MAX_SLEEPS + 1 - sleeps) + 1
    case _ => 0
  }

  /** The server task moves: it loads, looks at the clock or wakes, and its place changes. */
  predicate TaskMoves(s: Server, a: Action) {
    (a.LoadCounter? || a.LookAtClock? || a.Wake?) && Step(s, a).main != s.main
  }

  /** A move of the server task uses up the rank, nothing adds to it, and it is used up exactly at the end. */
  lemma RankFalls(s: Server, a: Action)
    requires Ok(s) && InDrain(s)
    ensures Ok(Step(s, a)) && InDrain(Step(s, a))
    ensures Rank(Step(s, a)) + One(TaskMoves(s, a)) <= Rank(s)
    ensures Rank(s) == 0 <==> s.main.Stopped? || s.main.Aborted?
  {
    StepKeeps(s, a);
  }

  /** Until it has ended, the server task can move after at most 100 ms. */
  lemma TaskCanMove(s: Server) returns (ms: nat, a: Action)
    requires Ok(s) && InDrain(s) && Rank(s) > 0
    ensures ms <= DRAIN_INTERVAL && TaskMoves(Step(s, Pass(ms)), a)
  {
    match s.main
    case Draining(_, _) => ms, a := 0, LoadCounter;
    case Timing(_, _) => ms, a := 0, LookAtClock;
    case Sleeping(_, _, wake) => ms, a := if wake <= s.now then 0 else wake - s.now, Wake;
  }

  function Moves(s: Server, actions: seq<Action>): nat
    decreases |actions|
  {
    if actions == [] then 0 else One(TaskMoves(s, actions[0])) + Moves(Step(s, actions[0]), actions[1..])
  }

  lemma {:induction false} MovesAreRanked(s: Server, actions: seq<Action>)
    requires Ok(s) && InDrain(s)
    ensures Ok(Exec(s, actions)) && InDrain(Exec(s, actions))
    ensures Moves(s, actions) + Rank(Exec(s, actions)) <= Rank(s)
    decreases |actions|
  {
    if actions != [] {
      RankFalls(s, actions[0]);
      MovesAreRanked(Step(s, actions[0]), actions[1..]);
    }
  }

  /**
   The drain ends. From any reachable state of it, the server task makes at most 906 more moves whatever else
   happens, each is possible within 100 ms of the last, and it has none left exactly when it has stopped (or the
   process has aborted); how it then stands is what `DrainedOrTimedOut` says.
   */
  lemma DrainEnds(build: Build, actions: seq<Action>, more: seq<Action>)
    requires InDrain(Exec(Initial(build), actions))
    ensures var s := Exec(Initial(build), actions);
            var t := Exec(s, more);
            && Ok(s) && Ok(t) && InDrain(t) && Rank(s) <= 906
            && Moves(s, more) + Rank(t) <= Rank(s)
            && (Rank(t) == 0 <==> t.main.Stopped? || t.main.Aborted?)
            && DrainedOrTimedOut(t)
  {
    OkAlways(build, actions);
    EndsFrom(Exec(Initial(build), actions), more);
  }

  lemma EndsFrom(s: Server, more: seq<Action>)
    requires Ok(s) && InDrain(s)
    ensures var t := Exec(s, more);
            && Ok(t) && InDrain(t) && Rank(s) <= 3 * (MAX_SLEEPS + 1)
            && Moves(s, more) + Rank(t) <= Rank(s)
            && (Rank(t) == 0 <==> t.main.Stopped? || t.main.Aborted?)
            && DrainedOrTimedOut(t)
  {
    MovesAreRanked(s, more);
    RankFalls(Exec(s, more), AcceptFails);
    PacedIsDrained(Exec(s, more));
  }

  /** Once the accept loop has seen the signal, no connection is added, whatever else happens. */
  lemma {:induction false} NoneAcceptedAfterShutdown(s: Server, actions: seq<Action>)
    requires !s.main.Accepting? && !s.main.Holding?
    ensures |Exec(s, actions).handlers| == |s.handlers|
    decreases |actions|
  {
    if actions != [] { NoneAcceptedAfterShutdown(Step(s, actions[0]), actions[1..]); }
  }

  // ---- When a clean drain is still possible ----

  predicate Clean(s: Server) { s.main.Stopped? && s.main.drained }

  ghost predicate Reaches(s: Server, t: Server) {
    exists actions :: Exec(s, actions) == t
  }

  lemma {:induction false} ExecConcat(s: Server, first: seq<Action>, second: seq<Action>)
    ensures Exec(s, first + second) == Exec(Exec(s, first), second)
    decreases |first|
  {
    if first == [] {
      assert first + second == second;
    } else {
      assert (first + second)[1..] == first[1..] + second;
      ExecConcat(Step(s, first[0]), first[1..], second);
    }
  }

  lemma ReachesItself(s: Server)
    ensures Reaches(s, s)
  {
    assert Exec(s, []) == s;
  }

  lemma ReachesNext(s: Server, t: Server, a: Action)
    requires Reaches(s, t)
    ensures Reaches(s, Step(t, a))
  {
    var actions :| Exec(s, actions) == t;
    ExecConcat(s, actions, [a]);
  }

  /** No handler has panicked, and the drain has not given up and is not about to. */
  predicate CanDrain(s: Server) {
    && Count(s.handlers, Panicked) == 0
    && match s.main
       case Timing(start, _) => s.now - start <= MAX_DRAIN
       case Stopped(_, _, _, drained) => drained
       case Aborted => false
       case _ => true
  }

  lemma PanicsRemain(s: Server, a: Action)
    ensures Count(Step(s, a).handlers, Panicked) >= Count(s.handlers, Panicked)
  {
    if a.CountAndSpawn? {
      CountSnoc(s.handlers, Running, Panicked);
    } else if (a.Decrement? || a.Panic?) && Is(s, a.h, Running) {
      CountUpdate(s.handlers, a.h, if a.Panic? then Panicked else Decremented, Panicked);
    } else if a.Release? && Is(s, a.h, Decremented) {
      CountUpdate(s.handlers, a.h, Finished, Panicked);
    }
  }

  lemma StepCannotRevive(s: Server, a: Action)
    requires Ok(s) && !CanDrain(s)
    ensures !CanDrain(Step(s, a))
  {
    PanicsRemain(s, a);
    if Count(s.handlers, Panicked) > 0 { assert !CanDrain(Step(s, a)); }
  }

  lemma {:induction false} NeverClean(s: Server, actions: seq<Action>)
    requires Ok(s) && !CanDrain(s)
    ensures !Clean(Exec(s, actions))
    decreases |actions|
  {
    if actions != [] {
      StepKeeps(s, actions[0]);
      StepCannotRevive(s, actions[0]);
      NeverClean(Step(s, actions[0]), actions[1..]);
    }
  }

  /** With nobody panicked, every running handler can finish. */
  lemma {:induction false} HandlersFinish(s: Server, t: Server) returns (u: Server)
    requires Reaches(s, t) && Ok(t) && CanDrain(t)
    ensures Reaches(s, u) && Ok(u) && u.main == t.main && u.now == t.now && u.active == 0
    ensures Count(u.handlers, Panicked) == 0
    decreases Count(t.handlers, Running)
  {
    if Count(t.handlers, Running) == 0 {
      u := t;
    } else {
      var h := CountSome(t.handlers, Running);
      var t' := Step(t, Decrement(h));
      ReachesNext(s, t, Decrement(h));
      StepKeeps(t, Decrement(h));
      CountUpdate(t.handlers, h, Decremented, Running);
      CountUpdate(t.handlers, h, Decremented, Panicked);
      u := HandlersFinish(s, t');
    }
  }

  /** The server task can be brought to its next load of the counter. */
  lemma ComesToLoad(s: Server, t: Server) returns (u: Server)
    requires Reaches(s, t) && Ok(t) && CanDrain(t) && t.active == 0 && !t.main.Stopped? && !t.main.Holding?
    ensures Reaches(s, u) && u.main.Draining? && u.active == 0
  {
    u := t;
    if u.main.Accepting? {
      ReachesNext(s, u, ShutdownSeen);
      u := Step(u, ShutdownSeen);
    }
    if u.main.Timing? {
      ReachesNext(s, u, LookAtClock);
      u := Step(u, LookAtClock);
    }
    if u.main.Sleeping? {
      ReachesNext(s, u, Pass(u.main.wake));
      u := Step(u, Pass(u.main.wake));
      ReachesNext(s, u, Wake);
      u := Step(u, Wake);
    }
  }

  lemma DrainsFrom(s: Server) returns (u: Server)
    requires Ok(s) && CanDrain(s)
    ensures Reaches(s, u) && Clean(u)
  {
    ReachesItself(s);
    u := s;
    if u.main.Holding? {
      ReachesNext(s, u, CountAndSpawn);
      StepKeeps(u, CountAndSpawn);
      CountSnoc(u.handlers, Running, Panicked);
      u := Step(u, CountAndSpawn);
    }
    if !u.main.Stopped? {
      u := HandlersFinish(s, u);
      u := ComesToLoad(s, u);
      ReachesNext(s, u, LoadCounter);
      u := Step(u, LoadCounter);
    }
  }

  ghost predicate CleanReachable(s: Server) {
    exists more :: Clean(Exec(s, more))
  }

  lemma CleanIffCanDrain(s: Server)
    requires Ok(s)
    ensures CanDrain(s) <==> CleanReachable(s)
  {
    if CanDrain(s) {
      var u := DrainsFrom(s);
      var more :| Exec(s, more) == u;
      assert Clean(Exec(s, more));
    } else {
      forall more ensures !Clean(Exec(s, more)) { NeverClean(s, more); }
    }
  }

  /**
   From a reachable state, a clean end of the drain is still possible exactly when no handler has panicked and the
   drain has neither timed out nor found itself over the limit.
   */
  lemma CleanDrainExactly(build: Build, actions: seq<Action>)
    ensures var s := Exec(Initial(build), actions);
            CanDrain(s) <==> CleanReachable(s)
  {
    OkAlways(build, actions);
    CleanIffCanDrain(Exec(Initial(build), actions));
  }

  /** In an unwinding build a panicked handler is reachable: its permit is back, its count is not. */
  lemma PanicLeaksWhenUnwinding(s: Server) returns (t: Server)
    requires s == Initial(Unwind)
    ensures Reaches(s, t) && Is(t, 0, Panicked) && t.permits == MAX_CONNECTIONS && t.active == 1
  {
    ReachesItself(s);
    ReachesNext(s, s, TryAcquire);
    var s1 := Step(s, TryAcquire);
    ReachesNext(s, s1, CountAndSpawn);
    var s2 := Step(s1, CountAndSpawn);
    ReachesNext(s, s2, Panic(0));
    t := Step(s2, Panic(0));
  }

  /** There, one panicked handler keeps the counter above zero for ever, so the drain can only time out. */
  lemma PanicForcesTimeout(s: Server, actions: seq<Action>)
    requires Ok(s) && Count(s.handlers, Panicked) > 0
    ensures !Clean(Exec(s, actions))
  {
    NeverClean(s, actions);
  }
}
