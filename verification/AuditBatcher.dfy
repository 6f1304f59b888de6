/**
 The asynchronous audit logger: a bounded queue, one worker that batches into a reused buffer, a ticker, and Close.

 One action is one channel operation, one tick or one half of Close: it closes the queue, and once the worker is
 done or five seconds have gone by, the pool. The worker's choice among ready cases, the interleaving with callers
 and the fate of each insert on an open pool are all inputs, so every action sequence is a run.
 */
module AuditBatcher {

  const BATCH_SIZE := 100
  const QUEUE_CAPACITY := 10000

  /** A timestamp of zero is Go's zero time. */
  datatype Event = Event(timestamp: nat, record: string)

  /** What was handed to the sink in one transaction, and whether the transaction committed. */
  datatype Batch = Batch(events: seq<Event>, committed: bool)

  datatype LogOutcome = Accepted | Dropped | Panicked

  /** `accepted` and `dropped` record what `Log` did with its events, in order. */
  datatype State = State(
    queue: seq<Event>, closed: bool, batch: seq<Event>, handed: seq<Batch>, done: bool, poolClosed: bool,
    accepted: seq<Event>, dropped: seq<Event>)

  datatype Action =
    | Log(event: Event, now: nat)
    | Receive(commits: bool)
    | Tick(commits: bool)
    | Close
    | ClosePool

  function Stamped(e: Event, now: nat): Event {
    if e.timestamp == 0 then e.(timestamp := now) else e
  }

  /** Sending on the closed channel panics in the caller, also inside a select with a default case. */
  function DoLog(s: State, event: Event, now: nat): (State, LogOutcome) {
    var e := Stamped(event, now);
    if s.closed then (s, Panicked)
    else if |s.queue| < QUEUE_CAPACITY then (s.(queue := s.queue + [e], accepted := s.accepted + [e]), Accepted)
    else (s.(dropped := s.dropped + [e]), Dropped)
  }

  /** On a closed pool no transaction begins. */
  function Flush(s: State, commits: bool): State {
    if s.batch == [] then s
    else s.(handed := s.handed + [Batch(s.batch, commits && !s.poolClosed)], batch := [])
  }

  /** A receive from a closed channel delivers what is queued first; the worker blocks on an open empty one. */
  function DoReceive(s: State, commits: bool): State {
    if s.done then s
    else if s.queue != [] then
      var s' := s.(queue := s.queue[1..], batch := s.batch + [s.queue[0]]);
      if |s'.batch| >= BATCH_SIZE then Flush(s', commits) else s'
    else if s.closed then Flush(s, commits).(done := true)
    else s
  }

  function DoTick(s: State, commits: bool): State {
    if s.done then s else Flush(s, commits)
  }

  /** Close comes to its pool after it has closed the queue. */
  function DoClosePool(s: State): State {
    if s.closed then s.(poolClosed := true) else s
  }

  /** The logger as a shared object; the batch lives in one buffer that every flush empties and reuses. */
  class Logger {
    var queue: seq<Event>
    var closed: bool
    const buffer: array<Event>
    var length: nat
    var handed: seq<Batch>
    var done: bool
    var poolClosed: bool
    ghost var accepted: seq<Event>
    ghost var dropped: seq<Event>

    ghost predicate Valid()
      reads this
    {
      buffer.Length == BATCH_SIZE && length < BATCH_SIZE
    }

    ghost function View(): State
      requires length <= buffer.Length
      reads this, buffer
    {
      State(queue, closed, buffer[..length], handed, done, poolClosed, accepted, dropped)
    }

    constructor ()
      ensures Valid() && View() == Initial()
    {
      buffer := new Event[BATCH_SIZE](_ => Event(0, ""));
      queue, closed, length, handed, done, poolClosed := [], false, 0, [], false, false;
      accepted, dropped := [], [];
    }

    method LogEvent(event: Event, now: nat) returns (outcome: LogOutcome)
      requires Valid()
      modifies this
      ensures Valid() && (View(), outcome) == DoLog(old(View()), event, now)
    {
      var e := Stamped(event, now);
      if closed {
        outcome := Panicked;
      } else if |queue| < QUEUE_CAPACITY {
        queue, accepted, outcome := queue + [e], accepted + [e], Accepted;
      } else {
        dropped, outcome := dropped + [e], Dropped;
      }
    }

    method FlushBatch(commits: bool)
      requires buffer.Length == BATCH_SIZE && length <= BATCH_SIZE
      modifies this
      ensures Valid() && View() == Flush(old(View()), commits)
    {
      if length != 0 {
        handed := handed + [Batch(buffer[..length], commits && !poolClosed)];
        length := 0;
      }
    }

    method ReceiveEvent(commits: bool)
      requires Valid()
      modifies this, buffer
      ensures Valid() && View() == DoReceive(old(View()), commits)
    {
      if done {
      } else if queue != [] {
        buffer[length] := queue[0];
        length, queue := length + 1, queue[1..];
        assert buffer[..length] == old(buffer[..length]) + [old(queue)[0]];
        if length >= BATCH_SIZE {
          FlushBatch(commits);
        }
      } else if closed {
        FlushBatch(commits);
        done := true;
      }
    }

    method TickerFires(commits: bool)
      requires Valid()
      modifies this
      ensures Valid() && View() == DoTick(old(View()), commits)
    {
      if !done {
        FlushBatch(commits);
      }
    }

    method CloseQueue()
      requires Valid()
      modifies this
      ensures Valid() && View() == old(View()).(closed := true)
    {
      closed := true;
    }

    method ClosePoolAfter()
      requires Valid()
      modifies this
      ensures Valid() && View() == DoClosePool(old(View()))
    {
      if closed {
        poolClosed := true;
      }
    }
  }

  // ---- Runs ----

  function Initial(): State { State([], false, [], [], false, false, [], []) }

  function Step(s: State, a: Action): State {
    match a
    case Log(event, now) => DoLog(s, event, now).0
    case Receive(commits) => DoReceive(s, commits)
    case Tick(commits) => DoTick(s, commits)
    case Close => s.(closed := true)
    case ClosePool => DoClosePool(s)
  }

  function Exec(s: State, actions: seq<Action>): State
    decreases |actions|
  {
    if actions == [] then s else Exec(Step(s, actions[0]), actions[1..])
  }

  /** Everything handed to the sink, batch after batch. */
  function Handed(batches: seq<Batch>): seq<Event> {
    if batches == [] then [] else Handed(batches[..|batches| - 1]) + batches[|batches| - 1].events
  }

  /** What the database holds: the batches whose transaction committed. */
  function Rows(batches: seq<Batch>): seq<Event> {
    if batches == [] then []
    else
      var last := batches[|batches| - 1];
      Rows(batches[..|batches| - 1]) + if last.committed then last.events else []
  }

  predicate FullSizes(batches: seq<Batch>) {
    forall i :: 0 <= i < |batches| ==> 1 <= |batches[i].events| <= BATCH_SIZE
  }

  /** Nothing is lost, duplicated or reordered between `Log` and the sink. */
  predicate Conserved(s: State) {
    Handed(s.handed) + s.batch + s.queue == s.accepted
  }

  predicate Ok(s: State) {
    && Conserved(s) && FullSizes(s.handed) && (s.poolClosed ==> s.closed)
    && |s.batch| < BATCH_SIZE && |s.queue| <= QUEUE_CAPACITY
    && (s.done ==> s.closed && s.batch == [] && s.queue == [])
    && (s.dropped != [] ==> |s.accepted| >= QUEUE_CAPACITY)
  }

  lemma HandedSnoc(batches: seq<Batch>, b: Batch)
    ensures Handed(batches + [b]) == Handed(batches) + b.events
  {
    assert (batches + [b])[..|batches + [b]| - 1] == batches;
  }

  lemma FlushKeeps(s: State, commits: bool)
    requires FullSizes(s.handed) && |s.batch| <= BATCH_SIZE
    ensures var s' := Flush(s, commits);
            && s'.batch == [] && FullSizes(s'.handed) && Handed(s'.handed) == Handed(s.handed) + s.batch
            && s' == s.(handed := s'.handed, batch := [])
  {
    if s.batch != [] { HandedSnoc(s.handed, Batch(s.batch, commits && !s.poolClosed)); }
  }

  /** A working pipeline whose batch may be due. */
  predicate Working(s: State) {
    && Conserved(s) && FullSizes(s.handed)
    && |s.batch| <= BATCH_SIZE && |s.queue| <= QUEUE_CAPACITY && !s.done && (s.poolClosed ==> s.closed)
    && (s.dropped != [] ==> |s.accepted| >= QUEUE_CAPACITY)
  }

  lemma FlushOk(s: State, commits: bool)
    requires Working(s)
    ensures Ok(Flush(s, commits))
  {
    FlushKeeps(s, commits);
  }

  lemma MoveConserves(handed: seq<Event>, batch: seq<Event>, queue: seq<Event>)
    requires queue != []
    ensures handed + (batch + [queue[0]]) + queue[1..] == handed + batch + queue
  {
  }

  function Moved(s: State): State
    requires s.queue != []
  {
    s.(queue := s.queue[1..], batch := s.batch + [s.queue[0]])
  }

  lemma MoveKeeps(s: State)
    requires Ok(s) && s.queue != []
    ensures Working(Moved(s))
  {
    MoveConserves(Handed(s.handed), s.batch, s.queue);
  }

  lemma ReceiveKeeps(s: State, commits: bool)
    requires Ok(s)
    ensures Ok(DoReceive(s, commits))
  {
    if !s.done {
      if s.queue != [] {
        MoveKeeps(s);
        FlushOk(Moved(s), commits);
        assert DoReceive(s, commits) == if |Moved(s).batch| >= BATCH_SIZE then Flush(Moved(s), commits) else Moved(s);
      } else {
        FlushOk(s, commits);
      }
    }
  }

  lemma LogConserves(handed: seq<Event>, batch: seq<Event>, queue: seq<Event>, e: Event)
    ensures handed + batch + (queue + [e]) == handed + batch + queue + [e]
  {
  }

  lemma LogKeeps(s: State, event: Event, now: nat)
    requires Ok(s)
    ensures Ok(DoLog(s, event, now).0)
  {
    LogConserves(Handed(s.handed), s.batch, s.queue, Stamped(event, now));
    if !s.closed && |s.queue| >= QUEUE_CAPACITY { assert |s.accepted| >= |s.queue|; }
  }

  lemma TickKeeps(s: State, commits: bool)
    requires Ok(s)
    ensures Ok(DoTick(s, commits))
  {
    if !s.done { FlushOk(s, commits); }
  }

  lemma StepKeeps(s: State, a: Action)
    requires Ok(s)
    ensures Ok(Step(s, a))
  {
    match a
    case Log(event, now) => LogKeeps(s, event, now);
    case Receive(commits) => ReceiveKeeps(s, commits);
    case Tick(commits) => TickKeeps(s, commits);
    case Close =>
    case ClosePool =>
  }

  lemma {:induction false} OkFrom(s: State, actions: seq<Action>)
    requires Ok(s)
    ensures Ok(Exec(s, actions))
    decreases |actions|
  {
    if actions != [] {
      StepKeeps(s, actions[0]);
      OkFrom(Step(s, actions[0]), actions[1..]);
    }
  }

  /** For every interleaving: conservation in order, batches of 1 to 100, and an empty pipeline once done. */
  lemma NothingIsLost(actions: seq<Action>)
    ensures var s := Exec(Initial(), actions);
            && Handed(s.handed) + s.batch + s.queue == s.accepted
            && (forall i :: 0 <= i < |s.handed| ==> 1 <= |s.handed[i].events| <= 100)
            && |s.batch| < 100 && |s.queue| <= 10000
            && (s.done ==> Handed(s.handed) == s.accepted)
            && (s.dropped != [] ==> |s.accepted| >= 10000)
            && (s.poolClosed ==> s.closed)
  {
    OkFrom(Initial(), actions);
  }

  // ---- What becomes of each Log call ----

  /** The outcome of the Log call at position `k` of a run. */
  function OutcomeAt(actions: seq<Action>, k: nat): LogOutcome
    requires k < |actions| && actions[k].Log?
  {
    DoLog(Exec(Initial(), actions[..k]), actions[k].event, actions[k].now).1
  }

  lemma {:induction false} ClosedMeansClose(s: State, actions: seq<Action>)
    ensures Exec(s, actions).closed <==> s.closed || Close in actions
    decreases |actions|
  {
    if actions != [] { ClosedMeansClose(Step(s, actions[0]), actions[1..]); }
  }

  /** In every run a Log call panics exactly after Close, and before it is dropped exactly at a full queue. */
  lemma LogOutcomeExactly(actions: seq<Action>, k: nat)
    requires k < |actions| && actions[k].Log?
    ensures OutcomeAt(actions, k) == Panicked <==> Close in actions[..k]
    ensures OutcomeAt(actions, k) == Dropped <==>
              Close !in actions[..k] && |Exec(Initial(), actions[..k]).queue| == 10000
  {
    ClosedMeansClose(Initial(), actions[..k]);
    NothingIsLost(actions[..k]);
  }

  /** The Log calls with the given outcome, in order. */
  function Calls(s: State, actions: seq<Action>, outcome: LogOutcome): seq<Action>
    decreases |actions|
  {
    if actions == [] then []
    else CallOf(s, actions[0], outcome) + Calls(Step(s, actions[0]), actions[1..], outcome)
  }

  function CallOf(s: State, a: Action, outcome: LogOutcome): seq<Action> {
    if a.Log? && DoLog(s, a.event, a.now).1 == outcome then [a] else []
  }

  /** What the logger owes a caller: the record as given, and its time, or the time of the call if it has none. */
  predicate Keeps(call: Action, e: Event) {
    && call.Log? && e.record == call.event.record
    && (call.event.timestamp != 0 ==> e.timestamp == call.event.timestamp)
    && (call.event.timestamp == 0 ==> e.timestamp == call.now)
  }

  ghost predicate KeepsAll(calls: seq<Action>, events: seq<Event>) {
    |calls| == |events| && forall i :: 0 <= i < |calls| ==> Keeps(calls[i], events[i])
  }

  lemma StepRecords(s: State, a: Action) returns (accepted: seq<Event>, dropped: seq<Event>)
    ensures Step(s, a).accepted == s.accepted + accepted && KeepsAll(CallOf(s, a, Accepted), accepted)
    ensures Step(s, a).dropped == s.dropped + dropped && KeepsAll(CallOf(s, a, Dropped), dropped)
  {
    accepted := Step(s, a).accepted[|s.accepted|..];
    dropped := Step(s, a).dropped[|s.dropped|..];
  }

  lemma {:induction false} RecordsFrom(s: State, actions: seq<Action>)
    returns (accepted: seq<Event>, dropped: seq<Event>)
    ensures Exec(s, actions).accepted == s.accepted + accepted && KeepsAll(Calls(s, actions, Accepted), accepted)
    ensures Exec(s, actions).dropped == s.dropped + dropped && KeepsAll(Calls(s, actions, Dropped), dropped)
    decreases |actions|
  {
    if actions == [] {
      accepted, dropped := [], [];
    } else {
      var a1, d1 := StepRecords(s, actions[0]);
      var a2, d2 := RecordsFrom(Step(s, actions[0]), actions[1..]);
      accepted, dropped := a1 + a2, d1 + d2;
    }
  }

  /** In every run, accepted and dropped are the calls with that outcome in order, each with its own record and time. */
  lemma RecordsAreOutcomes(actions: seq<Action>)
    ensures KeepsAll(Calls(Initial(), actions, Accepted), Exec(Initial(), actions).accepted)
    ensures KeepsAll(Calls(Initial(), actions, Dropped), Exec(Initial(), actions).dropped)
  {
    var s := Initial();
    var accepted, dropped := RecordsFrom(s, actions);
    assert Exec(s, actions).accepted == accepted && Exec(s, actions).dropped == dropped;
  }

  // ---- When a batch is handed over ----

  /** A batch is handed over exactly at a tick, when it reaches 100, or when the worker ends, and never empty. */
  lemma HandsOverExactly(s: State, a: Action)
    requires Ok(s)
    ensures |Step(s, a).handed| > |s.handed| <==>
              && !s.done
              && match a
                 case Tick(_) => s.batch != []
                 case Receive(_) =>
                   (s.queue != [] && |s.batch| == 99) || (s.queue == [] && s.closed && s.batch != [])
                 case _ => false
    ensures Step(s, a).handed[..|s.handed|] == s.handed && |Step(s, a).handed| <= |s.handed| + 1
    ensures |Step(s, a).handed| > |s.handed| || (a.Tick? && !s.done) ==> Step(s, a).batch == []
  {
  }

  /** It holds the whole batch with the event just received, and is committed as its insert goes on an open pool. */
  lemma HandsOverWholeBatch(s: State, a: Action)
    requires Ok(s) && |Step(s, a).handed| > |s.handed|
    ensures a.Tick? || a.Receive?
    ensures var last := Step(s, a).handed[|s.handed|];
            && last.events == s.batch + (if a.Receive? && s.queue != [] then [s.queue[0]] else [])
            && (last.committed <==> a.commits && !s.poolClosed)
  {
  }

  /** The pool is closed exactly by the second half of Close, after the first. */
  lemma PoolClosesExactly(s: State, a: Action)
    ensures Step(s, a).poolClosed <==> s.poolClosed || (a == ClosePool && s.closed)
    ensures Step(s, a).closed <==> s.closed || a == Close
  {
  }

  // ---- Closing ----

  function Receives(actions: seq<Action>): nat
    decreases |actions|
  {
    if actions == [] then 0 else (if actions[0].Receive? then 1 else 0) + Receives(actions[1..])
  }

  /** After Close the worker is done exactly when it has received once more than the queue was long. */
  lemma {:induction false} DoneAfterDraining(s: State, actions: seq<Action>)
    requires s.closed && !s.done
    ensures Exec(s, actions).done <==> Receives(actions) >= |s.queue| + 1
    decreases |actions|
  {
    if actions != [] {
      var s' := Step(s, actions[0]);
      if s'.done {
        DoneStays(s', actions[1..]);
      } else {
        DoneAfterDraining(s', actions[1..]);
      }
    }
  }

  lemma {:induction false} DoneStays(s: State, actions: seq<Action>)
    requires s.done
    ensures Exec(s, actions).done
    decreases |actions|
  {
    if actions != [] { DoneStays(Step(s, actions[0]), actions[1..]); }
  }

  // ---- The database ----

  lemma {:induction false} RowsAtMostHanded(batches: seq<Batch>)
    ensures |Rows(batches)| <= |Handed(batches)|
  {
    if batches != [] { RowsAtMostHanded(batches[..|batches| - 1]); }
  }

  lemma {:induction false} RowsAreHanded(batches: seq<Batch>)
    requires FullSizes(batches)
    ensures Rows(batches) == Handed(batches) <==> forall i :: 0 <= i < |batches| ==> batches[i].committed
    ensures Rows(batches) != Handed(batches) ==> |Rows(batches)| < |Handed(batches)|
  {
    if batches != [] {
      var n := |batches| - 1;
      RowsAreHanded(batches[..n]);
      RowsAtMostHanded(batches[..n]);
    }
  }

  /**
   Once done, the table holds exactly the accepted events in order, each with the record and time of its call, if and
   only if every insert committed.
   */
  lemma StoredExactly(actions: seq<Action>)
    requires Exec(Initial(), actions).done
    ensures var s := Exec(Initial(), actions);
            Rows(s.handed) == s.accepted <==> forall i :: 0 <= i < |s.handed| ==> s.handed[i].committed
    ensures var s := Exec(Initial(), actions);
            KeepsAll(Calls(Initial(), actions, Accepted), Rows(s.handed)) <==>
              forall i :: 0 <= i < |s.handed| ==> s.handed[i].committed
  {
    NothingIsLost(actions);
    RecordsAreOutcomes(actions);
    RowsAreHanded(Exec(Initial(), actions).handed);
  }

  lemma RowsSnoc(batches: seq<Batch>, b: Batch)
    requires !b.committed
    ensures Rows(batches + [b]) == Rows(batches)
  {
    assert (batches + [b])[..|batches + [b]| - 1] == batches;
  }

  lemma FlushAddsNoRows(s: State, commits: bool)
    requires s.poolClosed
    ensures Rows(Flush(s, commits).handed) == Rows(s.handed)
  {
    if s.batch != [] { RowsSnoc(s.handed, Batch(s.batch, false)); }
  }

  lemma ReceiveAddsNoRows(s: State, commits: bool)
    requires s.poolClosed
    ensures Rows(DoReceive(s, commits).handed) == Rows(s.handed)
  {
    FlushAddsNoRows(s, commits);
    if s.queue != [] { FlushAddsNoRows(Moved(s), commits); }
  }

  /** What a closed pool and a closed queue leave unchanged. */
  predicate Frozen(s: State, s': State) {
    s'.closed && s'.poolClosed && s'.accepted == s.accepted && Rows(s'.handed) == Rows(s.handed)
  }

  lemma StepFreezes(s: State, a: Action, s': State)
    requires s.closed && s.poolClosed && s' == Step(s, a)
    ensures Frozen(s, s')
  {
    match a
    case Log(_, _) =>
    case Receive(commits) => ReceiveAddsNoRows(s, commits);
    case Tick(commits) => FlushAddsNoRows(s, commits);
    case Close =>
    case ClosePool =>
  }

  /** Once the pool is closed, table and accepted events stay as they are, whatever the worker still does. */
  lemma {:induction false} NothingStoredAfterPool(s: State, actions: seq<Action>)
    requires s.closed && s.poolClosed
    ensures Rows(Exec(s, actions).handed) == Rows(s.handed) && Exec(s, actions).accepted == s.accepted
    decreases |actions|
  {
    if actions != [] {
      var s' := Step(s, actions[0]);
      StepFreezes(s, actions[0], s');
      NothingStoredAfterPool(s', actions[1..]);
    }
  }

  /**
   When Close reaches the pool, what will ever be stored is settled: all accepted events exactly when the worker has
   handed everything over and every insert committed.
   */
  lemma CloseSettlesTheTable(actions: seq<Action>, more: seq<Action>)
    requires Close in actions
    ensures var s := Step(Exec(Initial(), actions), ClosePool);
            Rows(Exec(s, more).handed) == Exec(s, more).accepted <==>
              s.batch == [] && s.queue == [] && forall i :: 0 <= i < |s.handed| ==> s.handed[i].committed
  {
    var s := Step(Exec(Initial(), actions), ClosePool);
    ClosedMeansClose(Initial(), actions);
    NothingIsLost(actions);
    SettledFrom(s, more);
  }

  lemma SettledFrom(s: State, more: seq<Action>)
    requires s.closed && s.poolClosed && Handed(s.handed) + s.batch + s.queue == s.accepted && FullSizes(s.handed)
    ensures Rows(Exec(s, more).handed) == Exec(s, more).accepted <==>
              s.batch == [] && s.queue == [] && forall i :: 0 <= i < |s.handed| ==> s.handed[i].committed
  {
    NothingStoredAfterPool(s, more);
    RowsAreHanded(s.handed);
    RowsAtMostHanded(s.handed);
    assert |s.accepted| == |Handed(s.handed)| + |s.batch| + |s.queue|;
  }
}
