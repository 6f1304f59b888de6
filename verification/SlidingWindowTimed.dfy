/**
 The interleaved limiter with time: one clock that never goes back gives every check its `now` and every command
 its server time. A late check may store an old score, and a key may expire between another check's ZADD and its
 EXPIRE; this settles how many admissions a window can hold then.
 */
module SlidingWindowTimed {
  import opened Common
  import opened StoredKey
  import opened SortedSetKey
  import opened SlidingWindow
  import opened SlidingWindowRace

  datatype Command = StartCheck | PruneSet | CountSet | StoreEntry | SetExpiry

  datatype TimedAction = Advance(ms: nat) | Do(i: nat, command: Command)

  /** `log` holds the score of every entry ever stored, `answered` that of every check answered with yes. */
  datatype Timed = Timed(race: State, clock: nat, log: seq<nat>, answered: seq<nat>)

  function AsAction(i: nat, command: Command, clock: nat): Action {
    match command
    case StartCheck => Start(i, clock)
    case PruneSet => Prune(i, clock)
    case CountSet => Count(i, clock)
    case StoreEntry => Store(i, clock)
    case SetExpiry => Expire(i, clock)
  }

  /** Slot `i` is about to send its ZADD, or its EXPIRE. */
  predicate Stores(s: Timed, i: nat, command: Command) {
    command.StoreEntry? && i < |s.race.slots| && s.race.slots[i].Passed?
  }

  predicate Finishes(s: Timed, i: nat, command: Command) {
    command.SetExpiry? && i < |s.race.slots| && s.race.slots[i].Added?
  }

  /** A check is answered with yes when its EXPIRE is not refused. */
  function TimedStep(s: Timed, a: TimedAction, q: Quota): Timed {
    match a
    case Advance(ms) => s.(clock := s.clock + ms)
    case Do(i, command) =>
      Timed(Step(s.race, AsAction(i, command, s.clock), q), s.clock,
            if Stores(s, i, command) then s.log + [s.race.slots[i].now] else s.log,
            if Finishes(s, i, command) && Accepts(s.clock, q) then s.answered + [s.race.slots[i].now] else s.answered)
  }

  /** Whether an EXPIRE at this time is not refused, which does not depend on the key. */
  predicate Accepts(clock: nat, q: Quota) { ExpireSigned(Missing, clock, Signed(q.window)).Some? }

  /** Whether it sets a deadline that lies ahead. */
  predicate Serves(clock: nat, q: Quota) { q.window > 0 && clock + 1000 * q.window < I64 }

  lemma ServedIsPlain(key: Key, clock: nat, x: nat, q: Quota)
    requires Serves(clock, q)
    ensures Accepts(clock, q) && AfterExpire(key, clock, q) == ExpireIn(key, clock, q.window)
    ensures WideStart(x, q) == WindowStart(x, q)
  {
    assert 1000 * q.window % U64 == 1000 * q.window;
  }

  lemma UnservedIsRefused(clock: nat, q: Quota)
    requires !Serves(clock, q) && 0 < q.window < U64 - MAX_EXPIRE
    ensures !Accepts(clock, q)
  {
  }

  function TimedExec(s: Timed, actions: seq<TimedAction>, q: Quota): Timed
    decreases |actions|
  {
    if actions == [] then s else TimedExec(TimedStep(s, actions[0], q), actions[1..], q)
  }

  // ---- Entries of the window, in the key and in the log ----

  /** A check that may still store a score of the window. */
  predicate Pending(slot: Slot, from: nat, to: nat) {
    (slot.Started? || slot.Pruned? || slot.Passed?) && from <= slot.now < to
  }

  function PendingIn(from: nat, to: nat): Slot -> bool {
    slot => Pending(slot, from, to)
  }

  function AddedIn(from: int, to: int): Slot -> bool {
    (slot: Slot) => slot.Added? && from <= slot.now < to
  }

  ghost predicate SlotsUpTo(slots: seq<Slot>, t: nat) {
    forall i :: 0 <= i < |slots| && !slots[i].Free? ==> 0 < slots[i].now <= t
  }

  /** How many entries of a window can leave the key while the window lasts. */
  function LossCap(q: Quota, c: nat): nat { if q.limit == 1 then 0 else c }

  predicate DueBefore(key: Key, to: nat) {
    key.ZSet? && key.deadline.Some? && key.deadline.value < to
  }

  /**
   Before the window ends: of `stored` entries of the window at most `cap` have left the key. As long as the key can
   still expire before the window ends, none has, and each belongs to a check that has not set its expiry yet.
   */
  ghost predicate KeyOk(key: Key, stored: nat, added: nat, cap: nat, from: nat, to: nat) {
    var held := Within(Scores(key), from, to);
    && held <= stored <= held + cap
    && (DueBefore(key, to) ==> stored == held <= added && held <= cap)
  }

  lemma VisibleOk(key: Key, now: nat, stored: nat, added: nat, cap: nat, from: nat, to: nat)
    requires KeyOk(key, stored, added, cap, from, to) && now < to
    ensures KeyOk(Visible(key, now), stored, added, cap, from, to)
  {
  }

  lemma {:induction false} WithinOfAfter(log: seq<nat>, cut: int, from: nat, to: nat)
    requires cut < from
    ensures Within(After(log, cut), from, to) == Within(log, from, to)
  {
    if log != [] {
      var front, last := log[..|log| - 1], log[|log| - 1];
      WithinOfAfter(front, cut, from, to);
      if last > cut { WithinSnoc(After(front, cut), last, from, to); }
    }
  }

  lemma RemoveOk(key: Key, upTo: nat, stored: nat, added: nat, cap: nat, from: nat, to: nat)
    requires KeyOk(key, stored, added, cap, from, to) && upTo < from
    ensures KeyOk(RemoveUpTo(key, upTo), stored, added, cap, from, to)
  {
    WithinOfAfter(Scores(key), upTo, from, to);
  }

  lemma AddOk(key: Key, score: nat, stored: nat, added: nat, cap: nat, from: nat, to: nat)
    requires KeyOk(key, stored, added, cap, from, to)
    requires DueBefore(key, to) && from <= score < to ==> stored < cap
    ensures KeyOk(Add(key, score), stored + One(from <= score < to), added + 1, cap, from, to)
  {
    WithinSnoc(Scores(key), score, from, to);
    assert [] + [score] == [score];
  }

  lemma ExpireOk(key: Key, now: nat, window: nat, stored: nat, added: nat, added': nat, cap: nat, from: nat)
    requires KeyOk(key, stored, added, cap, from, from + 1000 * window) && window > 0
    requires now < from ==> stored == 0
    ensures KeyOk(ExpireIn(key, now, window), stored, added', cap, from, from + 1000 * window)
  {
  }

  lemma {:induction false} WithinNone(log: seq<nat>, t: nat, from: nat, to: nat)
    requires AllUpTo(log, t) && t < from
    ensures Within(log, from, to) == 0
  {
    if log != [] { WithinNone(log[..|log| - 1], t, from, to); }
  }

  lemma {:induction false} WithinBound(log: seq<nat>, from: int, to: int)
    ensures Within(log, from, to) <= |log|
  {
    if log != [] { WithinBound(log[..|log| - 1], from, to); }
  }

  // ---- The invariant ----

  /** Nothing lies in the future, and a set that exists has entries. */
  ghost predicate Past(s: Timed) {
    && 0 < s.clock && |s.race.slots| > 0 && (s.race.key.ZSet? ==> s.race.key.content != [])
    && AllUpTo(s.log, s.clock) && AllUpTo(s.answered, s.clock) && SlotsUpTo(s.race.slots, s.clock)
  }

  /** With a limit of 1, a check of the window passes only on a missing key, which cannot fall due in the window. */
  ghost predicate NoneWaiting(race: State, from: nat, to: nat, q: Quota) {
    q.limit == 1 && DueBefore(race.key, to) ==>
      forall i :: 0 <= i < |race.slots| && race.slots[i].Passed? ==> race.slots[i].now < from
  }

  /** The state of the window [from, to) before it ends, and after. */
  ghost predicate WindowOk(s: Timed, from: nat, to: nat, q: Quota) {
    var stored, c := Within(s.log, from, to), |s.race.slots|;
    if s.clock < to then
      && KeyOk(s.race.key, stored, Tally(s.race.slots, IsAdded), LossCap(q, c), from, to)
      && NoneWaiting(s.race, from, to, q)
    else stored + Tally(s.race.slots, PendingIn(from, to)) < q.limit + 2 * c + LossCap(q, c)
  }

  ghost predicate Good(s: Timed, from: nat, q: Quota) {
    Past(s) && Committed(s.race) < q.limit + |s.race.slots| && WindowOk(s, from, from + 1000 * q.window, q)
  }

  lemma AdvanceKeeps(s: Timed, ms: nat, from: nat, q: Quota)
    requires Good(s, from, q)
    ensures Good(s.(clock := s.clock + ms), from, q)
  {
    var to := from + 1000 * q.window;
    if s.clock < to <= s.clock + ms {
      WithinBound(Scores(s.race.key), from, to);
      TallyBound(s.race.slots, PendingIn(from, to));
    }
  }

  lemma PastKeeps(s: Timed, i: nat, command: Command, q: Quota)
    requires Past(s)
    ensures Past(TimedStep(s, Do(i, command), q))
  {
    if Stores(s, i, command) { AllUpToSnoc(s.log, s.race.slots[i].now, s.clock); }
    if Finishes(s, i, command) { AllUpToSnoc(s.answered, s.race.slots[i].now, s.clock); }
  }

  lemma WaitingKeeps(s: Timed, i: nat, command: Command, from: nat, q: Quota)
    requires Past(s) && Serves(s.clock, q) && NoneWaiting(s.race, from, from + 1000 * q.window, q)
    ensures NoneWaiting(TimedStep(s, Do(i, command), q).race, from, from + 1000 * q.window, q)
  {
  }

  /** A command of slot `i` took `s` to `s'`, leaving the given key and slot and logging `entries`. */
  ghost predicate Moves(s: Timed, i: nat, s': Timed, key: Key, slot: Slot, entries: seq<nat>) {
    && i < |s.race.slots|
    && s' == Timed(State(key, s.race.slots[i := slot]), s.clock, s.log + entries, s'.answered)
  }

  /** After the window has ended, a check can only use up its own pending place. */
  lemma LateQuiet(s: Timed, i: nat, s': Timed, slot: Slot, from: nat, to: nat, q: Quota)
    requires WindowOk(s, from, to, q) && s.clock >= to && Moves(s, i, s', s'.race.key, slot, [])
    requires Pending(slot, from, to) ==> Pending(s.race.slots[i], from, to)
    ensures WindowOk(s', from, to, q)
  {
    TallyUpdate(s.race.slots, PendingIn(from, to), i, slot);
    assert s'.log == s.log;
  }

  lemma LateStore(s: Timed, i: nat, s': Timed, from: nat, to: nat, q: Quota)
    requires WindowOk(s, from, to, q) && s.clock >= to && i < |s.race.slots| && s.race.slots[i].Passed?
    requires var now := s.race.slots[i].now; Moves(s, i, s', s'.race.key, Added(now), [now])
    ensures WindowOk(s', from, to, q)
  {
    var now := s.race.slots[i].now;
    TallyUpdate(s.race.slots, PendingIn(from, to), i, Added(now));
    WithinSnoc(s.log, now, from, to);
  }

  lemma LateKeeps(s: Timed, i: nat, command: Command, from: nat, to: nat, q: Quota)
    requires WindowOk(s, from, to, q) && s.clock >= to
    ensures WindowOk(TimedStep(s, Do(i, command), q), from, to, q)
  {
    var s' := TimedStep(s, Do(i, command), q);
    if s' != s {
      if command.StoreEntry? { LateStore(s, i, s', from, to, q); }
      else { LateQuiet(s, i, s', s'.race.slots[i], from, to, q); }
    }
  }

  /** The state of a run before the window ends. */
  ghost predicate Early(s: Timed, from: nat, q: Quota) {
    && Past(s) && 0 < from && Serves(s.clock, q) && s.clock < from + 1000 * q.window
    && WindowOk(s, from, from + 1000 * q.window, q)
  }

  /** The key as the next command finds it, with what is known of it. */
  lemma EarlyVisible(s: Timed, from: nat, q: Quota) returns (key: Key, stored: nat, added: nat, cap: nat, to: nat)
    requires Early(s, from, q)
    ensures key == Visible(s.race.key, s.clock) && to == from + 1000 * q.window && cap == LossCap(q, |s.race.slots|)
    ensures stored == Within(s.log, from, to) && added == Tally(s.race.slots, IsAdded)
    ensures KeyOk(key, stored, added, cap, from, to)
  {
    key, to, cap := Visible(s.race.key, s.clock), from + 1000 * q.window, LossCap(q, |s.race.slots|);
    stored, added := Within(s.log, from, to), Tally(s.race.slots, IsAdded);
    VisibleOk(s.race.key, s.clock, stored, added, cap, from, to);
  }

  ghost predicate KeyFits(s: Timed, from: nat, q: Quota) {
    var to := from + 1000 * q.window;
    KeyOk(s.race.key, Within(s.log, from, to), Tally(s.race.slots, IsAdded), LossCap(q, |s.race.slots|), from, to)
  }

  lemma EarlyQuiet(s: Timed, i: nat, s': Timed, key: Key, slot: Slot, from: nat, q: Quota)
    requires Early(s, from, q) && Moves(s, i, s', key, slot, []) && !slot.Added? && !s.race.slots[i].Added?
    requires KeyOk(key, Within(s.log, from, from + 1000 * q.window), Tally(s.race.slots, IsAdded),
                   LossCap(q, |s.race.slots|), from, from + 1000 * q.window)
    ensures KeyFits(s', from, q)
  {
    TallyUpdate(s.race.slots, IsAdded, i, slot);
    assert s'.log == s.log;
  }

  lemma EarlyPrune(s: Timed, i: nat, s': Timed, from: nat, q: Quota)
    requires Early(s, from, q) && i < |s.race.slots| && s.race.slots[i].Started?
    requires var now := s.race.slots[i].now;
             Moves(s, i, s', RemoveUpTo(Visible(s.race.key, s.clock), WindowStart(now, q)), Pruned(now), [])
    ensures KeyFits(s', from, q)
  {
    var key, stored, added, cap, to := EarlyVisible(s, from, q);
    var now := s.race.slots[i].now;
    RemoveOk(key, WindowStart(now, q), stored, added, cap, from, to);
    EarlyQuiet(s, i, s', RemoveUpTo(key, WindowStart(now, q)), Pruned(now), from, q);
  }

  lemma EarlyCount(s: Timed, i: nat, s': Timed, slot: Slot, from: nat, q: Quota)
    requires Early(s, from, q) && i < |s.race.slots| && s.race.slots[i].Pruned? && !slot.Added?
    requires Moves(s, i, s', Visible(s.race.key, s.clock), slot, [])
    ensures KeyFits(s', from, q)
  {
    var key, stored, added, cap, to := EarlyVisible(s, from, q);
    EarlyQuiet(s, i, s', key, slot, from, q);
  }

  lemma EarlyStore(s: Timed, i: nat, s': Timed, from: nat, q: Quota)
    requires Early(s, from, q) && i < |s.race.slots| && s.race.slots[i].Passed?
    requires var now := s.race.slots[i].now;
             Moves(s, i, s', Add(Visible(s.race.key, s.clock), now), Added(now), [now])
    ensures KeyFits(s', from, q)
  {
    var key, stored, added, cap, to := EarlyVisible(s, from, q);
    var now := s.race.slots[i].now;
    TallyUpdate(s.race.slots, IsAdded, i, Added(now));
    TallyBound(s.race.slots[i := Added(now)], IsAdded);
    AddOk(key, now, stored, added, cap, from, to);
    WithinSnoc(s.log, now, from, to);
  }

  lemma EarlyExpire(s: Timed, i: nat, s': Timed, from: nat, q: Quota)
    requires Early(s, from, q) && i < |s.race.slots| && s.race.slots[i].Added?
    requires Moves(s, i, s', ExpireIn(Visible(s.race.key, s.clock), s.clock, q.window), Free, [])
    ensures KeyFits(s', from, q)
  {
    var key, stored, added, cap, to := EarlyVisible(s, from, q);
    if s.clock < from { WithinNone(s.log, s.clock, from, to); }
    ExpireOk(key, s.clock, q.window, stored, added, Tally(s'.race.slots, IsAdded), cap, from);
    assert s'.log == s.log;
  }

  lemma EarlyKeeps(s: Timed, i: nat, command: Command, from: nat, q: Quota)
    requires Early(s, from, q)
    ensures WindowOk(TimedStep(s, Do(i, command), q), from, from + 1000 * q.window, q)
  {
    WaitingKeeps(s, i, command, from, q);
    EarlyKeyFits(s, i, command, from, q);
  }

  lemma EarlyKeyFits(s: Timed, i: nat, command: Command, from: nat, q: Quota)
    requires Early(s, from, q)
    ensures KeyFits(TimedStep(s, Do(i, command), q), from, q)
  {
    var s' := TimedStep(s, Do(i, command), q);
    if i < |s.race.slots| {
      var slot := s.race.slots[i];
      assert s.log + [] == s.log;
      if !slot.Free? { ServedIsPlain(Visible(s.race.key, s.clock), s.clock, slot.now, q); }
      if command.StartCheck? && slot.Free? { EarlyQuiet(s, i, s', s.race.key, Started(s.clock), from, q); }
      if command.PruneSet? && slot.Started? { EarlyPrune(s, i, s', from, q); }
      if command.CountSet? && slot.Pruned? { EarlyCount(s, i, s', s'.race.slots[i], from, q); }
      if command.StoreEntry? && slot.Passed? { EarlyStore(s, i, s', from, q); }
      if command.SetExpiry? && slot.Added? { EarlyExpire(s, i, s', from, q); }
    }
  }

  lemma CommandKeeps(s: Timed, i: nat, command: Command, from: nat, q: Quota)
    requires Past(s) && 0 < from && Serves(s.clock, q) && WindowOk(s, from, from + 1000 * q.window, q)
    ensures WindowOk(TimedStep(s, Do(i, command), q), from, from + 1000 * q.window, q)
  {
    if s.clock < from + 1000 * q.window { EarlyKeeps(s, i, command, from, q); }
    else { LateKeeps(s, i, command, from, from + 1000 * q.window, q); }
  }

  lemma TimedStepKeeps(s: Timed, a: TimedAction, from: nat, q: Quota)
    requires Good(s, from, q) && 0 < from && Serves(s.clock, q)
    ensures Good(TimedStep(s, a, q), from, q) && |TimedStep(s, a, q).race.slots| == |s.race.slots|
  {
    match a
    case Advance(ms) => AdvanceKeeps(s, ms, from, q);
    case Do(i, command) =>
      PastKeeps(s, i, command, q);
      StepKeepsBound(s.race, AsAction(i, command, s.clock), q);
      CommandKeeps(s, i, command, from, q);
  }

  // ---- Answers ----

  /** A yes of the window is the entry of a check that has finished, and no entry counts for two. */
  ghost predicate AnswersOk(s: Timed, from: int, to: int) {
    Within(s.answered, from, to) + Tally(s.race.slots, AddedIn(from, to)) <= Within(s.log, from, to)
  }

  /** The slot of the step stores its entry, finishes with or without a yes, or does neither. */
  lemma AnswersMove(s: Timed, i: nat, s': Timed, slot': Slot, from: int, to: int)
    requires AnswersOk(s, from, to) && i < |s.race.slots| && s'.race.slots == s.race.slots[i := slot']
    requires var slot := s.race.slots[i];
             || (slot.Passed? && slot' == Added(slot.now) && s'.log == s.log + [slot.now] && s'.answered == s.answered)
             || (slot.Added? && slot'.Free? && s'.log == s.log && s'.answered == s.answered)
             || (slot.Added? && slot'.Free? && s'.log == s.log && s'.answered == s.answered + [slot.now])
             || (!slot.Added? && !slot'.Added? && s'.log == s.log && s'.answered == s.answered)
    ensures AnswersOk(s', from, to)
  {
    var slot := s.race.slots[i];
    TallyUpdate(s.race.slots, AddedIn(from, to), i, slot');
    if slot.Passed? { WithinSnoc(s.log, slot.now, from, to); }
    if slot.Added? { WithinSnoc(s.answered, slot.now, from, to); }
  }

  lemma AnswersKeep(s: Timed, i: nat, command: Command, from: int, to: int, q: Quota)
    requires AnswersOk(s, from, to)
    ensures AnswersOk(TimedStep(s, Do(i, command), q), from, to)
  {
    var s' := TimedStep(s, Do(i, command), q);
    if s' != s { AnswersMove(s, i, s', s'.race.slots[i], from, to); }
  }

  /** The record of answers is what the callers see: a time is added exactly when its check gets its yes. */
  lemma AnsweredIsSeen(s: Timed, i: nat, command: Command, q: Quota)
    ensures var seen := Seen(s.race, AsAction(i, command, s.clock), i, q);
            TimedStep(s, Do(i, command), q).answered
            == s.answered + if seen != [] && seen[0].Got? && seen[0].answer == Yes then [seen[0].now] else []
  {
  }

  /** Once EXPIRE is refused it stays so, and nobody is told yes any more. */
  lemma {:induction false} AnswersFrozen(s: Timed, actions: seq<TimedAction>, q: Quota)
    requires !Serves(s.clock, q) && 0 < q.window < U64 - MAX_EXPIRE
    ensures TimedExec(s, actions, q).answered == s.answered
    decreases |actions|
  {
    if actions != [] {
      UnservedIsRefused(s.clock, q);
      AnswersFrozen(TimedStep(s, actions[0], q), actions[1..], q);
    }
  }

  /** What a good state says of the answers. */
  ghost predicate AnswersBounded(s: Timed, c: nat, from: nat, q: Quota) {
    && Within(s.answered, from, from + 1000 * q.window) < q.limit + 2 * c + LossCap(q, c)
    && forall i :: 0 <= i < |s.answered| ==> 0 < s.answered[i]
  }

  lemma GoodIsBounded(s: Timed, from: nat, q: Quota)
    requires Good(s, from, q) && AnswersOk(s, from, from + 1000 * q.window)
    ensures AnswersBounded(s, |s.race.slots|, from, q)
  {
    WithinBound(Scores(s.race.key), from, from + 1000 * q.window);
  }

  lemma AnyStepKeeps(s: Timed, a: TimedAction, from: nat, q: Quota)
    requires Good(s, from, q) && 0 < from && Serves(s.clock, q) && AnswersOk(s, from, from + 1000 * q.window)
    ensures var s' := TimedStep(s, a, q);
            && Good(s', from, q) && |s'.race.slots| == |s.race.slots| && AnswersOk(s', from, from + 1000 * q.window)
  {
    TimedStepKeeps(s, a, from, q);
    if a.Do? { AnswersKeep(s, a.i, a.command, from, from + 1000 * q.window, q); }
  }

  lemma {:induction false} BoundedFrom(s: Timed, actions: seq<TimedAction>, from: nat, q: Quota)
    requires Good(s, from, q) && 0 < from && Serves(s.clock, q) && AnswersOk(s, from, from + 1000 * q.window)
    requires q.window < U64 - MAX_EXPIRE
    ensures AnswersBounded(TimedExec(s, actions, q), |s.race.slots|, from, q)
    decreases |actions|
  {
    GoodIsBounded(s, from, q);
    if actions != [] {
      var s' := TimedStep(s, actions[0], q);
      AnyStepKeeps(s, actions[0], from, q);
      if Serves(s'.clock, q) {
        BoundedFrom(s', actions[1..], from, q);
      } else {
        GoodIsBounded(s', from, q);
        AnswersFrozen(s', actions[1..], q);
      }
    }
  }

  // ---- Main result ----

  function TimedInitial(c: nat, start: nat): Timed { Timed(Initial(c), start, [], []) }

  ghost predicate IsInitial(s: Timed, c: nat) {
    c > 0 && s.race == Initial(c) && 0 < s.clock && s.log == [] && s.answered == []
  }

  lemma FreshIsGood(s: Timed, c: nat, from: nat, q: Quota)
    requires IsInitial(s, c)
    ensures Good(s, from, q) && AnswersOk(s, from, from + 1000 * q.window)
  {
    FreshTally(c, IsPassed);
    FreshTally(c, PendingIn(from, from + 1000 * q.window));
    FreshTally(c, AddedIn(from, from + 1000 * q.window));
  }

  /** A limit of zero, or one that turns negative, lets nobody pass. */
  lemma {:induction false} NobodyPasses(s: Timed, actions: seq<TimedAction>, q: Quota)
    requires SignedLimit(q) <= 0 && s.answered == []
    requires forall i :: 0 <= i < |s.race.slots| ==> !s.race.slots[i].Passed? && !s.race.slots[i].Added?
    ensures TimedExec(s, actions, q).answered == []
    decreases |actions|
  {
    if actions != [] { NobodyPasses(TimedStep(s, actions[0], q), actions[1..], q); }
  }

  lemma {:induction false} WithinShift(log: seq<nat>, from: int, to: int, from': int, to': int)
    requires forall i :: 0 <= i < |log| && from <= log[i] < to ==> from' <= log[i] < to'
    ensures Within(log, from, to) <= Within(log, from', to')
  {
    if log != [] { WithinShift(log[..|log| - 1], from, to, from', to'); }
  }

  /** The most that one window can admit with `c` checks in flight from `start` on, unless the window is forgetful. */
  function MostIn(c: nat, start: nat, q: Quota): int {
    if SignedLimit(q) <= 0 || !Serves(start, q) then 0
    else if q.limit == 1 then 2 * c
    else q.limit + 3 * c - 1
  }

  function Ending(c: nat, start: nat, actions: seq<TimedAction>, q: Quota): Timed {
    TimedExec(TimedInitial(c, start), actions, q)
  }

  function AdmittedIn(c: nat, start: nat, actions: seq<TimedAction>, from: int, q: Quota): nat {
    Within(Ending(c, start, actions, q).answered, from, from + 1000 * q.window)
  }

  lemma BoundFrom(s: Timed, c: nat, actions: seq<TimedAction>, from: int, q: Quota)
    requires IsInitial(s, c) && Serves(s.clock, q) && q.window < U64 - MAX_EXPIRE
    ensures Within(TimedExec(s, actions, q).answered, from, from + 1000 * q.window) < q.limit + 2 * c + LossCap(q, c)
  {
    var from', span := if from > 0 then from else 1, 1000 * q.window;
    FreshIsGood(s, c, from', q);
    BoundedFrom(s, actions, from', q);
    WithinShift(TimedExec(s, actions, q).answered, from, from + span, from', from' + span);
  }

  /** No timed interleaving of `c` checks in flight admits more in any window, unless the window is forgetful. */
  lemma TimedWindowBound(c: nat, start: nat, actions: seq<TimedAction>, from: int, q: Quota)
    requires c > 0 && 0 < start
    ensures q.window < U64 - MAX_EXPIRE ==> AdmittedIn(c, start, actions, from, q) <= MostIn(c, start, q)
  {
    var s := TimedInitial(c, start);
    if q.window == 0 {
      EmptyWithin(TimedExec(s, actions, q).answered, from);
    } else if SignedLimit(q) <= 0 {
      NobodyPasses(s, actions, q);
    } else if q.window < U64 - MAX_EXPIRE {
      if Serves(start, q) { BoundFrom(s, c, actions, from, q); } else { AnswersFrozen(s, actions, q); }
    }
  }

  lemma {:induction false} EmptyWithin(log: seq<nat>, from: int)
    ensures Within(log, from, from) == 0
  {
    if log != [] { EmptyWithin(log[..|log| - 1], from); }
  }

  // ---- Reaching a state ----

  ghost predicate Reaches(start: Timed, s: Timed, q: Quota) {
    exists actions :: TimedExec(start, actions, q) == s
  }

  lemma {:induction false} TimedConcat(s: Timed, first: seq<TimedAction>, second: seq<TimedAction>, q: Quota)
    ensures TimedExec(s, first + second, q) == TimedExec(TimedExec(s, first, q), second, q)
    decreases |first|
  {
    if first == [] {
      assert first + second == second;
    } else {
      assert (first + second)[1..] == first[1..] + second;
      TimedConcat(TimedStep(s, first[0], q), first[1..], second, q);
    }
  }

  lemma ReachesNext(start: Timed, s: Timed, a: TimedAction, q: Quota)
    requires Reaches(start, s, q)
    ensures Reaches(start, TimedStep(s, a, q), q)
  {
    var actions :| TimedExec(start, actions, q) == s;
    TimedConcat(start, actions, [a], q);
  }

  // ---- Sweeps: a command of the first `k` slots, one after the other ----

  /** The first `j` slots are `y`, those up to `k` are `x`, the rest are free. */
  ghost predicate Lanes(slots: seq<Slot>, c: nat, j: nat, k: nat, y: Slot, x: Slot) {
    && |slots| == c
    && forall i :: 0 <= i < c ==> slots[i] == if i < j then y else if i < k then x else Free
  }

  lemma {:induction false} StartSweep(start: Timed, s: Timed, c: nat, k: nat, q: Quota) returns (t: Timed)
    requires Reaches(start, s, q) && k <= c && Lanes(s.race.slots, c, 0, 0, Free, Free)
    ensures Reaches(start, t, q) && Lanes(t.race.slots, c, 0, k, Free, Started(s.clock))
    ensures t == s.(race := s.race.(slots := t.race.slots))
  {
    if k == 0 {
      t := s;
    } else {
      var u := StartSweep(start, s, c, k - 1, q);
      ReachesNext(start, u, Do(k - 1, StartCheck), q);
      t := TimedStep(u, Do(k - 1, StartCheck), q);
    }
  }

  /** Pruning for a check of time `x` leaves `pruned`, however often it is done, and there is room. */
  ghost predicate PrunesTo(key: Key, clock: nat, x: nat, pruned: Key, q: Quota) {
    && RemoveUpTo(Visible(key, clock), WideStart(x, q)) == pruned
    && RemoveUpTo(pruned, WideStart(x, q)) == pruned && Visible(pruned, clock) == pruned
    && |Scores(pruned)| < SignedLimit(q)
  }

  lemma PassOne(start: Timed, s: Timed, i: nat, x: nat, pruned: Key, q: Quota) returns (t: Timed)
    requires Reaches(start, s, q) && i < |s.race.slots| && s.race.slots[i] == Started(x)
    requires PrunesTo(s.race.key, s.clock, x, pruned, q)
    ensures Reaches(start, t, q)
    ensures t == s.(race := State(pruned, s.race.slots[i := Passed(x)]))
  {
    ReachesNext(start, s, Do(i, PruneSet), q);
    var u := TimedStep(s, Do(i, PruneSet), q);
    ReachesNext(start, u, Do(i, CountSet), q);
    t := TimedStep(u, Do(i, CountSet), q);
  }

  lemma {:induction false} PassSweep(start: Timed, s: Timed, c: nat, k: nat, j: nat, x: nat, pruned: Key, q: Quota)
    returns (t: Timed)
    requires Reaches(start, s, q) && j <= k <= c && Lanes(s.race.slots, c, 0, k, Free, Started(x))
    requires PrunesTo(s.race.key, s.clock, x, pruned, q)
    ensures Reaches(start, t, q) && Lanes(t.race.slots, c, j, k, Passed(x), Started(x))
    ensures t == s.(race := State(if j == 0 then s.race.key else pruned, t.race.slots))
  {
    if j == 0 {
      t := s;
    } else {
      var u := PassSweep(start, s, c, k, j - 1, x, pruned, q);
      t := PassOne(start, u, j - 1, x, pruned, q);
    }
  }

  /** A set of `n` entries, all later than `low`; no entries are a missing key. */
  ghost predicate Entries(key: Key, n: nat, low: nat, deadline: Option<nat>) {
    && |Scores(key)| == n && (forall i :: 0 <= i < n ==> Scores(key)[i] > low)
    && (if n == 0 then key.Missing? else key.ZSet? && key.deadline == deadline)
  }

  predicate Live(deadline: Option<nat>, clock: nat) { deadline.Some? ==> clock <= deadline.value }

  lemma AddEntry(key: Key, n: nat, low: nat, deadline: Option<nat>, x: nat)
    requires Entries(key, n, low, deadline) && x > low && (n == 0 ==> deadline == None)
    ensures Entries(Add(key, x), n + 1, low, deadline)
  {
  }

  lemma StoreOne(start: Timed, s: Timed, i: nat, x: nat, q: Quota) returns (t: Timed)
    requires Reaches(start, s, q) && i < |s.race.slots| && s.race.slots[i] == Passed(x)
    ensures Reaches(start, t, q) && t.clock == s.clock && t.answered == s.answered
    ensures t.race == State(Add(Visible(s.race.key, s.clock), x), s.race.slots[i := Added(x)])
  {
    ReachesNext(start, s, Do(i, StoreEntry), q);
    t := TimedStep(s, Do(i, StoreEntry), q);
  }

  lemma {:induction false} StoreSweep(start: Timed, s: Timed, c: nat, k: nat, j: nat, x: nat, n: nat, low: nat,
                                      deadline: Option<nat>, q: Quota) returns (t: Timed)
    requires Reaches(start, s, q) && j <= k <= c && Lanes(s.race.slots, c, 0, k, Free, Passed(x))
    requires Entries(s.race.key, n, low, deadline) && x > low && Live(deadline, s.clock)
    requires n == 0 ==> deadline == None
    ensures Reaches(start, t, q) && Lanes(t.race.slots, c, j, k, Added(x), Passed(x))
    ensures Entries(t.race.key, n + j, low, deadline) && t.clock == s.clock && t.answered == s.answered
  {
    if j == 0 {
      t := s;
    } else {
      var u := StoreSweep(start, s, c, k, j - 1, x, n, low, deadline, q);
      t := StoreOne(start, u, j - 1, x, q);
      AddEntry(u.race.key, n + j - 1, low, deadline, x);
    }
  }

  /** An EXPIRE at this time is not refused and leaves `kept`, however often it is sent. */
  ghost predicate ExpiresTo(key: Key, clock: nat, kept: Key, q: Quota) {
    && ExpireSigned(Visible(key, clock), clock, Signed(q.window)) == Some(kept)
    && ExpireSigned(Visible(kept, clock), clock, Signed(q.window)) == Some(kept)
  }

  lemma ExpireOne(start: Timed, s: Timed, i: nat, x: nat, kept: Key, q: Quota) returns (t: Timed)
    requires Reaches(start, s, q) && i < |s.race.slots| && s.race.slots[i] == Added(x)
    requires ExpiresTo(s.race.key, s.clock, kept, q)
    ensures Reaches(start, t, q) && t.clock == s.clock && t.answered == s.answered + [x]
    ensures t.race == State(kept, s.race.slots[i := Free])
  {
    ReachesNext(start, s, Do(i, SetExpiry), q);
    t := TimedStep(s, Do(i, SetExpiry), q);
  }

  lemma {:induction false} ExpireSweep(start: Timed, s: Timed, c: nat, k: nat, j: nat, x: nat, kept: Key,
                                       from: int, to: int, q: Quota) returns (t: Timed)
    requires Reaches(start, s, q) && j <= k <= c && Lanes(s.race.slots, c, 0, k, Free, Added(x))
    requires ExpiresTo(s.race.key, s.clock, kept, q)
    ensures Reaches(start, t, q) && Lanes(t.race.slots, c, j, k, Free, Added(x))
    ensures t.race.key == (if j == 0 then s.race.key else kept) && t.clock == s.clock
    ensures Within(t.answered, from, to) == Within(s.answered, from, to) + if from <= x < to then j else 0
  {
    if j == 0 {
      t := s;
    } else {
      var u := ExpireSweep(start, s, c, k, j - 1, x, kept, from, to, q);
      t := ExpireOne(start, u, j - 1, x, kept, q);
      WithinSnoc(u.answered, x, from, to);
    }
  }

  lemma Wait(start: Timed, s: Timed, ms: nat, q: Quota) returns (t: Timed)
    requires Reaches(start, s, q)
    ensures Reaches(start, t, q) && t == s.(clock := s.clock + ms)
  {
    t := TimedStep(s, Advance(ms), q);
    ReachesNext(start, s, Advance(ms), q);
  }

  // ---- Rounds: whole checks of the first `k` slots at one instant ----

  /** All slots are free, and the key holds `n` entries of the window that ends now. */
  ghost predicate Idle(s: Timed, c: nat, n: nat, low: nat, deadline: Option<nat>, q: Quota) {
    && Lanes(s.race.slots, c, 0, 0, Free, Free) && Entries(s.race.key, n, low, deadline) && Live(deadline, s.clock)
    && WindowStart(s.clock, q) <= low < s.clock && Serves(s.clock, q)
  }

  /** They start, all pass the count, and then all store. */
  lemma Volley(start: Timed, s: Timed, c: nat, k: nat, n: nat, low: nat, deadline: Option<nat>, q: Quota)
    returns (t: Timed)
    requires Reaches(start, s, q) && Idle(s, c, n, low, deadline, q) && 0 < k <= c && n < SignedLimit(q)
    requires n == 0 ==> deadline == None
    ensures Reaches(start, t, q) && t.clock == s.clock && Lanes(t.race.slots, c, 0, k, Free, Added(s.clock))
    ensures Entries(t.race.key, n + k, low, deadline) && t.answered == s.answered
  {
    ServedIsPlain(s.race.key, s.clock, s.clock, q);
    AfterAll(Scores(s.race.key), WindowStart(s.clock, q));
    var s1 := StartSweep(start, s, c, k, q);
    var s2 := PassSweep(start, s1, c, k, k, s.clock, s.race.key, q);
    t := StoreSweep(start, s2, c, k, k, s.clock, n, low, deadline, q);
  }

  /** And then they all set the expiry. */
  lemma Round(start: Timed, s: Timed, c: nat, k: nat, n: nat, low: nat, deadline: Option<nat>,
              from: int, to: int, q: Quota) returns (t: Timed)
    requires Reaches(start, s, q) && Idle(s, c, n, low, deadline, q) && 0 < k <= c && n < SignedLimit(q)
    requires n == 0 ==> deadline == None
    ensures Reaches(start, t, q) && t.clock == s.clock
    ensures Idle(t, c, n + k, low, Some(s.clock + 1000 * q.window), q)
    ensures Within(t.answered, from, to) == Within(s.answered, from, to) + if from <= s.clock < to then k else 0
  {
    var s1 := Volley(start, s, c, k, n, low, deadline, q);
    var kept := ExpireIn(s1.race.key, s.clock, q.window);
    ServedExpiresTo(s1.race.key, s.clock, q);
    t := ExpireSweep(start, s1, c, k, k, s.clock, kept, from, to, q);
  }

  lemma ServedExpiresTo(key: Key, clock: nat, q: Quota)
    requires Serves(clock, q)
    ensures ExpiresTo(key, clock, ExpireIn(Visible(key, clock), clock, q.window), q)
  {
  }

  function DeadlineAfter(n: nat, clock: nat, q: Quota): Option<nat> {
    if n == 0 then None else Some(clock + 1000 * q.window)
  }

  /** One check after the other, in slot 0, fills the window to `n` entries. */
  lemma {:induction false} FillUp(start: Timed, s: Timed, c: nat, n: nat, low: nat, from: int, to: int, q: Quota)
    returns (t: Timed)
    requires Reaches(start, s, q) && Idle(s, c, 0, low, None, q) && 0 < c && n <= SignedLimit(q)
    requires from <= s.clock < to
    ensures Reaches(start, t, q) && t.clock == s.clock && Idle(t, c, n, low, DeadlineAfter(n, s.clock, q), q)
    ensures Within(t.answered, from, to) == Within(s.answered, from, to) + n
  {
    if n == 0 {
      t := s;
    } else {
      var u := FillUp(start, s, c, n - 1, low, from, to, q);
      t := Round(start, u, c, 1, n - 1, low, DeadlineAfter(n - 1, s.clock, q), from, to, q);
    }
  }

  // ---- The bound is reached ----

  /** All slots are free and nothing is stored, some time after zero. */
  ghost predicate AtRest(s: Timed, c: nat) {
    0 < c && Lanes(s.race.slots, c, 0, 0, Free, Free) && s.race.key.Missing? && 0 < s.clock
  }

  /** A first check sets the key's deadline; `c` others store just before it and set their expiry just after. */
  lemma FreshEntriesAreLost(start: Timed, c: nat, q: Quota) returns (t: Timed)
    requires AtRest(start, c) && start.answered == [] && 2 <= SignedLimit(q) && q.window > 0
    requires start.clock + 1000 * q.window + 1 < F64_EXACT
    ensures Reaches(start, t, q) && t.clock == start.clock + 1000 * q.window + 1 && AtRest(t, c)
    ensures var from := start.clock + 1000 * q.window - 1; Within(t.answered, from, from + 1000 * q.window) == c
  {
    var low, from := start.clock - 1, start.clock + 1000 * q.window - 1;
    var to := from + 1000 * q.window;
    assert TimedExec(start, [], q) == start;
    var s1 := Round(start, start, c, 1, 0, low, None, from, to, q);
    var s2 := Wait(start, s1, 1000 * q.window - 1, q);
    var s3 := Volley(start, s2, c, c, 1, low, Some(start.clock + 1000 * q.window), q);
    var s4 := Wait(start, s3, 2, q);
    ServedExpiresTo(s4.race.key, s4.clock, q);
    t := ExpireSweep(start, s4, c, c, c, s2.clock, Missing, from, to, q);
  }

  /** A full window with every check in flight on top, all at one instant. */
  lemma Burst(start: Timed, s: Timed, c: nat, from: int, q: Quota) returns (t: Timed)
    requires Reaches(start, s, q) && AtRest(s, c) && Serves(s.clock, q)
    requires 0 < q.limit < I64 && from <= s.clock < from + 1000 * q.window
    ensures Reaches(start, t, q) && t.clock == s.clock
    ensures Idle(t, c, q.limit - 1 + c, s.clock - 1, Some(s.clock + 1000 * q.window), q)
    ensures var to := from + 1000 * q.window;
            Within(t.answered, from, to) == Within(s.answered, from, to) + q.limit - 1 + c
  {
    var n, to := q.limit - 1, from + 1000 * q.window;
    var s1 := FillUp(start, s, c, n, s.clock - 1, from, to, q);
    t := Round(start, s1, c, c, n, s.clock - 1, DeadlineAfter(n, s.clock, q), from, to, q);
  }

  /** All checks start in the window and store after the key has expired. */
  lemma LateStores(start: Timed, s: Timed, c: nat, n: nat, from: int, q: Quota) returns (t: Timed)
    requires Reaches(start, s, q) && 0 < s.clock && Idle(s, c, n, s.clock - 1, Some(s.clock + 1000 * q.window), q)
    requires 0 < c && 0 < q.limit < I64 && from <= s.clock < from + 1000 * q.window
    requires s.clock + 1000 * q.window + 1 < F64_EXACT
    ensures Reaches(start, t, q) && t.clock == s.clock + 1000 * q.window + 1
    ensures var to := from + 1000 * q.window;
            Within(t.answered, from, to) == Within(s.answered, from, to) + c
  {
    var x, to := s.clock, from + 1000 * q.window;
    var s1 := StartSweep(start, s, c, c, q);
    var s2 := Wait(start, s1, 1000 * q.window + 1, q);
    var s3 := PassSweep(start, s2, c, c, c, x, Missing, q);
    var s4 := StoreSweep(start, s3, c, c, c, x, 0, x - 1, None, q);
    ServedExpiresTo(s4.race.key, s4.clock, q);
    t := ExpireSweep(start, s4, c, c, c, x, ExpireIn(s4.race.key, s4.clock, q.window), from, to, q);
  }

  /** A full window with every check in flight on top, and all of them once more after the key has expired. */
  lemma BurstAndLateStores(start: Timed, s: Timed, c: nat, from: int, q: Quota) returns (t: Timed)
    requires Reaches(start, s, q) && AtRest(s, c)
    requires 0 < q.limit < I64 && q.window > 0 && from <= s.clock < from + 1000 * q.window
    requires s.clock + 1000 * q.window + 1 < F64_EXACT
    ensures Reaches(start, t, q) && t.clock == s.clock + 1000 * q.window + 1
    ensures var to := from + 1000 * q.window;
            Within(t.answered, from, to) == Within(s.answered, from, to) + q.limit - 1 + 2 * c
  {
    var s1 := Burst(start, s, c, from, q);
    t := LateStores(start, s1, c, q.limit - 1 + c, from, q);
  }

  /** The time that the run below takes, within the clock values that a 64-bit float holds exactly. */
  predicate ClockRoom(start: nat, q: Quota) {
    (if q.limit == 1 then start + 1000 * q.window + 1 else start + 2000 * q.window + 2) < F64_EXACT
  }

  lemma MostIsReached(start: Timed, c: nat, q: Quota) returns (t: Timed, from: nat)
    requires AtRest(start, c) && start.answered == []
    requires 0 < q.limit < I64 && q.window > 0 && ClockRoom(start.clock, q)
    ensures Reaches(start, t, q) && t.clock < F64_EXACT
    ensures Within(t.answered, from, from + 1000 * q.window) == MostIn(c, start.clock, q)
  {
    if q.limit == 1 {
      assert TimedExec(start, [], q) == start;
      from := start.clock;
      t := BurstAndLateStores(start, start, c, from, q);
    } else {
      from := start.clock + 1000 * q.window - 1;
      var s := FreshEntriesAreLost(start, c, q);
      t := BurstAndLateStores(start, s, c, from, q);
    }
  }

  /** Wherever the clock has room for it, some run admits `MostIn` in some window, for every limit and `c`. */
  lemma TimedWindowBoundIsReached(c: nat, start: nat, q: Quota) returns (actions: seq<TimedAction>, from: nat)
    requires c > 0 && 0 < start < F64_EXACT && q.limit < U64
    requires MostIn(c, start, q) > 0 ==> ClockRoom(start, q)
    ensures AdmittedIn(c, start, actions, from, q) == MostIn(c, start, q)
    ensures Ending(c, start, actions, q).clock < F64_EXACT
  {
    var s := TimedInitial(c, start);
    if MostIn(c, start, q) == 0 {
      actions, from := [], 0;
    } else {
      var t, begin := MostIsReached(s, c, q);
      actions :| TimedExec(s, actions, q) == t;
      from := begin;
    }
  }

  /**
   Even with a single check in flight, and none that stores late: a key that expires between a check's ZADD and its
   EXPIRE loses a fresh entry, and one check more than the limit is admitted within one window.
   */
  lemma ExpiryBetweenCommands(start: Timed, q: Quota) returns (t: Timed)
    requires AtRest(start, 1) && start.answered == []
    requires 2 <= q.limit < I64 && q.window > 0 && start.clock + 1000 * q.window + 1 < F64_EXACT
    ensures Reaches(start, t, q) && t.clock < F64_EXACT
    ensures var from := start.clock + 1000 * q.window - 1;
            Within(t.answered, from, from + 1000 * q.window) == q.limit + 1
  {
    var from := start.clock + 1000 * q.window - 1;
    var s := FreshEntriesAreLost(start, 1, q);
    t := FillUp(start, s, 1, q.limit, s.clock - 1, from, from + 1000 * q.window, q);
  }

  // ---- A forgetful window has no bound ----

  lemma ForgetfulCheck(start: Timed, s: Timed, c: nat, from: int, to: int, q: Quota) returns (t: Timed)
    requires Reaches(start, s, q) && AtRest(s, c) && 0 < q.limit < I64 && Forgets(q) && s.clock < F64_EXACT
    requires from <= s.clock < to
    ensures Reaches(start, t, q) && AtRest(t, c) && t.clock == s.clock
    ensures Within(t.answered, from, to) == Within(s.answered, from, to) + 1
  {
    var s1 := StartSweep(start, s, c, 1, q);
    var s2 := PassSweep(start, s1, c, 1, 1, s.clock, Missing, q);
    var s3 := StoreSweep(start, s2, c, 1, 1, s.clock, 0, s.clock - 1, None, q);
    t := ExpireSweep(start, s3, c, 1, 1, s.clock, Missing, from, to, q);
  }

  lemma {:induction false} ForgetfulChecks(start: Timed, s: Timed, c: nat, n: nat, from: int, to: int, q: Quota)
    returns (t: Timed)
    requires Reaches(start, s, q) && AtRest(s, c) && 0 < q.limit < I64 && Forgets(q) && s.clock < F64_EXACT
    requires from <= s.clock < to
    ensures Reaches(start, t, q) && AtRest(t, c) && t.clock == s.clock
    ensures Within(t.answered, from, to) == Within(s.answered, from, to) + n
  {
    if n == 0 {
      t := s;
    } else {
      var u := ForgetfulChecks(start, s, c, n - 1, from, to, q);
      t := ForgetfulCheck(start, u, c, from, to, q);
    }
  }

  /** However large `n` is, some run admits that many in one window whose lifetime turns negative. */
  lemma ForgetfulHasNoBound(c: nat, start: nat, n: nat, q: Quota) returns (actions: seq<TimedAction>)
    requires c > 0 && 0 < start < F64_EXACT && 0 < q.limit < I64 && Forgets(q) && q.window > 0
    ensures AdmittedIn(c, start, actions, start, q) == n && Ending(c, start, actions, q).clock < F64_EXACT
  {
    var s := TimedInitial(c, start);
    assert TimedExec(s, [], q) == s;
    var t := ForgetfulChecks(s, s, c, n, start, start + 1000 * q.window, q);
    actions :| TimedExec(s, actions, q) == t;
  }

  // ---- A lone check before the first deadline ----

  /** The slot has nothing left to do before the first window ends. */
  predicate AtEdge(s: Timed, first: nat, q: Quota)
    requires |s.race.slots| == 1
  {
    && s.clock >= first + 1000 * q.window
    && (s.race.slots[0].Free? || s.race.slots[0].now >= first + 1000 * q.window)
  }

  ghost predicate Since(log: seq<nat>, first: nat) { forall i :: 0 <= i < |log| ==> first <= log[i] }

  /** The key holds every entry; once the first window has ended, those of its first instant may be gone. */
  ghost predicate KeyComplete(s: Timed, first: nat, q: Quota)
    requires |s.race.slots| == 1
  {
    if AtEdge(s, first, q) then
      && Within(s.log, first, first + 1000 * q.window) <= q.limit
      && After(Scores(s.race.key), first) == After(s.log, first)
    else Scores(s.race.key) == s.log
  }

  /** One check in flight, and no deadline before `first` and a window. */
  ghost predicate Lone(s: Timed, first: nat, q: Quota) {
    && |s.race.slots| == 1 && 0 < first <= s.clock && Serves(first, q)
    && Since(s.log, first) && Committed(s.race) <= q.limit
    && (!s.race.slots[0].Free? ==> first <= s.race.slots[0].now <= s.clock)
    && !DueBefore(s.race.key, first + 1000 * q.window)
    && KeyComplete(s, first, q)
  }

  /** The command finds the key as it is. */
  lemma LoneVisible(s: Timed, first: nat, q: Quota)
    requires Lone(s, first, q) && s.clock <= first + 1000 * q.window
    ensures Visible(s.race.key, s.clock) == s.race.key
  {
  }

  /** Nothing has been lost yet, so all of the log is within the limit. */
  lemma CompleteAtEdge(log: seq<nat>, first: nat, q: Quota)
    requires |log| <= q.limit
    ensures Within(log, first, first + 1000 * q.window) <= q.limit
  {
    WithinBound(log, first, first + 1000 * q.window);
  }

  lemma LonePrune(s: Timed, first: nat, s': Timed, q: Quota)
    requires Lone(s, first, q) && s.clock <= first + 1000 * q.window && s.race.slots[0].Started?
    requires var now := s.race.slots[0].now;
             s' == s.(race := State(RemoveUpTo(s.race.key, WindowStart(now, q)), [Pruned(now)]))
    ensures KeyComplete(s', first, q) && !DueBefore(s'.race.key, first + 1000 * q.window)
  {
    var cut := WindowStart(s.race.slots[0].now, q);
    if AtEdge(s, first, q) { AfterAfter(Scores(s.race.key), cut, first); }
    else { AfterAll(Scores(s.race.key), cut); }
  }

  lemma LoneCount(s: Timed, first: nat, s': Timed, slot: Slot, q: Quota)
    requires Lone(s, first, q) && s.race.slots[0].Pruned?
    requires slot == Passed(s.race.slots[0].now) || slot.Free?
    requires s' == s.(race := State(s.race.key, [slot]))
    ensures KeyComplete(s', first, q)
  {
    if !AtEdge(s, first, q) { CompleteAtEdge(s.log, first, q); }
  }

  lemma ScoresOfAdd(key: Key, now: nat)
    ensures Scores(Add(key, now)) == Scores(key) + [now]
  {
    assert [] + [now] == [now];
  }

  lemma LoneStore(s: Timed, first: nat, s': Timed, q: Quota)
    requires Lone(s, first, q) && s.race.slots[0].Passed?
    requires var now := s.race.slots[0].now;
             s' == s.(race := State(Add(s.race.key, now), [Added(now)]), log := s.log + [now])
    ensures KeyComplete(s', first, q) && Since(s'.log, first) && !DueBefore(s'.race.key, first + 1000 * q.window)
  {
    var now := s.race.slots[0].now;
    ScoresOfAdd(s.race.key, now);
    if AtEdge(s, first, q) { EdgeStore(s.race.key, s.log, now, first, first + 1000 * q.window); }
  }

  lemma EdgeStore(key: Key, log: seq<nat>, now: nat, first: nat, to: nat)
    requires After(Scores(key), first) == After(log, first) && now >= to
    ensures After(Scores(key) + [now], first) == After(log + [now], first)
    ensures Within(log + [now], first, to) == Within(log, first, to)
  {
    AfterSnoc(log, now, first);
    AfterSnoc(Scores(key), now, first);
    WithinSnoc(log, now, first, to);
  }

  lemma LoneExpire(s: Timed, first: nat, s': Timed, q: Quota)
    requires Lone(s, first, q) && s.race.slots[0].Added?
    requires s' == s.(race := State(AfterExpire(s.race.key, s.clock, q), [Free]), answered := s'.answered)
    ensures KeyComplete(s', first, q) && !DueBefore(s'.race.key, first + 1000 * q.window)
  {
    if Serves(s.clock, q) { ServedIsPlain(s.race.key, s.clock, s.clock, q); }
    else { UnservedIsRefused(s.clock, q); }
    if !AtEdge(s, first, q) { CompleteAtEdge(s.log, first, q); }
  }

  lemma LoneCommand(s: Timed, command: Command, first: nat, s': Timed, q: Quota)
    requires Lone(s, first, q) && s.clock <= first + 1000 * q.window && s' == TimedStep(s, Do(0, command), q)
    ensures |s'.race.slots| == 1 && KeyComplete(s', first, q)
    ensures Since(s'.log, first) && !DueBefore(s'.race.key, first + 1000 * q.window)
  {
    var slot := s.race.slots[0];
    LoneVisible(s, first, q);
    if command.PruneSet? && slot.Started? {
      ServedIsPlain(s.race.key, first, slot.now, q);
      LonePrune(s, first, s', q);
    }
    if command.CountSet? && slot.Pruned? { LoneCount(s, first, s', s'.race.slots[0], q); }
    if command.StoreEntry? && slot.Passed? { LoneStore(s, first, s', q); }
    if command.SetExpiry? && slot.Added? { LoneExpire(s, first, s', q); }
  }

  lemma LoneStep(s: Timed, a: TimedAction, first: nat, q: Quota)
    requires Lone(s, first, q) && TimedStep(s, a, q).clock <= first + 1000 * q.window
    ensures Lone(TimedStep(s, a, q), first, q)
  {
    match a
    case Advance(_) => if !AtEdge(s, first, q) { CompleteAtEdge(s.log, first, q); }
    case Do(i, command) =>
      StepKeepsBound(s.race, AsAction(i, command, s.clock), q);
      if i == 0 { LoneCommand(s, command, first, TimedStep(s, a, q), q); }
  }

  /** Each window lies after the first instant, or ends with the first window. */
  lemma LoneIsBounded(s: Timed, first: nat, from: int, q: Quota)
    requires Lone(s, first, q) && AnswersOk(s, from, from + 1000 * q.window)
    ensures Within(s.answered, from, from + 1000 * q.window) <= q.limit
  {
    var to := from + 1000 * q.window;
    if from > first {
      WithinIsAfter(s.log, from, to, first);
    } else {
      WithinShift(s.log, from, to, first, first + 1000 * q.window);
      if !AtEdge(s, first, q) { CompleteAtEdge(s.log, first, q); }
    }
  }

  lemma {:induction false} ClockGrows(s: Timed, actions: seq<TimedAction>, q: Quota)
    ensures s.clock <= TimedExec(s, actions, q).clock
    decreases |actions|
  {
    if actions != [] { ClockGrows(TimedStep(s, actions[0], q), actions[1..], q); }
  }

  /** Until the first deadline has passed, checks that come one at a time keep the strict limit. */
  lemma {:induction false} LoneFrom(s: Timed, actions: seq<TimedAction>, first: nat, from: int, q: Quota)
    requires Lone(s, first, q) && AnswersOk(s, from, from + 1000 * q.window)
    requires TimedExec(s, actions, q).clock <= first + 1000 * q.window
    ensures Within(TimedExec(s, actions, q).answered, from, from + 1000 * q.window) <= q.limit
    decreases |actions|
  {
    if actions == [] {
      LoneIsBounded(s, first, from, q);
    } else {
      var s' := TimedStep(s, actions[0], q);
      ClockGrows(s', actions[1..], q);
      LoneStep(s, actions[0], first, q);
      if actions[0].Do? { AnswersKeep(s, actions[0].i, actions[0].command, from, from + 1000 * q.window, q); }
      LoneFrom(s', actions[1..], first, from, q);
    }
  }

  // ---- When the strict limit survives ----

  /** All runs whose clock a 64-bit float holds exactly keep every window within the limit. */
  ghost predicate KeepsLimit(c: nat, start: nat, q: Quota) {
    forall actions, from ::
      Ending(c, start, actions, q).clock < F64_EXACT ==> AdmittedIn(c, start, actions, from, q) <= q.limit
  }

  /** The window is empty, nobody can pass, no EXPIRE is accepted, or a lone check meets no deadline. */
  predicate SafeSetting(c: nat, start: nat, q: Quota) {
    || q.window == 0 || q.limit == 0 || q.limit >= I64
    || (q.window < U64 - MAX_EXPIRE && start + 1000 * q.window >= I64)
    || (q.window < U64 - MAX_EXPIRE && c == 1 && start + 1000 * q.window + 1 >= F64_EXACT)
  }

  lemma SafeKeepsLimit(c: nat, start: nat, actions: seq<TimedAction>, from: int, q: Quota)
    requires c > 0 && 0 < start < F64_EXACT && q.limit < U64 && q.window < U64 && SafeSetting(c, start, q)
    requires Ending(c, start, actions, q).clock < F64_EXACT
    ensures AdmittedIn(c, start, actions, from, q) <= q.limit
  {
    var s := TimedInitial(c, start);
    if q.window == 0 {
      EmptyWithin(TimedExec(s, actions, q).answered, from);
    } else if SignedLimit(q) <= 0 {
      NobodyPasses(s, actions, q);
    } else if !Serves(start, q) {
      TimedWindowBound(c, start, actions, from, q);
    } else {
      LoneInitial(s, q, from);
      LoneFrom(s, actions, start, from, q);
    }
  }

  lemma LoneInitial(s: Timed, q: Quota, from: int)
    requires IsInitial(s, 1) && Serves(s.clock, q)
    ensures Lone(s, s.clock, q) && AnswersOk(s, from, from + 1000 * q.window)
  {
    FreshTally(1, IsPassed);
    FreshTally(1, AddedIn(from, from + 1000 * q.window));
  }

  /** Otherwise some run admits more than the limit in one window. */
  lemma UnsafeExceeds(c: nat, start: nat, q: Quota) returns (actions: seq<TimedAction>)
    requires c > 0 && 0 < start < F64_EXACT && q.limit < U64 && q.window < U64 && !SafeSetting(c, start, q)
    ensures AdmittedIn(c, start, actions, start, q) > q.limit && Ending(c, start, actions, q).clock < F64_EXACT
  {
    var s := TimedInitial(c, start);
    if Forgets(q) {
      actions := ForgetfulHasNoBound(c, start, q.limit + 1, q);
    } else {
      assert TimedExec(s, [], q) == s;
      var t := Burst(s, s, c, start, q);
      if c == 1 { t := LateStores(s, t, c, q.limit - 1 + c, start, q); }
      actions :| TimedExec(s, actions, q) == t;
    }
  }

  /** For every 64-bit limit and window and every number of checks in flight. */
  lemma StrictLimitExactly(c: nat, start: nat, q: Quota)
    requires c > 0 && 0 < start < F64_EXACT && q.limit < U64 && q.window < U64
    ensures KeepsLimit(c, start, q) <==> SafeSetting(c, start, q)
  {
    if SafeSetting(c, start, q) {
      forall actions, from | Ending(c, start, actions, q).clock < F64_EXACT
        ensures AdmittedIn(c, start, actions, from, q) <= q.limit
      {
        SafeKeepsLimit(c, start, actions, from, q);
      }
    } else {
      var actions := UnsafeExceeds(c, start, q);
    }
  }
}
