/**
 Leader election of control-plane replicas over etcd.

 The state holds the etcd side (leases, and the campaign keys by create-revision) and any number of
 electors. One action is one locked section, one etcd transaction or one environment event (a lease
 expiring, a late notice, a lost reply). An action that is not enabled leaves the state as it is, so
 every sequence of actions is a run and every theorem below is about every sequence of actions.
 */
module LeaderElection {

  /**
   Where a Resign call stands. The etcd client answers at once, without deleting, when its election has dropped its
   session; otherwise it deletes the key, drops the session when the reply arrives or fails, and returns.
   */
  datatype Stage =
    | Pending                      // flag read, election not asked yet
    | Asking                       // delete requested
    | Deleted                      // key deleted, reply under way
    | Returned(deleted: bool)      // returned without error, flag not cleared yet

  datatype Move = Skip | Ask | Delete | Reply

  /** Where `Run` stands between two of its atomic sections. */
  datatype Phase =
    | Idle                         // top of the loop, no session of its own
    | Opened                       // session created, campaign key not written yet
    | Waiting                      // campaign key written, waiting for older keys to go
    | Won                          // Campaign returned, flag not set yet
    | Leading                      // blocked on session.Done or ctx.Done
    | SteppingDown                 // session.Done seen, flag not cleared yet
    | Exiting(stage: Stage)        // inside the Resign call made by Run
    | Exited                       // Run has returned

  /** `revision` is the create-revision of the key written in the latest campaign, 0 before the first. */
  datatype Elector = Elector(phase: Phase, lease: nat, revision: nat, isLeader: bool, isHealthy: bool)

  /** A `Resign` call made from outside `Run`, after it has read the election and the flag. */
  datatype ResignCall = ResignCall(elector: nat, revision: nat, stage: Stage)

  /** `keys` maps the create-revision of every live key to the lease it hangs on. */
  datatype Etcd = Etcd(nextLease: nat, nextRevision: nat, leases: set<nat>, keys: map<nat, nat>)

  /** `dropped` holds the revisions whose election has dropped its session after a Resign. */
  datatype System = System(etcd: Etcd, electors: seq<Elector>, calls: map<nat, ResignCall>, dropped: set<nat>)

  datatype Action =
    | OpenSession(i: nat)
    | OpenSessionFails(i: nat)
    | StopAtLoopTop(i: nat)
    | WriteKey(i: nat)
    | CampaignReturns(i: nat)
    | CampaignFails(i: nat, keyDeleted: bool, leaseRevoked: bool)
    | TakeOffice(i: nat)
    | SessionDone(i: nat)
    | StepDown(i: nat)
    | ContextDone(i: nat)
    | RunResignMoves(i: nat, move: Move)
    | RunResignClears(i: nat)
    | RunResignFails(i: nat)
    | ResignBegins(i: nat, call: nat)
    | ResignMoves(call: nat, move: Move)
    | ResignClears(call: nat)
    | ResignFails(call: nat)
    | LeaseExpires(lease: nat)

  function Initial(n: nat): System {
    System(Etcd(1, 1, {}, map[]), seq(n, _ => Elector(Idle, 0, 0, false, true)), map[], {})
  }

  function DropLease(d: Etcd, lease: nat): Etcd {
    d.(leases := d.leases - {lease}, keys := map r | r in d.keys && d.keys[r] != lease :: d.keys[r])
  }

  function DropKey(d: Etcd, revision: nat): Etcd {
    d.(keys := d.keys - {revision})
  }

  /** What elector `e`, running as number `i`, does on an action of its own `Run` loop. */
  function RunStep(e: Elector, d: Etcd, a: Action): (Elector, Etcd) {
    match a
    case OpenSession(_) =>
      if e.phase != Idle then (e, d) else
      (e.(phase := Opened, lease := d.nextLease),
       d.(nextLease := d.nextLease + 1, leases := d.leases + {d.nextLease}))
    case OpenSessionFails(_) =>
      if e.phase != Idle then (e, d) else (e.(isHealthy := false), d)
    case StopAtLoopTop(_) =>
      if e.phase != Idle then (e, d) else (e.(phase := Exited), d)
    case WriteKey(_) =>
      if e.phase != Opened || e.lease !in d.leases then (e, d) else
      (e.(phase := Waiting, revision := d.nextRevision),
       d.(nextRevision := d.nextRevision + 1, keys := d.keys[d.nextRevision := e.lease]))
    case CampaignReturns(_) =>
      // The wait ends once no key with a smaller create-revision is left; its own key is not looked at.
      if e.phase != Waiting || (exists r :: r in d.keys && r < e.revision) then (e, d) else
      (e.(phase := Won), d)
    case CampaignFails(_, keyDeleted, leaseRevoked) =>
      if e.phase != Opened && e.phase != Waiting then (e, d) else
      var d1 := if keyDeleted && e.phase == Waiting then DropKey(d, e.revision) else d;
      var d2 := if leaseRevoked then DropLease(d1, e.lease) else d1;
      (e.(phase := Idle, isHealthy := false), d2)
    case TakeOffice(_) =>
      if e.phase != Won then (e, d) else (e.(phase := Leading, isLeader := true, isHealthy := true), d)
    case SessionDone(_) =>
      if e.phase != Leading then (e, d) else (e.(phase := SteppingDown), d)
    case StepDown(_) =>
      if e.phase != SteppingDown then (e, d) else (e.(phase := Idle, isLeader := false), d)
    case ContextDone(_) =>
      if e.phase != Leading then (e, d) else
      (e.(phase := if e.isLeader then Exiting(Pending) else Exited), d)
    case _ => (e, d)
  }

  function Advance(stage: Stage, dropped: bool, move: Move): Stage {
    match (move, stage)
    case (Skip, Pending) => if dropped then Returned(false) else stage
    case (Ask, Pending) => if dropped then stage else Asking
    case (Delete, Asking) => Deleted
    case (Reply, Deleted) => Returned(true)
    case _ => stage
  }

  /** A Resign call of the term `revision` comes to `stage`. */
  function AtStage(s: System, revision: nat, stage: Stage): System {
    if stage == Deleted then s.(etcd := DropKey(s.etcd, revision))
    else if stage == Returned(true) then s.(dropped := s.dropped + {revision})
    else s
  }

  /** The request or its reply is lost, or the call times out. */
  predicate CanFail(stage: Stage) { stage == Asking || stage == Deleted }

  /** The Resign call that `Run` makes on its way out. */
  function ExitStep(s: System, i: nat, a: Action): System
    requires i < |s.electors|
  {
    var e := s.electors[i];
    if !e.phase.Exiting? then s else
    match a
    case RunResignMoves(_, move) =>
      var stage := Advance(e.phase.stage, e.revision in s.dropped, move);
      if stage == e.phase.stage then s
      else AtStage(s.(electors := s.electors[i := e.(phase := Exiting(stage))]), e.revision, stage)
    case RunResignClears(_) =>
      if !e.phase.stage.Returned? then s
      else s.(electors := s.electors[i := e.(phase := Exited, isLeader := false)])
    case RunResignFails(_) =>
      if !CanFail(e.phase.stage) then s
      else s.(electors := s.electors[i := e.(phase := Exited)], dropped := s.dropped + {e.revision})
    case _ => s
  }

  /** A Resign call from outside `Run`. */
  function CallStep(s: System, call: nat, a: Action): System
    requires call in s.calls
  {
    var c := s.calls[call];
    match a
    case ResignMoves(_, move) =>
      var stage := Advance(c.stage, c.revision in s.dropped, move);
      if stage == c.stage then s
      else AtStage(s.(calls := s.calls[call := c.(stage := stage)]), c.revision, stage)
    case ResignClears(_) =>
      if !c.stage.Returned? || c.elector >= |s.electors| then s
      else s.(calls := s.calls - {call}, electors := s.electors[c.elector := s.electors[c.elector].(isLeader := false)])
    case ResignFails(_) =>
      if !CanFail(c.stage) then s
      else s.(calls := s.calls - {call}, dropped := s.dropped + {c.revision})
    case _ => s
  }

  function Step(s: System, a: Action): System {
    match a
    case LeaseExpires(lease) =>
      s.(etcd := DropLease(s.etcd, lease))
    case ResignBegins(i, call) =>
      if i < |s.electors| && s.electors[i].isLeader && call !in s.calls
      then s.(calls := s.calls[call := ResignCall(i, s.electors[i].revision, Pending)]) else s
    case ResignMoves(call, _) => if call in s.calls then CallStep(s, call, a) else s
    case ResignClears(call) => if call in s.calls then CallStep(s, call, a) else s
    case ResignFails(call) => if call in s.calls then CallStep(s, call, a) else s
    case RunResignMoves(i, _) => if i < |s.electors| then ExitStep(s, i, a) else s
    case RunResignClears(i) => if i < |s.electors| then ExitStep(s, i, a) else s
    case RunResignFails(i) => if i < |s.electors| then ExitStep(s, i, a) else s
    case _ =>
      if a.i < |s.electors|
      then var (e, d) := RunStep(s.electors[a.i], s.etcd, a); s.(etcd := d, electors := s.electors[a.i := e])
      else s
  }

  function Exec(s: System, actions: seq<Action>): System
    decreases |actions|
  {
    if actions == [] then s else Exec(Step(s, actions[0]), actions[1..])
  }

  // ---- What every step keeps ----

  predicate Settled(e: Elector) {
    e.isLeader || e.phase == Won || e.phase == Leading || e.phase == SteppingDown || e.phase.Exiting?
  }

  ghost predicate NoOlderKey(d: Etcd, revision: nat) {
    forall r :: r in d.keys ==> revision <= r
  }

  ghost predicate EtcdOk(d: Etcd) {
    1 <= d.nextRevision && forall r :: r in d.keys ==> 0 < r < d.nextRevision
  }

  ghost predicate ElectorOk(e: Elector, d: Etcd) {
    && e.revision < d.nextRevision
    && (Settled(e) ==> NoOlderKey(d, e.revision))
    && (Settled(e) || e.phase == Waiting ==> 0 < e.revision)
    && (e.isLeader ==> e.isHealthy)
    && (e.isLeader ==> e.phase == Leading || e.phase == SteppingDown || e.phase.Exiting? || e.phase == Exited)
  }

  ghost predicate DistinctRevisions(es: seq<Elector>) {
    forall i, j :: 0 <= i < j < |es| && es[i].revision == es[j].revision ==> es[i].revision == 0
  }

  /** A Resign call belongs to its elector's term or an earlier one, and once it has deleted its key, it is gone. */
  ghost predicate CallOk(c: ResignCall, electors: seq<Elector>, d: Etcd) {
    && c.elector < |electors| && c.revision <= electors[c.elector].revision
    && (c.stage == Deleted || c.stage == Returned(true) ==> c.revision !in d.keys)
  }

  ghost predicate CallsOk(s: System) {
    forall call :: call in s.calls ==> CallOk(s.calls[call], s.electors, s.etcd)
  }

  ghost predicate ElectorsOk(s: System) {
    && EtcdOk(s.etcd)
    && (forall i :: 0 <= i < |s.electors| ==> ElectorOk(s.electors[i], s.etcd))
    && DistinctRevisions(s.electors)
  }

  ghost predicate Inv(s: System) { ElectorsOk(s) && CallsOk(s) }

  /** Keys leave at any time, but a key that arrives is newer than everything seen so far. */
  ghost predicate Later(d: Etcd, d': Etcd) {
    && d.nextRevision <= d'.nextRevision
    && forall r :: r in d'.keys ==> r in d.keys || d.nextRevision <= r
  }

  lemma RunStepKeeps(e: Elector, d: Etcd, a: Action)
    requires EtcdOk(d) && ElectorOk(e, d)
    ensures var (e', d') := RunStep(e, d, a);
            && EtcdOk(d') && ElectorOk(e', d') && Later(d, d')
            && (e'.revision == e.revision || e'.revision == d.nextRevision < d'.nextRevision)
  {
  }

  lemma LaterKeepsElector(e: Elector, d: Etcd, d': Etcd)
    requires ElectorOk(e, d) && Later(d, d')
    ensures ElectorOk(e, d')
  {
  }

  /** One elector moves while etcd moves on: the others notice only that keys left or newer keys came. */
  lemma OneMoves(s: System, i: nat, e: Elector, d: Etcd, s': System)
    requires ElectorsOk(s) && i < |s.electors|
    requires EtcdOk(d) && ElectorOk(e, d) && Later(s.etcd, d)
    requires e.revision == s.electors[i].revision || s.etcd.nextRevision <= e.revision
    requires s'.etcd == d && s'.electors == s.electors[i := e]
    ensures ElectorsOk(s')
  {
    forall k | 0 <= k < |s'.electors| ensures ElectorOk(s'.electors[k], d) {
      if k != i { LaterKeepsElector(s.electors[k], s.etcd, d); }
    }
  }

  lemma NobodyMoves(s: System, s': System)
    requires ElectorsOk(s) && EtcdOk(s'.etcd) && Later(s.etcd, s'.etcd) && s'.electors == s.electors
    ensures ElectorsOk(s')
  {
    forall k | 0 <= k < |s.electors| ensures ElectorOk(s.electors[k], s'.etcd) {
      LaterKeepsElector(s.electors[k], s.etcd, s'.etcd);
    }
  }

  predicate OfRun(a: Action) {
    !(a.LeaseExpires? || a.ResignBegins? || OfCall(a) || OfExit(a))
  }

  predicate OfCall(a: Action) { a.ResignMoves? || a.ResignClears? || a.ResignFails? }

  predicate OfExit(a: Action) { a.RunResignMoves? || a.RunResignClears? || a.RunResignFails? }

  /** What holds between the states before and after any step. */
  ghost predicate Grows(s: System, s': System) {
    && Later(s.etcd, s'.etcd) && |s'.electors| == |s.electors|
    && forall i :: 0 <= i < |s.electors| ==> s.electors[i].revision <= s'.electors[i].revision
  }

  lemma RunKeeps(s: System, a: Action)
    requires ElectorsOk(s) && OfRun(a)
    ensures ElectorsOk(Step(s, a)) && Grows(s, Step(s, a)) && Step(s, a).calls == s.calls
  {
    if a.i < |s.electors| {
      RunStepKeeps(s.electors[a.i], s.etcd, a);
      var (e, d) := RunStep(s.electors[a.i], s.etcd, a);
      OneMoves(s, a.i, e, d, Step(s, a));
    }
  }

  lemma ExitKeeps(s: System, i: nat, a: Action)
    requires ElectorsOk(s) && i < |s.electors|
    ensures ElectorsOk(ExitStep(s, i, a)) && Grows(s, ExitStep(s, i, a)) && ExitStep(s, i, a).calls == s.calls
  {
    var s' := ExitStep(s, i, a);
    if s' != s {
      assert s'.electors == s.electors[i := s'.electors[i]];
      OneMoves(s, i, s'.electors[i], s'.etcd, s');
    }
  }

  lemma CallKeeps(s: System, call: nat, a: Action)
    requires ElectorsOk(s) && call in s.calls
    ensures ElectorsOk(CallStep(s, call, a)) && Grows(s, CallStep(s, call, a))
  {
    var s' := CallStep(s, call, a);
    if a.ResignClears? && s' != s {
      var i := s.calls[call].elector;
      OneMoves(s, i, s'.electors[i], s.etcd, s');
    } else {
      NobodyMoves(s, s');
    }
  }

  lemma EnvironmentKeeps(s: System, a: Action)
    requires ElectorsOk(s) && (a.LeaseExpires? || a.ResignBegins?)
    ensures ElectorsOk(Step(s, a)) && Grows(s, Step(s, a))
  {
    NobodyMoves(s, Step(s, a));
  }

  lemma StepKeepsElectors(s: System, a: Action)
    requires ElectorsOk(s)
    ensures ElectorsOk(Step(s, a)) && Grows(s, Step(s, a))
  {
    if OfRun(a) { RunKeeps(s, a); }
    else if OfExit(a) { if a.i < |s.electors| { ExitKeeps(s, a.i, a); } }
    else if OfCall(a) { if a.call in s.calls { CallKeeps(s, a.call, a); } }
    else { EnvironmentKeeps(s, a); }
  }

  lemma GrowthKeepsCall(c: ResignCall, s: System, s': System)
    requires ElectorsOk(s) && CallOk(c, s.electors, s.etcd) && Grows(s, s')
    ensures CallOk(c, s'.electors, s'.etcd)
  {
    assert ElectorOk(s.electors[c.elector], s.etcd);
  }

  /** A step that is not a move of `call` leaves it alone, unless it begins it. */
  lemma OtherCallsStay(s: System, a: Action, call: nat)
    requires call in Step(s, a).calls && !(OfCall(a) && a.call == call)
    ensures if call in s.calls then Step(s, a).calls[call] == s.calls[call]
            else a.ResignBegins? && a.i < |s.electors| && Step(s, a).electors == s.electors
                 && Step(s, a).calls[call] == ResignCall(a.i, s.electors[a.i].revision, Pending)
  {
  }

  lemma CallMovesOk(s: System, a: Action, call: nat)
    requires Inv(s) && OfCall(a) && a.call == call && call in s.calls && call in CallStep(s, call, a).calls
    ensures var s' := CallStep(s, call, a); CallOk(s'.calls[call], s'.electors, s'.etcd)
  {
  }

  /** A call seen after a step was there before, has just begun or has just moved. */
  lemma StepKeepsCalls(s: System, a: Action, call: nat)
    requires Inv(s) && Grows(s, Step(s, a)) && call in Step(s, a).calls
    ensures CallOk(Step(s, a).calls[call], Step(s, a).electors, Step(s, a).etcd)
  {
    if OfCall(a) && a.call == call {
      CallMovesOk(s, a, call);
    } else {
      OtherCallsStay(s, a, call);
      if call in s.calls { GrowthKeepsCall(s.calls[call], s, Step(s, a)); }
    }
  }

  lemma StepKeepsInv(s: System, a: Action)
    requires Inv(s)
    ensures Inv(Step(s, a)) && Later(s.etcd, Step(s, a).etcd) && |Step(s, a).electors| == |s.electors|
  {
    StepKeepsElectors(s, a);
    forall call | call in Step(s, a).calls
      ensures CallOk(Step(s, a).calls[call], Step(s, a).electors, Step(s, a).etcd)
    {
      StepKeepsCalls(s, a, call);
    }
  }

  lemma LaterIsTransitive(d: Etcd, d': Etcd, d'': Etcd)
    requires Later(d, d') && Later(d', d'')
    ensures Later(d, d'')
  {
  }

  lemma {:induction false} InvFrom(s: System, actions: seq<Action>)
    requires Inv(s)
    ensures var t := Exec(s, actions); Inv(t) && Later(s.etcd, t.etcd) && |t.electors| == |s.electors|
    decreases |actions|
  {
    if actions != [] {
      var s' := Step(s, actions[0]);
      StepKeepsInv(s, actions[0]);
      InvFrom(s', actions[1..]);
      LaterIsTransitive(s.etcd, s'.etcd, Exec(s', actions[1..]).etcd);
    }
  }

  lemma InvAlways(n: nat, actions: seq<Action>)
    ensures Inv(Exec(Initial(n), actions)) && |Exec(Initial(n), actions).electors| == n
  {
    InvFrom(Initial(n), actions);
  }

  // ---- Main results ----

  /** The flag is set and the key of the campaign that set it is still in etcd. */
  predicate InOffice(s: System, i: nat) {
    i < |s.electors| && s.electors[i].isLeader && s.electors[i].revision in s.etcd.keys
  }

  /** An elector in office holds the smallest live create-revision, so at most one is in office. */
  lemma AtMostOneInOffice(n: nat, actions: seq<Action>, i: nat, j: nat)
    requires InOffice(Exec(Initial(n), actions), i) && InOffice(Exec(Initial(n), actions), j)
    ensures i == j
    ensures var s := Exec(Initial(n), actions); NoOlderKey(s.etcd, s.electors[i].revision)
  {
    InvAlways(n, actions);
  }

  lemma {:induction false} ExecConcat(s: System, first: seq<Action>, second: seq<Action>)
    ensures Exec(s, first + second) == Exec(Exec(s, first), second)
    decreases |first|
  {
    if first == [] {
      assert first + second == second;
    } else {
      assert (first + second)[1..] == first[1..] + second;
      ExecConcat(Step(s, first[0]), first[1..], second);
    }
  }

  lemma ForwardFrom(s: System, more: seq<Action>, i: nat, j: nat)
    requires Inv(s) && InOffice(s, i) && InOffice(Exec(s, more), j)
    ensures s.electors[i].revision <= Exec(s, more).electors[j].revision
  {
    InvFrom(s, more);
  }

  /** Office never passes back to an older revision: the revisions in office form a fencing token. */
  lemma OfficeMovesForward(n: nat, actions: seq<Action>, more: seq<Action>, i: nat, j: nat)
    requires InOffice(Exec(Initial(n), actions), i) && InOffice(Exec(Initial(n), actions + more), j)
    ensures Exec(Initial(n), actions).electors[i].revision <= Exec(Initial(n), actions + more).electors[j].revision
  {
    InvAlways(n, actions);
    ExecConcat(Initial(n), actions, more);
    ForwardFrom(Exec(Initial(n), actions), more, i, j);
  }

  /** The readiness probe asks "leader or healthy"; in every reachable state that is "healthy". */
  lemma ReadinessIsHealth(n: nat, actions: seq<Action>, i: nat)
    requires i < n
    ensures |Exec(Initial(n), actions).electors| == n
    ensures var e := Exec(Initial(n), actions).electors[i]; (e.isLeader || e.isHealthy) <==> e.isHealthy
  {
    InvAlways(n, actions);
  }

  // ---- The flag after Run has returned ----

  predicate StaleExit(s: System, i: nat) {
    i < |s.electors| && s.electors[i].phase == Exited && s.electors[i].isLeader
  }

  /** The Resign call of `Run` fails while the flag is set. */
  predicate ExitFails(s: System, a: Action, i: nat) {
    && a == RunResignFails(i) && i < |s.electors|
    && (s.electors[i].phase == Exiting(Asking) || s.electors[i].phase == Exiting(Deleted)) && s.electors[i].isLeader
  }

  lemma RunLeavesNoStaleFlag(s: System, a: Action, i: nat)
    requires ElectorsOk(s) && OfRun(a) && !StaleExit(s, i)
    ensures !StaleExit(Step(s, a), i)
  {
    if a.i == i < |s.electors| { assert ElectorOk(s.electors[i], s.etcd); }
  }

  /** A stale flag arises exactly at such a step. */
  lemma StaleExitExactly(s: System, a: Action, i: nat)
    requires Inv(s) && !StaleExit(s, i)
    ensures StaleExit(Step(s, a), i) <==> ExitFails(s, a, i)
  {
    if OfRun(a) { RunLeavesNoStaleFlag(s, a, i); }
    else if OfExit(a) { ExitStaleExactly(s, a, i); }
    else { OthersLeaveNoStaleFlag(s, a, i); }
  }

  lemma OthersLeaveNoStaleFlag(s: System, a: Action, i: nat)
    requires !StaleExit(s, i) && !OfRun(a) && !OfExit(a)
    ensures !StaleExit(Step(s, a), i)
  {
  }

  lemma ExitStaleExactly(s: System, a: Action, i: nat)
    requires !StaleExit(s, i) && OfExit(a)
    ensures StaleExit(Step(s, a), i) <==> ExitFails(s, a, i)
  {
  }

  /** The state before action number `k`. */
  function Before(s: System, actions: seq<Action>, k: nat): System
    requires k <= |actions|
  {
    Exec(s, actions[..k])
  }

  lemma BeforeNext(s: System, actions: seq<Action>, k: nat)
    requires 0 < k <= |actions|
    ensures Before(s, actions, k) == Before(Step(s, actions[0]), actions[1..], k - 1)
  {
    assert actions[..k][1..] == actions[1..][..k - 1];
  }

  lemma {:induction false} StaleExitFrom(s: System, actions: seq<Action>, i: nat) returns (k: nat)
    requires Inv(s) && !StaleExit(s, i) && StaleExit(Exec(s, actions), i)
    ensures k < |actions| && ExitFails(Before(s, actions, k), actions[k], i)
    decreases |actions|
  {
    var s' := Step(s, actions[0]);
    StepKeepsInv(s, actions[0]);
    StaleExitExactly(s, actions[0], i);
    if StaleExit(s', i) {
      k := 0;
    } else {
      var later := StaleExitFrom(s', actions[1..], i);
      k := later + 1;
      BeforeNext(s, actions, k);
    }
  }

  /** Once `Run` has returned, the flag can still be set only if its own Resign call failed, with the flag set. */
  lemma FlagAfterExitMeansResignFailed(n: nat, actions: seq<Action>, i: nat) returns (k: nat)
    requires StaleExit(Exec(Initial(n), actions), i)
    ensures k < |actions| && actions[k] == RunResignFails(i) && ExitFails(Before(Initial(n), actions, k), actions[k], i)
  {
    InvAlways(n, []);
    k := StaleExitFrom(Initial(n), actions, i);
  }

  // ---- What changes each observable ----

  lemma BeforeSnoc(s: System, actions: seq<Action>, k: nat)
    requires k < |actions|
    ensures Before(s, actions, k + 1) == Step(Before(s, actions, k), actions[k])
  {
    ExecConcat(s, actions[..k], [actions[k]]);
    assert actions[..k] + [actions[k]] == actions[..k + 1];
  }

  predicate Unhealthy(s: System, i: nat) { i < |s.electors| && !s.electors[i].isHealthy }

  /** No session, or a campaign that failed. */
  predicate HealthFalls(s: System, a: Action, i: nat) {
    && i < |s.electors|
    && match a
       case OpenSessionFails(j) => j == i && s.electors[i].phase == Idle
       case CampaignFails(j, _, _) => j == i && (s.electors[i].phase == Opened || s.electors[i].phase == Waiting)
       case _ => false
  }

  predicate HealthReturns(s: System, a: Action, i: nat) {
    i < |s.electors| && a == TakeOffice(i) && s.electors[i].phase == Won
  }

  lemma HealthExactly(s: System, a: Action, i: nat)
    ensures Unhealthy(Step(s, a), i) <==> HealthFalls(s, a, i) || (Unhealthy(s, i) && !HealthReturns(s, a, i))
  {
  }

  predicate FellAt(s: System, actions: seq<Action>, k: nat, i: nat)
    requires k < |actions|
  {
    HealthFalls(Before(s, actions, k), actions[k], i)
  }

  predicate ReturnedAt(s: System, actions: seq<Action>, k: nat, i: nat)
    requires k < |actions|
  {
    HealthReturns(Before(s, actions, k), actions[k], i)
  }

  /** Among the first `n` actions health fell, and has not returned since. */
  ghost predicate FellLast(s: System, actions: seq<Action>, n: nat, i: nat)
    requires n <= |actions|
  {
    exists k :: 0 <= k < n && FellAt(s, actions, k, i) && forall j :: k < j < n ==> !ReturnedAt(s, actions, j, i)
  }

  lemma {:induction false} UnhealthyFrom(s: System, actions: seq<Action>, n: nat, i: nat)
    requires n <= |actions| && !Unhealthy(s, i)
    ensures Unhealthy(Before(s, actions, n), i) <==> FellLast(s, actions, n, i)
  {
    if n == 0 {
      assert actions[..0] == [];
    } else {
      UnhealthyFrom(s, actions, n - 1, i);
      BeforeSnoc(s, actions, n - 1);
      HealthExactly(Before(s, actions, n - 1), actions[n - 1], i);
      if FellAt(s, actions, n - 1, i) {
        assert FellLast(s, actions, n, i);
      } else if FellLast(s, actions, n - 1, i) && !ReturnedAt(s, actions, n - 1, i) {
        var k :| && 0 <= k < n - 1 && FellAt(s, actions, k, i)
                 && forall j :: k < j < n - 1 ==> !ReturnedAt(s, actions, j, i);
        assert FellLast(s, actions, n, i);
      }
    }
  }

  /** In every run an elector is unhealthy exactly when it failed to campaign and has not taken office since. */
  lemma UnhealthyExactly(n: nat, actions: seq<Action>, i: nat)
    ensures Unhealthy(Exec(Initial(n), actions), i) <==> FellLast(Initial(n), actions, |actions|, i)
  {
    UnhealthyFrom(Initial(n), actions, |actions|, i);
    assert actions[..|actions|] == actions;
  }

  /** The flag is cleared: by `Run` after a lost session or its own Resign, or by a call from outside. */
  predicate ClearsFlag(s: System, a: Action, i: nat) {
    && i < |s.electors|
    && match a
       case StepDown(j) => j == i && s.electors[i].phase == SteppingDown
       case RunResignClears(j) => j == i && s.electors[i].phase.Exiting? && s.electors[i].phase.stage.Returned?
       case ResignClears(call) => call in s.calls && s.calls[call].elector == i && s.calls[call].stage.Returned?
       case _ => false
  }

  lemma FlagExactly(s: System, a: Action, i: nat)
    requires i < |s.electors|
    ensures i < |Step(s, a).electors|
    ensures Step(s, a).electors[i].isLeader <==>
              HealthReturns(s, a, i) || (s.electors[i].isLeader && !ClearsFlag(s, a, i))
  {
  }

  /** `Run` returns: at the top of its loop, without a flag to resign, or when its Resign call has ended. */
  predicate Returns(s: System, a: Action, i: nat) {
    && i < |s.electors|
    && match a
       case StopAtLoopTop(j) => j == i && s.electors[i].phase == Idle
       case ContextDone(j) => j == i && s.electors[i].phase == Leading && !s.electors[i].isLeader
       case RunResignClears(j) => j == i && s.electors[i].phase.Exiting? && s.electors[i].phase.stage.Returned?
       case RunResignFails(j) =>
         j == i && (s.electors[i].phase == Exiting(Asking) || s.electors[i].phase == Exiting(Deleted))
       case _ => false
  }

  lemma ReturnsExactly(s: System, a: Action, i: nat)
    requires i < |s.electors|
    ensures i < |Step(s, a).electors|
    ensures Step(s, a).electors[i].phase == Exited <==> s.electors[i].phase == Exited || Returns(s, a, i)
  {
  }

  // ---- Keys and leases ----

  predicate WritesKey(s: System, a: Action, r: nat) {
    && a.WriteKey? && a.i < |s.electors| && s.electors[a.i].phase == Opened && s.electors[a.i].lease in s.etcd.leases
    && r == s.etcd.nextRevision
  }

  /** The lease of the key goes, or the key itself is deleted, by a failed campaign or a Resign call. */
  predicate LosesKey(s: System, a: Action, r: nat)
    requires r in s.etcd.keys
  {
    match a
    case LeaseExpires(lease) => lease == s.etcd.keys[r]
    case CampaignFails(i, keyDeleted, leaseRevoked) =>
      && i < |s.electors| && (s.electors[i].phase == Opened || s.electors[i].phase == Waiting)
      && ((keyDeleted && s.electors[i].phase == Waiting && s.electors[i].revision == r)
          || (leaseRevoked && s.electors[i].lease == s.etcd.keys[r]))
    case RunResignMoves(i, move) =>
      i < |s.electors| && move == Delete && s.electors[i].phase == Exiting(Asking) && s.electors[i].revision == r
    case ResignMoves(call, move) =>
      call in s.calls && move == Delete && s.calls[call].stage == Asking && s.calls[call].revision == r
    case _ => false
  }

  lemma KeysExactly(s: System, a: Action, r: nat)
    requires Inv(s)
    ensures r in Step(s, a).etcd.keys <==> WritesKey(s, a, r) || (r in s.etcd.keys && !LosesKey(s, a, r))
    ensures r in s.etcd.keys && r in Step(s, a).etcd.keys ==> Step(s, a).etcd.keys[r] == s.etcd.keys[r]
  {
    if OfRun(a) { RunKeysExactly(s, a, r); } else { OtherKeysExactly(s, a, r); }
  }

  lemma RunKeysExactly(s: System, a: Action, r: nat)
    requires Inv(s) && OfRun(a)
    ensures r in Step(s, a).etcd.keys <==> WritesKey(s, a, r) || (r in s.etcd.keys && !LosesKey(s, a, r))
    ensures r in s.etcd.keys && r in Step(s, a).etcd.keys ==> Step(s, a).etcd.keys[r] == s.etcd.keys[r]
  {
  }

  lemma OtherKeysExactly(s: System, a: Action, r: nat)
    requires !OfRun(a)
    ensures r in Step(s, a).etcd.keys <==> r in s.etcd.keys && !LosesKey(s, a, r)
    ensures r in Step(s, a).etcd.keys ==> Step(s, a).etcd.keys[r] == s.etcd.keys[r]
  {
  }

  lemma LeasesExactly(s: System, a: Action, lease: nat)
    ensures lease in Step(s, a).etcd.leases <==>
              || (a.OpenSession? && a.i < |s.electors| && s.electors[a.i].phase == Idle && lease == s.etcd.nextLease)
              || (lease in s.etcd.leases && !EndsLease(s, a, lease))
  {
  }

  /** The lease expires, or a failed campaign closes its session. */
  predicate EndsLease(s: System, a: Action, lease: nat) {
    match a
    case LeaseExpires(l) => l == lease
    case CampaignFails(i, _, leaseRevoked) =>
      && i < |s.electors| && (s.electors[i].phase == Opened || s.electors[i].phase == Waiting)
      && leaseRevoked && s.electors[i].lease == lease
    case _ => false
  }

  // ---- Resign calls ----

  /** A Resign call of the term is at the stage: one from outside, or the one that `Run` makes. */
  predicate CallAt(s: System, call: nat, revision: nat, stage: Stage) {
    call in s.calls && s.calls[call].revision == revision && s.calls[call].stage == stage
  }

  predicate ExitAt(s: System, i: nat, revision: nat, stage: Stage) {
    i < |s.electors| && s.electors[i].revision == revision && s.electors[i].phase == Exiting(stage)
  }

  /** The reply to a delete arrives, or the request or its reply is lost. */
  predicate DropsSession(s: System, a: Action, revision: nat) {
    match a
    case ResignMoves(call, move) => move == Reply && CallAt(s, call, revision, Deleted)
    case ResignFails(call) => CallAt(s, call, revision, Asking) || CallAt(s, call, revision, Deleted)
    case RunResignMoves(i, move) => move == Reply && ExitAt(s, i, revision, Deleted)
    case RunResignFails(i) => ExitAt(s, i, revision, Asking) || ExitAt(s, i, revision, Deleted)
    case _ => false
  }

  lemma DroppedExactly(s: System, a: Action, revision: nat)
    ensures revision in Step(s, a).dropped <==> revision in s.dropped || DropsSession(s, a, revision)
  {
  }

  /** A call ends exactly when it clears the flag after a return, or when its request or reply is lost. */
  lemma CallEndsExactly(s: System, a: Action, call: nat)
    requires Inv(s) && call in s.calls
    ensures call !in Step(s, a).calls <==>
              || (a == ResignClears(call) && s.calls[call].stage.Returned?)
              || (a == ResignFails(call) && (s.calls[call].stage == Asking || s.calls[call].stage == Deleted))
  {
    assert CallOk(s.calls[call], s.electors, s.etcd);
  }

  /** Once a term has dropped its session, no further delete is requested for it. */
  lemma NoRequestAfterDrop(s: System, a: Action, revision: nat, i: nat)
    requires revision in s.dropped
    ensures CallAt(Step(s, a), i, revision, Asking) ==> CallAt(s, i, revision, Asking)
    ensures ExitAt(Step(s, a), i, revision, Asking) ==> ExitAt(s, i, revision, Asking)
  {
  }

  /** A call returns without a delete only for a term that has dropped its session. */
  ghost predicate SkipsOk(s: System) {
    && (forall call :: call in s.calls && s.calls[call].stage == Returned(false) ==>
          s.calls[call].revision in s.dropped)
    && (forall i :: 0 <= i < |s.electors| && s.electors[i].phase == Exiting(Returned(false)) ==>
          s.electors[i].revision in s.dropped)
  }

  lemma StepKeepsSkips(s: System, a: Action)
    requires SkipsOk(s)
    ensures SkipsOk(Step(s, a))
  {
  }

  lemma {:induction false} SkipsFrom(s: System, actions: seq<Action>)
    requires SkipsOk(s)
    ensures SkipsOk(Exec(s, actions))
    decreases |actions|
  {
    if actions != [] {
      StepKeepsSkips(s, actions[0]);
      SkipsFrom(Step(s, actions[0]), actions[1..]);
    }
  }

  lemma {:induction false} DroppedFrom(s: System, actions: seq<Action>, revision: nat) returns (k: nat)
    requires revision !in s.dropped && revision in Exec(s, actions).dropped
    ensures k < |actions| && DropsSession(Before(s, actions, k), actions[k], revision)
    decreases |actions|
  {
    DroppedExactly(s, actions[0], revision);
    if DropsSession(s, actions[0], revision) {
      k := 0;
    } else {
      var later := DroppedFrom(Step(s, actions[0]), actions[1..], revision);
      k := later + 1;
      BeforeNext(s, actions, k);
    }
  }

  /** In every run, a call that returned without a delete came after another Resign of its term had ended. */
  lemma SkipNeedsEarlierResign(n: nat, actions: seq<Action>, call: nat, revision: nat) returns (k: nat)
    requires CallAt(Exec(Initial(n), actions), call, revision, Returned(false))
    ensures k < |actions| && DropsSession(Before(Initial(n), actions, k), actions[k], revision)
  {
    SkipsFrom(Initial(n), actions);
    k := DroppedFrom(Initial(n), actions, revision);
  }

  // ---- Who holds which lease ----

  predicate Campaigned(e: Elector) {
    e.phase == Waiting || e.phase == Won || e.phase == Leading || e.phase == SteppingDown || e.phase.Exiting?
  }

  ghost predicate LeasesOk(d: Etcd) {
    && 1 <= d.nextLease && (forall l :: l in d.leases ==> 0 < l < d.nextLease)
    && (forall r :: r in d.keys ==> d.keys[r] in d.leases)
  }

  /** An elector that has campaigned in its session has its live key on the lease of that session. */
  ghost predicate OwnsLease(e: Elector, d: Etcd) {
    && e.lease < d.nextLease && (e.phase == Opened || Campaigned(e) ==> 0 < e.lease)
    && (Campaigned(e) && e.revision in d.keys ==> d.keys[e.revision] == e.lease)
  }

  ghost predicate DistinctLeases(es: seq<Elector>) {
    forall i, j :: 0 <= i < j < |es| && es[i].lease == es[j].lease ==> es[i].lease == 0
  }

  /** No call resigns a term of another elector. */
  ghost predicate OwnTerms(s: System) {
    forall call, k :: call in s.calls && 0 <= k < |s.electors| && k != s.calls[call].elector ==>
      s.electors[k].revision != s.calls[call].revision
  }

  ghost predicate Owned(s: System) {
    && LeasesOk(s.etcd) && DistinctLeases(s.electors) && OwnTerms(s)
    && forall i :: 0 <= i < |s.electors| ==> OwnsLease(s.electors[i], s.etcd)
  }

  /** Keys keep their leases, and new ones hang on leases that exist. */
  ghost predicate LeasesGrow(d: Etcd, d': Etcd) {
    && Later(d, d') && d.nextLease <= d'.nextLease
    && forall r :: r in d.keys && r in d'.keys ==> d'.keys[r] == d.keys[r]
  }

  lemma RunKeepsLease(e: Elector, d: Etcd, a: Action)
    requires EtcdOk(d) && ElectorOk(e, d) && LeasesOk(d) && OwnsLease(e, d)
    ensures var (e', d') := RunStep(e, d, a);
            && LeasesOk(d') && OwnsLease(e', d') && LeasesGrow(d, d')
            && (e'.lease == e.lease || e'.lease == d.nextLease < d'.nextLease)
  {
  }

  lemma GrowthKeepsLease(e: Elector, d: Etcd, d': Etcd)
    requires ElectorOk(e, d) && OwnsLease(e, d) && LeasesGrow(d, d')
    ensures OwnsLease(e, d')
  {
  }

  /** The electors but at most one stay as they are, and that one takes at most a new lease. */
  lemma OwnersMove(s: System, i: nat, e: Elector, s': System)
    requires Inv(s) && Owned(s) && i < |s.electors| && s'.electors == s.electors[i := e]
    requires LeasesOk(s'.etcd) && LeasesGrow(s.etcd, s'.etcd) && OwnsLease(e, s'.etcd)
    requires e.lease == s.electors[i].lease || s.etcd.nextLease <= e.lease
    ensures DistinctLeases(s'.electors) && forall k :: 0 <= k < |s'.electors| ==> OwnsLease(s'.electors[k], s'.etcd)
  {
    forall k | 0 <= k < |s'.electors| ensures OwnsLease(s'.electors[k], s'.etcd) {
      if k != i { GrowthKeepsLease(s.electors[k], s.etcd, s'.etcd); }
    }
  }

  lemma OwnersStay(s: System, s': System)
    requires Inv(s) && Owned(s) && s'.electors == s.electors && LeasesOk(s'.etcd) && LeasesGrow(s.etcd, s'.etcd)
    ensures DistinctLeases(s'.electors) && forall k :: 0 <= k < |s'.electors| ==> OwnsLease(s'.electors[k], s'.etcd)
  {
    forall k | 0 <= k < |s'.electors| ensures OwnsLease(s'.electors[k], s'.etcd) {
      GrowthKeepsLease(s.electors[k], s.etcd, s'.etcd);
    }
  }

  lemma RunKeepsOwners(s: System, a: Action)
    requires Inv(s) && Owned(s) && OfRun(a)
    ensures var s' := Step(s, a);
            && LeasesOk(s'.etcd) && DistinctLeases(s'.electors)
            && forall k :: 0 <= k < |s'.electors| ==> OwnsLease(s'.electors[k], s'.etcd)
  {
    if a.i < |s.electors| {
      RunKeepsLease(s.electors[a.i], s.etcd, a);
      OwnersMove(s, a.i, RunStep(s.electors[a.i], s.etcd, a).0, Step(s, a));
    }
  }

  lemma ExitKeepsOwners(s: System, a: Action)
    requires Inv(s) && Owned(s) && OfExit(a)
    ensures var s' := Step(s, a);
            && LeasesOk(s'.etcd) && DistinctLeases(s'.electors)
            && forall k :: 0 <= k < |s'.electors| ==> OwnsLease(s'.electors[k], s'.etcd)
  {
    var s' := Step(s, a);
    if s' != s {
      assert s'.electors == s.electors[a.i := s'.electors[a.i]];
      OwnersMove(s, a.i, s'.electors[a.i], s');
    }
  }

  lemma OthersKeepOwners(s: System, a: Action)
    requires Inv(s) && Owned(s) && !OfRun(a) && !OfExit(a)
    ensures var s' := Step(s, a);
            && LeasesOk(s'.etcd) && DistinctLeases(s'.electors)
            && forall k :: 0 <= k < |s'.electors| ==> OwnsLease(s'.electors[k], s'.etcd)
  {
    var s' := Step(s, a);
    if a.ResignClears? && s' != s {
      var i := s.calls[a.call].elector;
      OwnersMove(s, i, s'.electors[i], s');
    } else {
      OwnersStay(s, s');
    }
  }

  /** A new term has a revision that no call in flight has. */
  lemma TermsKeep(s: System, a: Action, call: nat, k: nat)
    requires Inv(s) && OwnTerms(s) && Grows(s, Step(s, a))
    requires call in Step(s, a).calls && k < |s.electors| && k != Step(s, a).calls[call].elector
    ensures Step(s, a).electors[k].revision != Step(s, a).calls[call].revision
  {
    RevisionStaysOrIsNew(s, a, k);
    CallKeepsTerm(s, a, call);
    if call in s.calls { assert CallOk(s.calls[call], s.electors, s.etcd); }
  }

  lemma RevisionStaysOrIsNew(s: System, a: Action, k: nat)
    requires k < |s.electors|
    ensures k < |Step(s, a).electors|
    ensures Step(s, a).electors[k].revision == s.electors[k].revision
            || Step(s, a).electors[k].revision == s.etcd.nextRevision
    ensures a.ResignBegins? ==> Step(s, a).electors == s.electors
  {
  }

  lemma CallKeepsTerm(s: System, a: Action, call: nat)
    requires call in Step(s, a).calls
    ensures if call in s.calls then
              && Step(s, a).calls[call].elector == s.calls[call].elector
              && Step(s, a).calls[call].revision == s.calls[call].revision
            else a == ResignBegins(Step(s, a).calls[call].elector, call)
                 && Step(s, a).calls[call].elector < |s.electors|
                 && Step(s, a).calls[call].revision == s.electors[Step(s, a).calls[call].elector].revision
                 && s.electors[Step(s, a).calls[call].elector].isLeader
  {
  }

  lemma StepKeepsOwned(s: System, a: Action)
    requires Inv(s) && Owned(s)
    ensures Owned(Step(s, a))
  {
    if OfRun(a) { RunKeepsOwners(s, a); }
    else if OfExit(a) { ExitKeepsOwners(s, a); }
    else { OthersKeepOwners(s, a); }
    StepKeepsElectors(s, a);
    forall call, k | call in Step(s, a).calls && 0 <= k < |s.electors| && k != Step(s, a).calls[call].elector
      ensures Step(s, a).electors[k].revision != Step(s, a).calls[call].revision
    {
      TermsKeep(s, a, call, k);
    }
  }

  lemma {:induction false} OwnedFrom(s: System, actions: seq<Action>)
    requires Inv(s) && Owned(s)
    ensures Inv(Exec(s, actions)) && Owned(Exec(s, actions))
    decreases |actions|
  {
    if actions != [] {
      StepKeepsInv(s, actions[0]);
      StepKeepsOwned(s, actions[0]);
      OwnedFrom(Step(s, actions[0]), actions[1..]);
    }
  }

  lemma OwnedAlways(n: nat, actions: seq<Action>)
    ensures Inv(Exec(Initial(n), actions)) && Owned(Exec(Initial(n), actions))
  {
    InvAlways(n, []);
    OwnedFrom(Initial(n), actions);
  }

  /** Its own lease expires, or a Resign call of its own deletes its key. */
  predicate LosesOwnKey(s: System, a: Action, i: nat)
    requires i < |s.electors|
  {
    match a
    case LeaseExpires(lease) => lease == s.electors[i].lease
    case RunResignMoves(j, move) => j == i && move == Delete && s.electors[i].phase == Exiting(Asking)
    case ResignMoves(call, move) =>
      && call in s.calls && move == Delete && s.calls[call].stage == Asking
      && s.calls[call].elector == i && s.calls[call].revision == s.electors[i].revision
    case _ => false
  }

  /**
   In every reachable state, an elector in office that `Run` still holds leaves it exactly when its flag is cleared or
   its own key goes; nothing that befalls another elector, its lease or its calls can end the term.
   */
  lemma OfficeLostExactly(n: nat, actions: seq<Action>, a: Action, i: nat)
    requires InOffice(Exec(Initial(n), actions), i) && Campaigned(Exec(Initial(n), actions).electors[i])
    ensures var s := Exec(Initial(n), actions);
            !InOffice(Step(s, a), i) <==> ClearsFlag(s, a, i) || LosesOwnKey(s, a, i)
  {
    OwnedAlways(n, actions);
    OfficeLostFrom(Exec(Initial(n), actions), a, i);
  }

  lemma OfficeLostFrom(s: System, a: Action, i: nat)
    requires Inv(s) && Owned(s) && InOffice(s, i) && Campaigned(s.electors[i])
    ensures !InOffice(Step(s, a), i) <==> ClearsFlag(s, a, i) || LosesOwnKey(s, a, i)
  {
    var e := s.electors[i];
    FlagExactly(s, a, i);
    OfficeKeepsTerm(s, a, i);
    KeysExactly(s, a, e.revision);
    assert ElectorOk(e, s.etcd) && OwnsLease(e, s.etcd);
    OwnKeyLost(s, a, i);
  }

  lemma OfficeKeepsTerm(s: System, a: Action, i: nat)
    requires Inv(s) && InOffice(s, i)
    ensures |Step(s, a).electors| == |s.electors| && Step(s, a).electors[i].revision == s.electors[i].revision
  {
    StepKeepsElectors(s, a);
    assert ElectorOk(s.electors[i], s.etcd);
    TermStays(s, a, i);
  }

  lemma TermStays(s: System, a: Action, i: nat)
    requires i < |s.electors| && s.electors[i].phase != Opened
    ensures i < |Step(s, a).electors| && Step(s, a).electors[i].revision == s.electors[i].revision
  {
  }

  lemma OwnKeyLost(s: System, a: Action, i: nat)
    requires Inv(s) && Owned(s) && InOffice(s, i) && Campaigned(s.electors[i])
    ensures LosesKey(s, a, s.electors[i].revision) <==> LosesOwnKey(s, a, i)
  {
    var e := s.electors[i];
    assert ElectorOk(e, s.etcd) && OwnsLease(e, s.etcd);
    if a.CampaignFails? && a.i < |s.electors| { assert OwnsLease(s.electors[a.i], s.etcd); }
  }

  // ---- A vacant office ----

  /** An elector that holds the oldest live key without its flag keeps everyone else out of office. */
  predicate Vacant(s: System, i: nat) {
    && i < |s.electors| && s.electors[i].phase == Leading && !s.electors[i].isLeader
    && s.electors[i].revision in s.etcd.keys
  }

  /** While such a key lives, no elector at all is in office. */
  lemma VacancyLocksTheOffice(n: nat, actions: seq<Action>, i: nat, j: nat)
    requires Vacant(Exec(Initial(n), actions), i)
    ensures !InOffice(Exec(Initial(n), actions), j)
  {
    InvAlways(n, actions);
  }

  predicate FlagLost(s: System, i: nat) {
    i < |s.electors| && s.electors[i].phase == Leading && !s.electors[i].isLeader
  }

  /** A Resign call of elector `i` that has returned clears its flag while it is blocked on its session. */
  predicate TakesFlag(s: System, a: Action, i: nat) {
    && a.ResignClears? && a.call in s.calls && s.calls[a.call].elector == i && s.calls[a.call].stage.Returned?
    && i < |s.electors| && s.electors[i].phase == Leading
  }

  /** An elector blocked on its session loses its flag exactly at such a step. */
  lemma FlagLostExactly(s: System, a: Action, i: nat)
    requires !FlagLost(s, i)
    ensures FlagLost(Step(s, a), i) <==> TakesFlag(s, a, i)
  {
  }

  predicate Vacates(s: System, a: Action, i: nat) {
    TakesFlag(s, a, i) && s.electors[i].revision in s.etcd.keys
  }

  /** The call that vacates the office is of an earlier term, or found its election without a session. */
  predicate NotItsOwnDelete(s: System, a: Action, i: nat)
    requires Vacates(s, a, i)
  {
    s.calls[a.call].revision < s.electors[i].revision || s.calls[a.call].stage == Returned(false)
  }

  lemma VacancyExactly(s: System, a: Action, i: nat)
    requires Inv(s) && !Vacant(s, i)
    ensures Vacant(Step(s, a), i) <==> Vacates(s, a, i)
    ensures Vacates(s, a, i) ==> NotItsOwnDelete(s, a, i)
  {
    if FlagLost(s, i) {
      StepKeepsElectors(s, a);
      if FlagLost(Step(s, a), i) { LostKeepsTerm(s, a, i); }
    } else {
      FlagLostExactly(s, a, i);
      if Vacates(s, a, i) { assert CallOk(s.calls[a.call], s.electors, s.etcd); }
    }
  }

  lemma LostKeepsTerm(s: System, a: Action, i: nat)
    requires FlagLost(s, i) && FlagLost(Step(s, a), i)
    ensures Step(s, a).electors[i].revision == s.electors[i].revision
  {
  }

  lemma {:induction false} VacancyFrom(s: System, actions: seq<Action>, i: nat) returns (k: nat)
    requires Inv(s) && !Vacant(s, i) && Vacant(Exec(s, actions), i)
    ensures k < |actions| && Vacates(Before(s, actions, k), actions[k], i)
    ensures NotItsOwnDelete(Before(s, actions, k), actions[k], i)
    decreases |actions|
  {
    var s' := Step(s, actions[0]);
    StepKeepsInv(s, actions[0]);
    VacancyExactly(s, actions[0], i);
    if Vacant(s', i) {
      k := 0;
    } else {
      var later := VacancyFrom(s', actions[1..], i);
      k := later + 1;
      BeforeNext(s, actions, k);
    }
  }

  /**
   In every run an office is vacant only after a Resign call from outside `Run` has cleared the flag under a live
   key, and that call was of an earlier term or had deleted nothing.
   */
  lemma VacancyNeedsResign(n: nat, actions: seq<Action>, i: nat) returns (k: nat)
    requires Vacant(Exec(Initial(n), actions), i)
    ensures k < |actions| && Vacates(Before(Initial(n), actions, k), actions[k], i)
    ensures NotItsOwnDelete(Before(Initial(n), actions, k), actions[k], i)
  {
    InvAlways(n, []);
    k := VacancyFrom(Initial(n), actions, i);
  }

  // ---- Runs that show what cannot be claimed ----

  ghost predicate Reaches(s: System, t: System) {
    exists actions :: Exec(s, actions) == t
  }

  lemma ReachesNext(s: System, t: System, a: Action)
    requires Reaches(s, t)
    ensures Reaches(s, Step(t, a))
  {
    var actions :| Exec(s, actions) == t;
    ExecConcat(s, actions, [a]);
  }

  lemma ReachesItself(s: System)
    ensures Reaches(s, s)
  {
    assert Exec(s, []) == s;
  }

  /** From a state in which no key is live, an idle elector is elected by its four own actions. */
  lemma ElectionSucceeds(start: System, s: System, i: nat) returns (t: System)
    requires Reaches(start, s) && i < |s.electors| && s.electors[i].phase == Idle && s.etcd.keys == map[]
    ensures Reaches(start, t) && t.calls == s.calls && t.dropped == s.dropped
    ensures t.electors == s.electors[i := Elector(Leading, s.etcd.nextLease, s.etcd.nextRevision, true, true)]
    ensures t.etcd.keys == map[s.etcd.nextRevision := s.etcd.nextLease]
    ensures t.etcd.nextLease == s.etcd.nextLease + 1 && t.etcd.nextRevision == s.etcd.nextRevision + 1
  {
    var s1 := Step(s, OpenSession(i));
    var s2 := Step(s1, WriteKey(i));
    assert s2.etcd.keys == map[s.etcd.nextRevision := s.etcd.nextLease];
    var s3 := Step(s2, CampaignReturns(i));
    t := Step(s3, TakeOffice(i));
    ReachesNext(start, s, OpenSession(i));
    ReachesNext(start, s1, WriteKey(i));
    ReachesNext(start, s2, CampaignReturns(i));
    ReachesNext(start, s3, TakeOffice(i));
  }

  /** Every lease that a key hangs on can expire. */
  lemma {:induction false} KeysExpire(start: System, s: System) returns (t: System)
    requires Reaches(start, s)
    ensures Reaches(start, t) && t.electors == s.electors && t.etcd.keys == map[]
    decreases s.etcd.keys.Keys
  {
    if s.etcd.keys == map[] {
      t := s;
    } else {
      var r :| r in s.etcd.keys;
      var s' := Step(s, LeaseExpires(s.etcd.keys[r]));
      ReachesNext(start, s, LeaseExpires(s.etcd.keys[r]));
      assert r !in s'.etcd.keys && s'.etcd.keys.Keys <= s.etcd.keys.Keys;
      t := KeysExpire(start, s');
    }
  }

  /** `Run` is on its way out, or has returned. */
  predicate Leaving(e: Elector) { e.phase.Exiting? || e.phase == Exited }

  /** A failed campaign or a lost session brings `Run` back to the top of its loop. */
  lemma BackToLoopTop(start: System, s: System, i: nat) returns (t: System)
    requires Reaches(start, s) && i < |s.electors| && !Leaving(s.electors[i])
    ensures Reaches(start, t) && |t.electors| == |s.electors| && t.electors[i].phase == Idle
  {
    t := s;
    if t.electors[i].phase == Opened || t.electors[i].phase == Waiting {
      ReachesNext(start, t, CampaignFails(i, false, false));
      t := Step(t, CampaignFails(i, false, false));
    }
    if t.electors[i].phase == Won {
      ReachesNext(start, t, TakeOffice(i));
      t := Step(t, TakeOffice(i));
    }
    if t.electors[i].phase == Leading {
      ReachesNext(start, t, SessionDone(i));
      t := Step(t, SessionDone(i));
    }
    if t.electors[i].phase == SteppingDown {
      ReachesNext(start, t, StepDown(i));
      t := Step(t, StepDown(i));
    }
  }

  lemma {:induction false} LeavingStays(s: System, actions: seq<Action>, i: nat)
    requires i < |s.electors| && Leaving(s.electors[i])
    ensures i < |Exec(s, actions).electors| && Leaving(Exec(s, actions).electors[i])
    decreases |actions|
  {
    if actions != [] { LeavingStays(Step(s, actions[0]), actions[1..], i); }
  }

  ghost predicate CanLead(s: System, i: nat) {
    exists t :: Reaches(s, t) && InOffice(t, i) && t.electors[i].phase == Leading
  }

  /** From any state an elector can come to lead, in office, exactly when `Run` is not on its way out. */
  lemma ElectableExactly(s: System, i: nat)
    requires i < |s.electors|
    ensures CanLead(s, i) <==> !Leaving(s.electors[i])
  {
    if Leaving(s.electors[i]) {
      forall t | Reaches(s, t) ensures !(InOffice(t, i) && t.electors[i].phase == Leading) {
        var actions :| Exec(s, actions) == t;
        LeavingStays(s, actions, i);
      }
    } else {
      ReachesItself(s);
      var s1 := BackToLoopTop(s, s, i);
      var s2 := KeysExpire(s, s1);
      var s3 := ElectionSucceeds(s, s2, i);
      assert InOffice(s3, i) && s3.electors[i].phase == Leading;
    }
  }

  lemma OnlyLeaseExpires(start: System, s: System, revision: nat, lease: nat) returns (t: System)
    requires Reaches(start, s) && s.etcd.keys == map[revision := lease]
    ensures Reaches(start, t) && t.electors == s.electors && t.calls == s.calls && t.etcd.keys == map[]
    ensures t.etcd.nextLease == s.etcd.nextLease && t.etcd.nextRevision == s.etcd.nextRevision
  {
    t := Step(s, LeaseExpires(lease));
    ReachesNext(start, s, LeaseExpires(lease));
  }

  predicate BothFlags(s: System, i: nat, j: nat) {
    i != j && i < |s.electors| && j < |s.electors| && s.electors[i].isLeader && s.electors[j].isLeader
  }

  /** Elector `i` takes office while `j` still has its flag. */
  predicate TakesBeside(s: System, a: Action, i: nat, j: nat) {
    && a == TakeOffice(i) && i != j && i < |s.electors| && j < |s.electors|
    && s.electors[i].phase == Won && s.electors[j].isLeader
  }

  lemma FlagSetExactly(s: System, a: Action, i: nat)
    requires i < |s.electors| && !s.electors[i].isLeader
    ensures i < |Step(s, a).electors|
    ensures Step(s, a).electors[i].isLeader <==> a == TakeOffice(i) && s.electors[i].phase == Won
    ensures Step(s, a).electors[i].isLeader ==> Step(s, a).electors == s.electors[i := Step(s, a).electors[i]]
  {
  }

  /** Two flags are set at once exactly from such a step on, and then not both of the two are in office. */
  lemma TwoFlagsExactly(s: System, a: Action, i: nat, j: nat)
    requires Inv(s) && i < |s.electors| && j < |s.electors| && !BothFlags(s, i, j)
    ensures BothFlags(Step(s, a), i, j) <==> TakesBeside(s, a, i, j) || TakesBeside(s, a, j, i)
    ensures BothFlags(Step(s, a), i, j) ==> !(InOffice(Step(s, a), i) && InOffice(Step(s, a), j))
  {
    StepKeepsInv(s, a);
    if !s.electors[i].isLeader { FlagSetExactly(s, a, i); }
    if !s.electors[j].isLeader { FlagSetExactly(s, a, j); }
  }

  lemma {:induction false} TwoFlagsFrom(s: System, actions: seq<Action>, i: nat, j: nat) returns (k: nat)
    requires Inv(s) && i < |s.electors| && j < |s.electors|
    requires !BothFlags(s, i, j) && BothFlags(Exec(s, actions), i, j)
    ensures k < |actions|
    ensures var t := Before(s, actions, k); TakesBeside(t, actions[k], i, j) || TakesBeside(t, actions[k], j, i)
    decreases |actions|
  {
    var s' := Step(s, actions[0]);
    StepKeepsInv(s, actions[0]);
    TwoFlagsExactly(s, actions[0], i, j);
    if BothFlags(s', i, j) {
      k := 0;
    } else {
      var later := TwoFlagsFrom(s', actions[1..], i, j);
      k := later + 1;
      BeforeNext(s, actions, k);
    }
  }

  /** In every run that ends with two flags, one elector took office while the other still had its flag. */
  lemma TwoFlagsNeedTakeOffice(n: nat, actions: seq<Action>, i: nat, j: nat) returns (k: nat)
    requires BothFlags(Exec(Initial(n), actions), i, j)
    ensures k < |actions|
    ensures var t := Before(Initial(n), actions, k);
            TakesBeside(t, actions[k], i, j) || TakesBeside(t, actions[k], j, i)
  {
    InvAlways(n, []);
    InvAlways(n, actions);
    k := TwoFlagsFrom(Initial(n), actions, i, j);
  }

  /** The bare flag is not exclusive: after a lease expires unnoticed, two flags are set at once. */
  lemma TwoFlagsCanCoexist() returns (t: System)
    ensures Reaches(Initial(2), t) && |t.electors| == 2
    ensures t.electors[0].isLeader && t.electors[1].isLeader && !InOffice(t, 0) && InOffice(t, 1)
  {
    var start := Initial(2);
    ReachesItself(start);
    var s1 := ElectionSucceeds(start, start, 0);
    var s2 := OnlyLeaseExpires(start, s1, 1, 1);
    t := ElectionSucceeds(start, s2, 1);
  }

  lemma ShutdownBegins(start: System, s: System) returns (t: System)
    requires Reaches(start, s) && |s.electors| == 1 && s.electors[0] == Elector(Leading, 1, 1, true, true)
    ensures Reaches(start, t) && t == s.(electors := [Elector(Exiting(Pending), 1, 1, true, true)])
  {
    t := Step(s, ContextDone(0));
    ReachesNext(start, s, ContextDone(0));
  }

  lemma ShutdownFails(start: System, s: System) returns (t: System)
    requires Reaches(start, s) && s.electors == [Elector(Exiting(Pending), 1, 1, true, true)] && s.dropped == {}
    ensures Reaches(start, t) && StaleExit(t, 0) && t.etcd == s.etcd
  {
    var s1 := Step(s, RunResignMoves(0, Ask));
    t := Step(s1, RunResignFails(0));
    ReachesNext(start, s, RunResignMoves(0, Ask));
    ReachesNext(start, s1, RunResignFails(0));
  }

  /** A failed Resign on shutdown leaves the flag set after `Run` has returned, even with the key gone. */
  lemma StaleFlagAfterFailedResign() returns (t: System)
    ensures Reaches(Initial(1), t) && StaleExit(t, 0) && t.etcd.keys == map[]
  {
    var start := Initial(1);
    ReachesItself(start);
    var s1 := ElectionSucceeds(start, start, 0);
    var s2 := ShutdownBegins(start, s1);
    var s3 := ShutdownFails(start, s2);
    t := OnlyLeaseExpires(start, s3, 1, 1);
  }

  lemma ResignAsks(start: System, s: System) returns (t: System)
    requires Reaches(start, s) && |s.electors| == 1 && s.electors[0] == Elector(Leading, 1, 1, true, true)
    requires s.calls == map[] && s.dropped == {}
    ensures Reaches(start, t) && t == s.(calls := map[0 := ResignCall(0, 1, Asking)])
  {
    var s1 := Step(s, ResignBegins(0, 0));
    t := Step(s1, ResignMoves(0, Ask));
    ReachesNext(start, s, ResignBegins(0, 0));
    ReachesNext(start, s1, ResignMoves(0, Ask));
  }

  /** A Resign call deletes the key and its reply arrives, but the flag is not cleared yet. */
  lemma ResignHangs(start: System, s: System) returns (t: System)
    requires Reaches(start, s) && s.calls == map[0 := ResignCall(0, 1, Asking)] && s.etcd.keys == map[1 := 1]
    ensures Reaches(start, t) && t.electors == s.electors && t.etcd.keys == map[]
    ensures t.calls == map[0 := ResignCall(0, 1, Returned(true))]
  {
    var s1 := Step(s, ResignMoves(0, Delete));
    assert s1.calls == map[0 := ResignCall(0, 1, Deleted)];
    t := Step(s1, ResignMoves(0, Reply));
    ReachesNext(start, s, ResignMoves(0, Delete));
    ReachesNext(start, s1, ResignMoves(0, Reply));
  }

  lemma ResignReturns(start: System, s: System, revision: nat, deleted: bool) returns (t: System)
    requires Reaches(start, s) && s.calls == map[0 := ResignCall(0, revision, Returned(deleted))]
    requires |s.electors| == 1 && s.electors[0].phase == Leading && s.electors[0].revision in s.etcd.keys
    ensures Reaches(start, t) && Vacant(t, 0)
  {
    t := Step(s, ResignClears(0));
    ReachesNext(start, s, ResignClears(0));
  }

  lemma SessionIsLost(start: System, s: System) returns (t: System)
    requires Reaches(start, s) && |s.electors| == 1 && s.electors[0].phase == Leading
    ensures Reaches(start, t) && t.etcd == s.etcd && t.calls == s.calls
    ensures t.electors == [s.electors[0].(phase := Idle, isLeader := false)]
  {
    var s1 := Step(s, SessionDone(0));
    t := Step(s1, StepDown(0));
    ReachesNext(start, s, SessionDone(0));
    ReachesNext(start, s1, StepDown(0));
  }

  /**
   A Resign call that began in one term and returns in the next clears the new term's flag: its elector then
   holds the only key without being in office.
   */
  lemma LateResignVacatesOffice() returns (t: System)
    ensures Reaches(Initial(1), t) && Vacant(t, 0)
  {
    var start := Initial(1);
    ReachesItself(start);
    var s1 := ElectionSucceeds(start, start, 0);
    var s2 := ResignAsks(start, s1);
    var s3 := ResignHangs(start, s2);
    var s4 := SessionIsLost(start, s3);
    var s5 := ElectionSucceeds(start, s4, 0);
    t := ResignReturns(start, s5, 1, true);
  }

  lemma ResignIsLost(start: System, s: System) returns (t: System)
    requires Reaches(start, s) && s.calls == map[0 := ResignCall(0, 1, Asking)] && s.dropped == {}
    ensures Reaches(start, t) && t == s.(calls := map[], dropped := {1})
  {
    t := Step(s, ResignFails(0));
    ReachesNext(start, s, ResignFails(0));
  }

  /** After a Resign that failed, a second one in the same term deletes nothing and vacates the office. */
  lemma SecondResignVacatesOffice() returns (t: System)
    ensures Reaches(Initial(1), t) && Vacant(t, 0)
  {
    var start := Initial(1);
    ReachesItself(start);
    var s1 := ElectionSucceeds(start, start, 0);
    var s2 := ResignAsks(start, s1);
    var s3 := ResignIsLost(start, s2);
    var s4 := ResignSkips(start, s3);
    t := ResignReturns(start, s4, 1, false);
  }

  lemma ResignSkips(start: System, s: System) returns (t: System)
    requires Reaches(start, s) && |s.electors| == 1 && s.electors[0] == Elector(Leading, 1, 1, true, true)
    requires s.calls == map[] && s.dropped == {1}
    ensures Reaches(start, t) && t == s.(calls := map[0 := ResignCall(0, 1, Returned(false))])
  {
    var s1 := Step(s, ResignBegins(0, 0));
    t := Step(s1, ResignMoves(0, Skip));
    ReachesNext(start, s, ResignBegins(0, 0));
    ReachesNext(start, s1, ResignMoves(0, Skip));
  }
}
