/**
 * Nested delegation: a tree of processes whose callers yield their own slot while they
 * wait for a child (runtime-core.ts, concurrency.ts), over the coordinator of
 * TreeCoordinator.  Call i carries token i and its child is process i + 1; the root is
 * process 0 and inherits no token.  Processes exit normally but do not crash, and the
 * tree stays active.
 */
module NestedDelegation {
  import opened Wrappers
  import opened TreeCoordinator
  import opened SlotAdmission
  import SlotCustody

  datatype Phase =
    | Suspending
    | Admitting
    | Acquiring(socket: Socket)
    | Launching
    | Running
    | Exited
    | Restoring
    | Resuming(socket: Socket)
    | Finished

  /** `yielded`: this call still counts in its caller's nested-delegation counter. */
  datatype Call = Call(caller: Process, phase: Phase, yielded: bool)

  /** `leaked`: tokens confirmed to a caller that had already given up on them. */
  datatype Tree = Tree(coordinator: State, calls: seq<Call>, limit: nat, cap: int, leaked: set<Token>)

  datatype Action =
    | Begin(caller: Process)
    | Yield(call: nat)
    | AskSlot(call: nat)
    | Confirm(call: nat)
    | Refused(call: nat)
    | GiveUp(call: nat)
    | Abandon(call: nat)
    | Launch(call: nat)
    | LaunchFails(call: nat)
    | Exit(call: nat)
    | Free(call: nat)
    | Restore(call: nat)
    | Resumed(call: nat)
    | ResumeGivesUp(call: nat)
    | SuspendFails(call: nat)
    | SuspendReplyLost(call: nat)
    | AdmissionFails(call: nat)
    | RestoreFails(call: nat)
    | ResumeReplyLost(call: nat)

  /** Steps a deadline or a cancellation takes; a run makes progress without them. */
  predicate Surrenders(a: Action) {
    a.GiveUp? || a.Abandon? || a.LaunchFails? || a.ResumeGivesUp? || LosesRequest(a)
  }

  /** A request is given up before it is sent, or after it took effect but before its answer is seen. */
  predicate LosesRequest(a: Action) {
    a.SuspendFails? || a.SuspendReplyLost? || a.AdmissionFails? || a.RestoreFails? || a.ResumeReplyLost?
  }

  // ---------------------------------------------------------------- the protocol

  predicate Yielding(calls: seq<Call>, p: Process) {
    exists i | 0 <= i < |calls| :: calls[i].caller == p && calls[i].yielded
  }

  /** The caller's transition queue is free: no resume of its own slot is in flight. */
  predicate Turn(calls: seq<Call>, p: Process) {
    forall i | 0 <= i < |calls| && calls[i].caller == p :: !calls[i].phase.Resuming?
  }

  predicate Working(calls: seq<Call>, p: Process) {
    p == 0 || (p - 1 < |calls| && calls[p - 1].phase.Running?)
  }

  predicate CallsDone(calls: seq<Call>, p: Process) {
    forall i | 0 <= i < |calls| && calls[i].caller == p :: calls[i].phase.Finished?
  }

  predicate Waiting(s: State, x: Socket) {
    exists i | 0 <= i < |s.queue| :: s.queue[i].socket == x
  }

  /** The grant went out on a connection that is still open. */
  predicate Answered(s: State, x: Socket) {
    x in s.grants && x !in s.destroyed
  }

  predicate Enabled(tree: Tree, a: Action) {
    var calls := tree.calls;
    match a
    case Begin(p) => |calls| < tree.limit && Working(calls, p)
    case Yield(i) => i < |calls| && calls[i].phase.Suspending? && Turn(calls, calls[i].caller)
    case AskSlot(i) => i < |calls| && calls[i].phase.Admitting?
    case Confirm(i) => i < |calls| && calls[i].phase.Acquiring? && Answered(tree.coordinator, calls[i].phase.socket)
    case Refused(i) =>
      && i < |calls| && (calls[i].phase.Acquiring? || calls[i].phase.Resuming?)
      && calls[i].phase.socket !in tree.coordinator.grants && !Waiting(tree.coordinator, calls[i].phase.socket)
    case GiveUp(i) => i < |calls| && calls[i].phase.Acquiring?
    case Abandon(i) => i < |calls| && calls[i].phase.Acquiring? && Answered(tree.coordinator, calls[i].phase.socket)
    case Launch(i) => i < |calls| && calls[i].phase.Launching?
    case LaunchFails(i) => i < |calls| && calls[i].phase.Launching?
    case Exit(i) => i < |calls| && calls[i].phase.Running? && CallsDone(calls, i + 1)
    case Free(i) => i < |calls| && calls[i].phase.Exited?
    case Restore(i) => i < |calls| && calls[i].phase.Restoring? && Turn(calls, calls[i].caller)
    case Resumed(i) => i < |calls| && calls[i].phase.Resuming? && Answered(tree.coordinator, calls[i].phase.socket)
    case ResumeGivesUp(i) => i < |calls| && calls[i].phase.Resuming?
    case SuspendFails(i) => i < |calls| && calls[i].phase.Suspending? && Turn(calls, calls[i].caller)
    case SuspendReplyLost(i) =>
      && i < |calls| && calls[i].phase.Suspending? && Turn(calls, calls[i].caller)
      && !Yielding(calls, calls[i].caller) && MayYield(tree.coordinator, calls[i].caller)
    case AdmissionFails(i) => i < |calls| && calls[i].phase.Admitting?
    case RestoreFails(i) => i < |calls| && calls[i].phase.Restoring? && Turn(calls, calls[i].caller)
    case ResumeReplyLost(i) =>
      i < |calls| && calls[i].phase.Resuming? && Answered(tree.coordinator, calls[i].phase.socket)
  }

  function Ask(s: State, pid: Process, operation: Operation): State {
    Apply(s, Receive(Request(Authentic, pid, operation)))
  }

  function At(calls: seq<Call>, i: nat, phase: Phase): seq<Call>
    requires i < |calls|
  {
    calls[i := calls[i].(phase := phase)]
  }

  /** Whether the coordinator lets the caller yield its own slot. */
  predicate MayYield(s: State, p: Process) {
    && p > 0 && p - 1 in s.active
    && (s.active[p - 1].owner == p || s.active[p - 1].child == Some(p))
  }

  function YieldCall(tree: Tree, i: nat): Tree
    requires i < |tree.calls|
  {
    var (s, calls, p) := (tree.coordinator, tree.calls, tree.calls[i].caller);
    if p == 0 then tree.(calls := At(calls, i, Admitting))
    else if Yielding(calls, p) then tree.(calls := calls[i := Call(p, Admitting, true)])
    else
      tree.(coordinator := Ask(s, p, SuspendSlot(Some(p - 1))),
            calls := calls[i := if MayYield(s, p) then Call(p, Admitting, true) else Call(p, Finished, false)])
  }

  function RestoreCall(tree: Tree, i: nat): Tree
    requires i < |tree.calls|
  {
    var (s, calls, p) := (tree.coordinator, tree.calls, tree.calls[i].caller);
    var done := calls[i := Call(p, Finished, false)];
    if p == 0 || !calls[i].yielded || Yielding(done, p) then tree.(calls := done)
    else
      tree.(coordinator := Ask(s, p, ResumeSlot(Some(p - 1), tree.cap)),
            calls := calls[i := Call(p, Resuming(s.nextSocket), false)])
  }

  function Next(tree: Tree, a: Action): Tree
    requires Enabled(tree, a)
  {
    var (s, calls) := (tree.coordinator, tree.calls);
    match a
    case Begin(p) => tree.(calls := calls + [Call(p, Suspending, false)])
    case Yield(i) => YieldCall(tree, i)
    case AskSlot(i) =>
      tree.(coordinator := Ask(s, calls[i].caller, AcquireSlot(Some(i), tree.cap)),
            calls := At(calls, i, Acquiring(s.nextSocket)))
    case Confirm(i) =>
      tree.(coordinator := Apply(s, Acknowledge(calls[i].phase.socket, true)), calls := At(calls, i, Launching))
    case Refused(i) => tree.(calls := At(calls, i, if calls[i].phase.Acquiring? then Restoring else Finished))
    case GiveUp(i) => tree.(coordinator := Apply(s, Close(calls[i].phase.socket)), calls := At(calls, i, Restoring))
    case Abandon(i) =>
      tree.(coordinator := Apply(s, Acknowledge(calls[i].phase.socket, true)), calls := At(calls, i, Restoring),
            leaked := tree.leaked + {i})
    case Launch(i) =>
      tree.(coordinator := Ask(s, i + 1, RegisterLaunch(Some(i), Some(i + 1))),
            calls := At(calls, i, if i in s.active then Running else Exited))
    case LaunchFails(i) => tree.(calls := At(calls, i, Exited))
    case Exit(i) => tree.(coordinator := Apply(s, Die(i + 1)), calls := At(calls, i, Exited))
    case Free(i) =>
      tree.(coordinator := Ask(s, calls[i].caller, ReleaseSlot(Some(i))), calls := At(calls, i, Restoring))
    case Restore(i) => RestoreCall(tree, i)
    case Resumed(i) =>
      tree.(coordinator := Apply(s, Acknowledge(calls[i].phase.socket, true)), calls := At(calls, i, Finished))
    case ResumeGivesUp(i) =>
      tree.(coordinator := Apply(s, Close(calls[i].phase.socket)), calls := At(calls, i, Finished))
    case SuspendFails(i) => tree.(calls := At(calls, i, Finished))
    case SuspendReplyLost(i) =>
      var p := calls[i].caller;
      tree.(coordinator := Ask(s, p, SuspendSlot(Some(p - 1))), calls := At(calls, i, Finished))
    case AdmissionFails(i) => tree.(calls := At(calls, i, Restoring))
    case RestoreFails(i) => tree.(calls := calls[i := Call(calls[i].caller, Finished, false)])
    case ResumeReplyLost(i) =>
      tree.(coordinator := Apply(s, Acknowledge(calls[i].phase.socket, true)), calls := At(calls, i, Finished))
  }

  ghost predicate Reaches(from: Tree, actions: seq<Action>, to: Tree)
    decreases |actions|
  {
    if actions == [] then from == to
    else Enabled(from, actions[0]) && Reaches(Next(from, actions[0]), actions[1..], to)
  }

  // ---------------------------------------------------------------- termination

  function Rank(phase: Phase): nat {
    match phase
    case Suspending => 9
    case Admitting => 8
    case Acquiring(_) => 7
    case Launching => 6
    case Running => 5
    case Exited => 4
    case Restoring => 3
    case Resuming(_) => 2
    case Finished => 0
  }

  function TotalRank(calls: seq<Call>): nat {
    if calls == [] then 0 else TotalRank(calls[..|calls| - 1]) + Rank(calls[|calls| - 1].phase)
  }

  function Measure(tree: Tree): int {
    10 * (tree.limit - |tree.calls|) + TotalRank(tree.calls)
  }

  lemma {:induction false} UpdateRank(calls: seq<Call>, i: nat, call: Call)
    requires i < |calls|
    ensures TotalRank(calls[i := call]) == TotalRank(calls) - Rank(calls[i].phase) + Rank(call.phase)
    decreases |calls|
  {
    var last := |calls| - 1;
    if i == last {
      assert calls[i := call][..last] == calls[..last];
    } else {
      assert calls[i := call][..last] == calls[..last][i := call];
      UpdateRank(calls[..last], i, call);
    }
  }

  /** Every step, surrendering or not, uses up part of a bounded budget. */
  lemma StepDecreases(tree: Tree, a: Action)
    requires Enabled(tree, a)
    ensures Measure(Next(tree, a)) < Measure(tree)
    ensures Next(tree, a).limit == tree.limit
    ensures |tree.calls| <= tree.limit ==> |Next(tree, a).calls| <= tree.limit
  {
    hide Ask, Apply;
    if a.Begin? {
      var more := tree.calls + [Call(a.caller, Suspending, false)];
      assert more[..|more| - 1] == tree.calls;
    } else {
      var after := Next(tree, a);
      assert after.calls == tree.calls[a.call := after.calls[a.call]];
      UpdateRank(tree.calls, a.call, after.calls[a.call]);
    }
  }

  /** No run of the tree is longer than ten steps for each call it may number. */
  lemma {:induction false} RunsAreBounded(from: Tree, actions: seq<Action>, to: Tree)
    requires Reaches(from, actions, to) && |from.calls| <= from.limit
    ensures |actions| <= Measure(from) - Measure(to) && 0 <= Measure(to)
    decreases |actions|
  {
    if actions != [] {
      StepDecreases(from, actions[0]);
      RunsAreBounded(Next(from, actions[0]), actions[1..], to);
    }
  }

  // ---------------------------------------------------------------- the invariant

  predicate Started(phase: Phase) {
    phase.Running? || Ended(phase)
  }

  predicate Ended(phase: Phase) {
    phase.Exited? || phase.Restoring? || phase.Resuming? || phase.Finished?
  }

  /** Between yielding the caller's slot and asking for it back. */
  predicate Delegated(phase: Phase) {
    phase.Admitting? || phase.Acquiring? || phase.Launching? || phase.Running? || phase.Exited? || phase.Restoring?
  }

  predicate InFlight(phase: Phase, x: Socket) {
    phase == Acquiring(x) || phase == Resuming(x)
  }

  predicate AtRest(phase: Phase) {
    !phase.Acquiring? && !phase.Resuming?
  }

  /** A call belongs to an earlier call's child, which runs until all its calls are done. */
  ghost predicate Nested(calls: seq<Call>) {
    forall i | 0 <= i < |calls| ::
      && calls[i].caller <= i
      && (calls[i].caller > 0 ==> Started(calls[calls[i].caller - 1].phase))
      && (calls[i].caller > 0 && !calls[i].phase.Finished? ==> calls[calls[i].caller - 1].phase.Running?)
  }

  ghost predicate Yields(calls: seq<Call>) {
    forall i | 0 <= i < |calls| :: calls[i].yielded <==> Delegated(calls[i].phase) && calls[i].caller > 0
  }

  /** While a caller resumes, none of its calls is delegated, and it resumes only once. */
  ghost predicate Resumes(calls: seq<Call>) {
    && (forall i | 0 <= i < |calls| && calls[i].phase.Resuming? ::
          calls[i].caller > 0 && !Yielding(calls, calls[i].caller))
    && (forall i, j | 0 <= i < j < |calls| && calls[i].phase.Resuming? && calls[j].phase.Resuming? ::
          calls[i].caller != calls[j].caller)
  }

  ghost predicate SocketsDistinct(calls: seq<Call>, next: Socket) {
    && (forall i, x: Socket | 0 <= i < |calls| && InFlight(calls[i].phase, x) :: x < next)
    && (forall i, j, x: Socket | 0 <= i < j < |calls| && InFlight(calls[i].phase, x) :: !InFlight(calls[j].phase, x))
  }

  ghost predicate CallsSound(calls: seq<Call>, next: Socket) {
    Nested(calls) && Yields(calls) && Resumes(calls) && SocketsDistinct(calls, next)
  }

  /** A queued request belongs to the call that is waiting for it. */
  ghost predicate Waits(calls: seq<Call>, q: Queued) {
    && q.token.Some? && q.token.value < |calls|
    && if q.resume then
         && q.pid == q.token.value + 1
         && exists d | 0 <= d < |calls| :: calls[d].phase == Resuming(q.socket) && calls[d].caller == q.pid
       else calls[q.token.value].phase == Acquiring(q.socket) && calls[q.token.value].caller == q.pid
  }

  /** An active slot is leaked, or its user can move: it does not wait for a child. */
  ghost predicate Justified(s: State, calls: seq<Call>, leaked: set<Token>, t: Token)
    requires t in s.active
  {
    && t < |calls|
    && (t in leaked ||
        match calls[t].phase
        case Acquiring(x) =>
          && x in s.grants && s.grants[x].token == t && !s.grants[x].acknowledged
          && s.active[t].id == s.grants[x].slotId
        case Launching => true
        case Exited => true
        case Running => !Yielding(calls, t + 1)
        case _ => false)
  }

  ghost predicate Fits(s: State, calls: seq<Call>, leaked: set<Token>) {
    && SlotCustody.SocketsApart(s)
    && (forall i | 0 <= i < |s.queue| ::
          && Waits(calls, s.queue[i]) && s.queue[i].pid !in s.dead
          && (s.queue[i].resume ==> s.queue[i].token.value !in s.active))
    && (forall t <- s.active :: Justified(s, calls, leaked, t))
  }

  ghost predicate SomeExited(calls: seq<Call>) {
    exists i | 0 <= i < |calls| :: calls[i].phase.Exited?
  }

  /** A child that has exited without its slot being released settles the queue when it is. */
  ghost predicate Settled(s: State, calls: seq<Call>) {
    (ActiveSlotsLive(s) && NeverIdle(s)) || SomeExited(calls)
  }

  ghost predicate DeadEnded(dead: set<Process>, calls: seq<Call>) {
    forall p <- dead :: 0 < p <= |calls| && Ended(calls[p - 1].phase)
  }

  predicate Abandoned(phase: Phase) {
    phase.Restoring? || phase.Resuming? || phase.Finished?
  }

  /** Only a call that has given up on its token can have leaked it. */
  ghost predicate LeaksAbandoned(calls: seq<Call>, leaked: set<Token>) {
    forall t <- leaked :: t < |calls| && Abandoned(calls[t].phase)
  }

  ghost predicate OpenSockets(s: State, calls: seq<Call>) {
    && (forall x <- s.destroyed :: x < s.nextSocket)
    && (forall i, x: Socket | 0 <= i < |calls| && InFlight(calls[i].phase, x) :: x !in s.destroyed)
  }

  ghost predicate Configured(s: State, cap: int) {
    && s.status.Active? && WithinCap(s) && ExactPositive(cap)
    && (s.maximum.Some? ==> s.maximum.value == cap)
  }

  ghost predicate Consistent(tree: Tree) {
    var s := tree.coordinator;
    && Configured(s, tree.cap) && CallsSound(tree.calls, s.nextSocket) && DeadEnded(s.dead, tree.calls)
    && LeaksAbandoned(tree.calls, tree.leaked) && OpenSockets(s, tree.calls) && Fits(s, tree.calls, tree.leaked)
    && Settled(s, tree.calls)
  }

  // ---------------------------------------------------------------- progress

  /** A step of a call that already exists, and no surrender. */
  predicate Advances(tree: Tree, a: Action) {
    Enabled(tree, a) && !Surrenders(a) && !a.Begin?
  }

  lemma CallerAlive(tree: Tree, i: nat)
    requires Consistent(tree) && i < |tree.calls| && !tree.calls[i].phase.Finished?
    ensures tree.calls[i].caller !in tree.coordinator.dead
  {
  }

  /** The user of an active slot that is not leaked always has a step to take, for itself or a call of its own. */
  lemma ActiveUserMoves(tree: Tree, t: Token) returns (a: Action)
    requires Consistent(tree) && t in tree.coordinator.active && t !in tree.leaked
    ensures Advances(tree, a) && (a.call == t || tree.calls[a.call].caller == t + 1)
  {
    hide Settled, Configured, LeaksAbandoned, DeadEnded, MayYield, Waits, Resumes, Nested;
    var calls := tree.calls;
    assert Justified(tree.coordinator, calls, tree.leaked, t);
    match calls[t].phase
    case Acquiring(x) =>
      assert InFlight(calls[t].phase, x);
      a := Confirm(t);
    case Launching => a := Launch(t);
    case Exited => a := Free(t);
    case Running =>
      if CallsDone(calls, t + 1) {
        a := Exit(t);
      } else {
        var i :| 0 <= i < |calls| && calls[i].caller == t + 1 && !calls[i].phase.Finished?;
        a := IdleCallerMoves(tree, t, i);
      }
  }

  /** A process that has yielded nothing is not waiting for a child. */
  lemma IdleCallerMoves(tree: Tree, t: Token, i: nat) returns (a: Action)
    requires Consistent(tree) && t in tree.coordinator.active && !Yielding(tree.calls, t + 1)
    requires i < |tree.calls| && tree.calls[i].caller == t + 1 && !tree.calls[i].phase.Finished?
    ensures Advances(tree, a) && tree.calls[a.call].caller == t + 1
  {
    var calls := tree.calls;
    assert !calls[i].yielded;
    if j: nat :| j < |calls| && calls[j].caller == t + 1 && calls[j].phase.Resuming? {
      a := ResumerMoves(tree, j);
    } else {
      assert calls[i].phase.Suspending?;
      a := Yield(i);
    }
  }

  /** A resume whose token is active again is not in the queue. */
  lemma ResumerNotQueued(s: State, calls: seq<Call>, leaked: set<Token>, j: nat)
    requires CallsSound(calls, s.nextSocket) && Fits(s, calls, leaked) && j < |calls| && calls[j].phase.Resuming?
    requires calls[j].caller - 1 in s.active || s.queue == []
    ensures !Waiting(s, calls[j].phase.socket)
  {
    var x := calls[j].phase.socket;
    assert InFlight(calls[j].phase, x);
    forall k | 0 <= k < |s.queue| ensures s.queue[k].socket != x {
      var q := s.queue[k];
      assert Waits(calls, q);
      if q.resume {
        var d: nat :| d < |calls| && calls[d].phase == Resuming(q.socket) && calls[d].caller == q.pid;
        assert InFlight(calls[d].phase, q.socket);
      } else {
        assert InFlight(calls[q.token.value].phase, q.socket);
      }
    }
  }

  /** A resume whose slot is already active has been granted, or it has been refused. */
  lemma ResumerMoves(tree: Tree, j: nat) returns (a: Action)
    requires Consistent(tree) && j < |tree.calls| && tree.calls[j].phase.Resuming?
    requires tree.calls[j].caller - 1 in tree.coordinator.active || tree.coordinator.queue == []
    ensures Advances(tree, a) && a.call == j
  {
    var x := tree.calls[j].phase.socket;
    assert InFlight(tree.calls[j].phase, x);
    ResumerNotQueued(tree.coordinator, tree.calls, tree.leaked, j);
    a := if x in tree.coordinator.grants then Resumed(j) else Refused(j);
  }

  ghost predicate Unfinished(calls: seq<Call>) {
    exists i | 0 <= i < |calls| :: !calls[i].phase.Finished?
  }

  /** With nothing queued, the latest unfinished call can always move, or a resume its caller waits for. */
  lemma LatestMoves(tree: Tree, i: nat) returns (a: Action)
    requires Consistent(tree) && tree.coordinator.queue == []
    requires i < |tree.calls| && !tree.calls[i].phase.Finished?
    requires forall j | i < j < |tree.calls| :: tree.calls[j].phase.Finished?
    ensures Advances(tree, a) && tree.calls[a.call].caller == tree.calls[i].caller
  {
    hide Fits, Settled, Configured, LeaksAbandoned, DeadEnded, MayYield, Resumes;
    var calls := tree.calls;
    match calls[i].phase
    case Suspending => a := TakeTurn(tree, i, Yield(i));
    case Admitting => a := AskSlot(i);
    case Acquiring(x) =>
      assert InFlight(calls[i].phase, x);
      a := if x in tree.coordinator.grants then Confirm(i) else Refused(i);
    case Launching => a := Launch(i);
    case Running =>
      forall j | 0 <= j < |calls| && calls[j].caller == i + 1 ensures calls[j].phase.Finished? {
        assert calls[j].caller <= j;
      }
      a := Exit(i);
    case Exited => a := Free(i);
    case Restoring => a := TakeTurn(tree, i, Restore(i));
    case Resuming(x) => a := ResumerMoves(tree, i);
  }

  /** Either the caller's turn is free, or the resume that holds it can move. */
  lemma TakeTurn(tree: Tree, i: nat, wanted: Action) returns (a: Action)
    requires Consistent(tree) && tree.coordinator.queue == [] && i < |tree.calls|
    requires Turn(tree.calls, tree.calls[i].caller) ==> Enabled(tree, wanted)
    requires !Surrenders(wanted) && !wanted.Begin? && wanted.call == i
    ensures Advances(tree, a) && tree.calls[a.call].caller == tree.calls[i].caller
  {
    if Turn(tree.calls, tree.calls[i].caller) {
      a := wanted;
    } else {
      var j: nat :| j < |tree.calls| && tree.calls[j].caller == tree.calls[i].caller && tree.calls[j].phase.Resuming?;
      a := ResumerMoves(tree, j);
    }
  }

  lemma LatestUnfinished(calls: seq<Call>) returns (i: nat)
    requires Unfinished(calls)
    ensures i < |calls| && !calls[i].phase.Finished?
    ensures forall j | i < j < |calls| :: calls[j].phase.Finished?
  {
    i := |calls| - 1;
    while calls[i].phase.Finished?
      invariant i < |calls|
      invariant forall j | i < j < |calls| :: calls[j].phase.Finished?
      decreases i
    {
      var k :| 0 <= k < |calls| && !calls[k].phase.Finished?;
      assert k < i;
      i := i - 1;
    }
  }

  /** Fewer leaked tokens than slots: whoever is unfinished, someone can move. */
  lemma SomeoneMoves(tree: Tree) returns (a: Action)
    requires Consistent(tree) && Unfinished(tree.calls)
    requires !(tree.coordinator.active.Keys <= tree.leaked) || tree.coordinator.queue == []
             || |tree.coordinator.active| < tree.cap
    ensures Advances(tree, a)
  {
    var s := tree.coordinator;
    if i: nat :| i < |tree.calls| && tree.calls[i].phase.Exited? {
      a := Free(i);
    } else if s.queue == [] {
      var i := LatestUnfinished(tree.calls);
      a := LatestMoves(tree, i);
    } else {
      assert NeverIdle(s) && |s.active| == tree.cap;
      var t :| t in s.active && t !in tree.leaked;
      a := ActiveUserMoves(tree, t);
    }
  }

  // ---------------------------------------------------------------- keeping the invariant

  /** Two waiting requests never want the same token when one of them resumes it. */
  lemma ResumesApart(calls: seq<Call>, next: Socket, q: Queued, r: Queued)
    requires CallsSound(calls, next) && Waits(calls, q) && Waits(calls, r)
    requires q.socket != r.socket && r.resume
    ensures q.token != r.token
  {
    var d: nat :| d < |calls| && calls[d].phase == Resuming(r.socket) && calls[d].caller == r.pid;
    assert calls[r.token.value].phase.Running?;
    if q.resume {
      var e: nat :| e < |calls| && calls[e].phase == Resuming(q.socket) && calls[e].caller == q.pid;
      assert d != e && calls[d].caller != calls[e].caller;
    }
  }

  lemma GrantedIsJustified(s: State, calls: seq<Call>, leaked: set<Token>, q: Queued)
    requires CallsSound(calls, s.nextSocket) && Waits(calls, q)
    ensures var r := GrantSlot(s, q.socket, q.pid, q.token, q.resume);
            r.Ok? ==> Justified(r.value, calls, leaked, q.token.value)
  {
    if q.resume {
      var d: nat :| d < |calls| && calls[d].phase == Resuming(q.socket) && calls[d].caller == q.pid;
    }
  }

  lemma GrantKeepsOthers(s: State, calls: seq<Call>, leaked: set<Token>, q: Queued, t: Token)
    requires q.socket !in s.grants && t in s.active && Justified(s, calls, leaked, t)
    ensures var r := GrantSlot(s, q.socket, q.pid, q.token, q.resume);
            r.Ok? ==> t in r.value.active && Justified(r.value, calls, leaked, t)
  {
  }

  lemma GrantFits(s: State, calls: seq<Call>, leaked: set<Token>, q: Queued)
    requires CallsSound(calls, s.nextSocket) && Fits(s, calls, leaked) && Waits(calls, q) && q.pid !in s.dead
    requires q.socket < s.nextSocket && q.socket !in s.grants
    requires forall i | 0 <= i < |s.queue| :: s.queue[i].socket != q.socket
    ensures var r := GrantSlot(s, q.socket, q.pid, q.token, q.resume);
            r.Ok? ==> && Fits(r.value, calls, leaked) && (ActiveSlotsLive(s) ==> ActiveSlotsLive(r.value))
                      && r.value.queue == s.queue && r.value.nextSocket == s.nextSocket && r.value.dead == s.dead
                      && r.value.status == s.status && r.value.destroyed == s.destroyed
  {
    hide CallsSound;
    var r := GrantSlot(s, q.socket, q.pid, q.token, q.resume);
    if r.Ok? {
      GrantedIsJustified(s, calls, leaked, q);
      forall t <- r.value.active ensures Justified(r.value, calls, leaked, t) {
        if t != q.token.value {
          GrantKeepsOthers(s, calls, leaked, q, t);
        }
      }
      forall i | 0 <= i < |s.queue| && s.queue[i].resume ensures s.queue[i].token.value !in r.value.active {
        assert Waits(calls, s.queue[i]);
        ResumesApart(calls, s.nextSocket, q, s.queue[i]);
      }
    }
  }

  lemma FewerFit(s: State, calls: seq<Call>, leaked: set<Token>, s': State)
    requires Fits(s, calls, leaked)
    requires s'.active.Keys <= s.active.Keys && forall t <- s'.active :: s'.active[t].id == s.active[t].id
    requires s'.queue == s.queue && s'.grants == s.grants && s'.dead == s.dead && s'.nextSocket >= s.nextSocket
    ensures Fits(s', calls, leaked)
  {
    forall t <- s'.active ensures Justified(s', calls, leaked, t) {
      assert Justified(s, calls, leaked, t);
    }
  }

  lemma PopFits(s: State, calls: seq<Call>, leaked: set<Token>)
    requires Fits(s, calls, leaked) && s.queue != []
    ensures var rest := s.(queue := s.queue[1..]);
            && Fits(rest, calls, leaked)
            && (forall i | 0 <= i < |rest.queue| :: rest.queue[i].socket != s.queue[0].socket)
  {
    var rest := s.(queue := s.queue[1..]);
    assert forall i | 0 <= i < |rest.queue| :: rest.queue[i] == s.queue[i + 1];
    forall t <- rest.active ensures Justified(rest, calls, leaked, t) {
      assert Justified(s, calls, leaked, t);
    }
  }

  lemma HeadWaits(s: State, calls: seq<Call>, leaked: set<Token>)
    requires Fits(s, calls, leaked) && s.queue != []
    ensures Waits(calls, s.queue[0]) && s.queue[0].pid !in s.dead
    ensures s.queue[0].socket < s.nextSocket && s.queue[0].socket !in s.grants
  {
  }

  lemma {:induction false} DrainLoopFits(s: State, calls: seq<Call>, leaked: set<Token>)
    requires s.maximum.Some? && CallsSound(calls, s.nextSocket) && Fits(s, calls, leaked) && ActiveSlotsLive(s)
    ensures var r := DrainLoop(s);
            && Fits(r, calls, leaked) && ActiveSlotsLive(r) && r.nextSocket == s.nextSocket && r.dead == s.dead
            && r.destroyed == s.destroyed
    decreases |s.queue|
  {
    hide Fits, CallsSound, GrantSlot, ActiveSlotsLive;
    if |s.active| < s.maximum.value && s.queue != [] {
      var head := s.queue[0];
      var rest := s.(queue := s.queue[1..]);
      HeadWaits(s, calls, leaked);
      PopFits(s, calls, leaked);
      assert ActiveSlotsLive(rest) by { SameLive(s, rest); }
      GrantFits(rest, calls, leaked, head);
      GrantGrowsByOne(rest, head.socket, head.pid, head.token, head.resume);
      if head.socket in rest.destroyed {
        DrainLoopFits(rest, calls, leaked);
      } else {
        match GrantSlot(rest, head.socket, head.pid, head.token, head.resume)
        case Ok(granted) => DrainLoopFits(granted, calls, leaked);
        case Err(code) =>
          var refused := Respond(rest, head.socket, Failed(code));
          FewerFit(rest, calls, leaked, refused);
          SameLive(rest, refused);
          DrainLoopFits(refused, calls, leaked);
      }
    }
  }

  lemma SameLive(s: State, s': State)
    requires ActiveSlotsLive(s) && s'.active == s.active && s'.dead == s.dead
    ensures ActiveSlotsLive(s')
  {
  }

  lemma PruneFits(s: State, calls: seq<Call>, leaked: set<Token>)
    requires Fits(s, calls, leaked)
    ensures Fits(PruneDeadSlots(s), calls, leaked) && ActiveSlotsLive(PruneDeadSlots(s))
  {
    FewerFit(s, calls, leaked, PruneDeadSlots(s));
  }

  /** Draining settles the coordinator: every slot lives and none is idle while requests wait. */
  lemma DrainFits(s: State, calls: seq<Call>, leaked: set<Token>, cap: int)
    requires Configured(s, cap) && CallsSound(calls, s.nextSocket) && Fits(s, calls, leaked)
    ensures var r := DrainQueue(s);
            && Configured(r, cap) && Fits(r, calls, leaked) && ActiveSlotsLive(r) && NeverIdle(r)
            && r.nextSocket == s.nextSocket && r.dead == s.dead && r.destroyed == s.destroyed
  {
    DrainWithinCap(s);
    hide Fits, CallsSound, DrainLoop;
    if s.maximum.Some? {
      PruneFits(s, calls, leaked);
      DrainLoopFits(PruneDeadSlots(s), calls, leaked);
    } else {
      assert s.active == map[];
    }
  }

  // ---------------------------------------------------------------- one call changes

  /** How a step may change one call. */
  ghost predicate MayBecome(calls: seq<Call>, next: Socket, i: nat, call: Call)
    requires i < |calls|
  {
    var was := calls[i];
    && call.caller == was.caller && !was.phase.Finished?
    && (Started(was.phase) ==> Started(call.phase))
    && (was.phase.Running? ==> Started(call.phase) && CallsDone(calls, i + 1))
    && (call.yielded <==> Delegated(call.phase) && call.caller > 0)
    && (call.yielded && !was.yielded ==> Turn(calls, call.caller))
    && (call.phase.Resuming? ==>
          call.caller > 0 && Turn(calls, call.caller) && !Yielding(calls[i := call], call.caller))
    && (forall x: Socket | InFlight(call.phase, x) :: x == next)
  }

  lemma BecomeNested(calls: seq<Call>, next: Socket, i: nat, call: Call)
    requires CallsSound(calls, next) && i < |calls| && MayBecome(calls, next, i, call)
    ensures Nested(calls[i := call]) && Yields(calls[i := call]) && SocketsDistinct(calls[i := call], next + 1)
    ensures AtRest(call.phase) ==> SocketsDistinct(calls[i := call], next)
  {
    var after := calls[i := call];
    forall j, k, x: Socket | 0 <= j < k < |after| && InFlight(after[j].phase, x) ensures !InFlight(after[k].phase, x) {
      if k == i {
        assert InFlight(calls[j].phase, x);
      } else if j != i {
        assert !InFlight(calls[k].phase, x);
      } else {
        assert InFlight(calls[k].phase, x) ==> x < next;
      }
    }
  }

  lemma BecomeResumes(calls: seq<Call>, next: Socket, i: nat, call: Call)
    requires CallsSound(calls, next) && i < |calls| && MayBecome(calls, next, i, call)
    ensures Resumes(calls[i := call])
  {
    var after := calls[i := call];
    forall j | 0 <= j < |after| && after[j].phase.Resuming?
      ensures after[j].caller > 0 && !Yielding(after, after[j].caller)
    {
      assert j != i ==> !Yielding(calls, calls[j].caller);
    }
  }

  lemma BecomeSound(calls: seq<Call>, next: Socket, i: nat, call: Call)
    requires CallsSound(calls, next) && i < |calls| && MayBecome(calls, next, i, call)
    ensures CallsSound(calls[i := call], next + 1)
    ensures AtRest(call.phase) ==> CallsSound(calls[i := call], next)
  {
    BecomeNested(calls, next, i, call);
    BecomeResumes(calls, next, i, call);
  }

  /** The coordinator still fits when the changed call's own slot and request are in order. */
  lemma BecomeFits(s: State, calls: seq<Call>, leaked: set<Token>, i: nat, call: Call, leaked': set<Token>)
    requires Fits(s, calls, leaked) && i < |calls| && call.caller == calls[i].caller && leaked <= leaked'
    requires forall x: Socket | InFlight(calls[i].phase, x) :: !Waiting(s, x)
    requires i in s.active ==> Justified(s, calls[i := call], leaked', i)
    requires call.yielded && !calls[i].yielded ==> call.caller - 1 !in s.active || Yielding(calls, call.caller)
    ensures Fits(s, calls[i := call], leaked')
  {
    var after := calls[i := call];
    forall t <- s.active ensures Justified(s, after, leaked', t) {
      if t != i {
        assert Justified(s, calls, leaked, t);
      }
    }
    forall k | 0 <= k < |s.queue| ensures Waits(after, s.queue[k]) {
      var q := s.queue[k];
      assert Waits(calls, q) && Waiting(s, q.socket);
      if q.resume {
        var d: nat :| d < |calls| && calls[d].phase == Resuming(q.socket) && calls[d].caller == q.pid;
        assert InFlight(calls[d].phase, q.socket);
        assert after[d] == calls[d];
      } else {
        assert InFlight(calls[q.token.value].phase, q.socket);
      }
    }
  }

  // ---------------------------------------------------------------- requests

  function Received(s: State): State {
    s.(nextSocket := s.nextSocket + 1)
  }

  lemma CoordinatorActive(tree: Tree)
    requires Consistent(tree)
    ensures tree.coordinator.status.Active?
  {
  }

  lemma AskPerforms(s: State, pid: Process, operation: Operation)
    requires s.status.Active? && pid !in s.dead
    ensures Ask(s, pid, operation) == Perform(Received(s), s.nextSocket, pid, operation)
  {
    hide Perform;
  }

  lemma EnqueueFits(s: State, calls: seq<Call>, leaked: set<Token>, q: Queued)
    requires Fits(s, calls, leaked) && Waits(calls, q) && q.pid !in s.dead
    requires q.socket < s.nextSocket && q.socket !in s.grants
    requires forall i | 0 <= i < |s.queue| :: s.queue[i].socket != q.socket
    requires q.resume ==> q.token.value !in s.active
    ensures Fits(s.(queue := s.queue + [q]), calls, leaked)
  {
    forall t <- s.active ensures Justified(s.(queue := s.queue + [q]), calls, leaked, t) {
      assert Justified(s, calls, leaked, t);
    }
  }

  lemma AdmitBoundFits(s: State, calls: seq<Call>, leaked: set<Token>, q: Queued, cap: int)
    requires CallsSound(calls, s.nextSocket) && Fits(s, calls, leaked)
    requires Waits(calls, q) && q.pid !in s.dead && q.socket < s.nextSocket && q.socket !in s.grants
    requires forall i | 0 <= i < |s.queue| :: s.queue[i].socket != q.socket
    requires q.resume ==> q.token.value !in s.active
    ensures var r := AdmitBound(s, q.socket, q.pid, q.token, cap, q.resume);
            && Fits(r, calls, leaked) && r.nextSocket == s.nextSocket && r.dead == s.dead
            && r.maximum == s.maximum && r.status == s.status && r.destroyed == s.destroyed
            && (ActiveSlotsLive(s) ==> ActiveSlotsLive(r))
            && (s.maximum == Some(cap) && |s.active| <= cap && (s.queue != [] ==> |s.active| == cap) ==> NeverIdle(r))
  {
    hide Fits, CallsSound, GrantSlot;
    GrantFits(s, calls, leaked, q);
    GrantGrowsByOne(s, q.socket, q.pid, q.token, q.resume);
    EnqueueFits(s, calls, leaked, q);
    match GrantSlot(s, q.socket, q.pid, q.token, q.resume)
    case Ok(granted) =>
    case Err(code) => FewerFit(s, calls, leaked, Respond(s, q.socket, Failed(code)));
  }

  lemma AdmitFits(s: State, calls: seq<Call>, leaked: set<Token>, q: Queued, cap: int)
    requires Configured(s, cap) && CallsSound(calls, s.nextSocket) && Fits(s, calls, leaked)
    requires Waits(calls, q) && q.pid !in s.dead && q.socket < s.nextSocket && q.socket !in s.grants
    requires forall i | 0 <= i < |s.queue| :: s.queue[i].socket != q.socket
    requires q.resume ==> q.token.value !in s.active
    ensures var r := Admit(s, q.socket, q.pid, q.token, cap, q.resume);
            && Configured(r, cap) && Fits(r, calls, leaked) && r.nextSocket == s.nextSocket && r.dead == s.dead
            && r.destroyed == s.destroyed
            && (Settled(s, calls) ==> Settled(r, calls))
  {
    hide Fits, CallsSound, AdmitBound;
    AdmitWithinCap(s, q.socket, q.pid, q.token, cap, q.resume);
    var bound := BindMaximum(s, cap).0;
    var pruned := PruneDeadSlots(bound);
    FewerFit(s, calls, leaked, bound);
    PruneFits(bound, calls, leaked);
    AdmitBoundFits(pruned, calls, leaked, q, cap);
    if ActiveSlotsLive(s) {
      PruneKeepsLive(bound);
    }
  }

  lemma FreshFits(s: State, calls: seq<Call>, leaked: set<Token>)
    requires Fits(s, calls, leaked)
    ensures Fits(Received(s), calls, leaked)
    ensures s.nextSocket !in s.grants && !Waiting(s, s.nextSocket)
  {
    FewerFit(s, calls, leaked, Received(s));
  }

  lemma ExitedStays(calls: seq<Call>, i: nat, call: Call)
    requires i < |calls| && !calls[i].phase.Exited?
    ensures SomeExited(calls) ==> SomeExited(calls[i := call])
  {
    if j: nat :| j < |calls| && calls[j].phase.Exited? {
      assert calls[i := call][j].phase.Exited?;
    }
  }

  lemma SettledStays(s: State, calls: seq<Call>, i: nat, call: Call)
    requires Settled(s, calls) && i < |calls| && !calls[i].phase.Exited?
    ensures Settled(s, calls[i := call]) && Settled(Received(s), calls[i := call])
  {
    ExitedStays(calls, i, call);
  }

  // ---------------------------------------------------------------- the steps

  lemma AppendResumes(calls: seq<Call>, p: Process)
    requires Resumes(calls)
    ensures Resumes(calls + [Call(p, Suspending, false)])
  {
    var more := calls + [Call(p, Suspending, false)];
    forall i | 0 <= i < |more| && more[i].phase.Resuming? ensures !Yielding(more, more[i].caller) {
      assert !Yielding(calls, calls[i].caller);
    }
  }

  lemma AppendSockets(calls: seq<Call>, next: Socket, p: Process)
    requires SocketsDistinct(calls, next)
    ensures SocketsDistinct(calls + [Call(p, Suspending, false)], next)
  {
    var more := calls + [Call(p, Suspending, false)];
    forall i, j, x: Socket | 0 <= i < j < |more| && InFlight(more[i].phase, x) ensures !InFlight(more[j].phase, x) {
      assert InFlight(calls[i].phase, x);
    }
  }

  lemma AppendSound(calls: seq<Call>, next: Socket, p: Process)
    requires CallsSound(calls, next) && Working(calls, p)
    ensures CallsSound(calls + [Call(p, Suspending, false)], next)
  {
    hide Resumes, SocketsDistinct;
    AppendResumes(calls, p);
    AppendSockets(calls, next, p);
  }

  lemma AppendFits(s: State, calls: seq<Call>, leaked: set<Token>, p: Process)
    requires Fits(s, calls, leaked)
    ensures Fits(s, calls + [Call(p, Suspending, false)], leaked)
  {
    var more := calls + [Call(p, Suspending, false)];
    forall t <- s.active ensures Justified(s, more, leaked, t) {
      assert Justified(s, calls, leaked, t);
    }
    forall k | 0 <= k < |s.queue| ensures Waits(more, s.queue[k]) {
      assert Waits(calls, s.queue[k]);
      if s.queue[k].resume {
        var d: nat :| d < |calls| && calls[d].phase == Resuming(s.queue[k].socket) && calls[d].caller == s.queue[k].pid;
        assert more[d] == calls[d];
      }
    }
  }

  lemma BeginKeeps(tree: Tree, p: Process)
    requires Consistent(tree) && Enabled(tree, Begin(p))
    ensures Consistent(Next(tree, Begin(p)))
  {
    var (s, calls) := (tree.coordinator, tree.calls);
    AppendSound(calls, s.nextSocket, p);
    AppendFits(s, calls, tree.leaked, p);
    hide CallsSound, Fits;
    if j: nat :| j < |calls| && calls[j].phase.Exited? {
      assert (calls + [Call(p, Suspending, false)])[j].phase.Exited?;
    }
  }

  /** The call's own books, under one change: who is dead, what leaked, which sockets are open. */
  lemma BooksStay(s: State, calls: seq<Call>, leaked: set<Token>, i: nat, call: Call)
    requires DeadEnded(s.dead, calls) && LeaksAbandoned(calls, leaked) && OpenSockets(s, calls) && i < |calls|
    requires Ended(calls[i].phase) ==> Ended(call.phase)
    requires Abandoned(calls[i].phase) ==> Abandoned(call.phase)
    requires forall x: Socket | InFlight(call.phase, x) :: x == s.nextSocket
    ensures DeadEnded(s.dead, calls[i := call]) && LeaksAbandoned(calls[i := call], leaked)
    ensures OpenSockets(Received(s), calls[i := call])
    ensures AtRest(call.phase) ==> OpenSockets(s, calls[i := call])
  {
    var after := calls[i := call];
    forall j, x: Socket | 0 <= j < |after| && InFlight(after[j].phase, x) ensures x !in s.destroyed {
      assert j != i ==> InFlight(calls[j].phase, x);
    }
  }

  lemma NotYetActive(tree: Tree, i: nat)
    requires Consistent(tree) && i < |tree.calls|
    requires tree.calls[i].phase.Suspending? || tree.calls[i].phase.Admitting?
    ensures i !in tree.coordinator.active
  {
    var s := tree.coordinator;
    assert i in s.active ==> Justified(s, tree.calls, tree.leaked, i);
  }

  lemma AskSlotReady(tree: Tree, i: nat)
    requires Consistent(tree) && Enabled(tree, AskSlot(i))
    ensures var (s, calls) := (tree.coordinator, tree.calls);
            && i !in s.active && calls[i].caller !in s.dead
            && MayBecome(calls, s.nextSocket, i, calls[i].(phase := Acquiring(s.nextSocket)))
  {
    NotYetActive(tree, i);
  }

  lemma AskSlotKeeps(tree: Tree, i: nat)
    requires Consistent(tree) && Enabled(tree, AskSlot(i))
    ensures Consistent(Next(tree, AskSlot(i)))
  {
    AskSlotReady(tree, i);
    hide CallsSound, Fits, Admit, Ask, Settled, MayBecome, OpenSockets;
    var (s, calls, p) := (tree.coordinator, tree.calls, tree.calls[i].caller);
    var call := calls[i].(phase := Acquiring(s.nextSocket));
    AskPerforms(s, p, AcquireSlot(Some(i), tree.cap));
    FreshFits(s, calls, tree.leaked);
    BecomeSound(calls, s.nextSocket, i, call);
    BecomeFits(Received(s), calls, tree.leaked, i, call, tree.leaked);
    SettledStays(s, calls, i, call);
    BooksStay(s, calls, tree.leaked, i, call);
    AdmitFits(Received(s), calls[i := call], tree.leaked, Queued(s.nextSocket, p, Some(i), false), tree.cap);
    assert OpenSockets(Next(tree, AskSlot(i)).coordinator, calls[i := call]) by {
      SameOpen(Received(s), Next(tree, AskSlot(i)).coordinator, calls[i := call]);
    }
  }

  lemma SameOpen(s: State, s': State, calls: seq<Call>)
    requires OpenSockets(s, calls) && s'.destroyed == s.destroyed && s'.nextSocket == s.nextSocket
    ensures OpenSockets(s', calls)
  {
  }

  /** A call that moves without the coordinator. */
  lemma LocalKeeps(tree: Tree, i: nat, call: Call)
    requires Consistent(tree) && i < |tree.calls| && AtRest(call.phase) && !tree.calls[i].phase.Exited?
    requires MayBecome(tree.calls, tree.coordinator.nextSocket, i, call)
    requires Ended(tree.calls[i].phase) ==> Ended(call.phase)
    requires Abandoned(tree.calls[i].phase) ==> Abandoned(call.phase)
    requires forall x: Socket | InFlight(tree.calls[i].phase, x) :: !Waiting(tree.coordinator, x)
    requires i in tree.coordinator.active ==> Justified(tree.coordinator, tree.calls[i := call], tree.leaked, i)
    requires call.yielded && !tree.calls[i].yielded ==> Yielding(tree.calls, call.caller)
    ensures Consistent(tree.(calls := tree.calls[i := call]))
  {
    var (s, calls) := (tree.coordinator, tree.calls);
    assert call.caller == calls[i].caller;
    assert forall x: Socket | InFlight(call.phase, x) :: x == s.nextSocket;
    hide CallsSound, Fits, Settled, MayBecome, OpenSockets;
    BecomeSound(calls, s.nextSocket, i, call);
    BecomeFits(s, calls, tree.leaked, i, call, tree.leaked);
    SettledStays(s, calls, i, call);
    BooksStay(s, calls, tree.leaked, i, call);
  }

  lemma RefusedKeeps(tree: Tree, i: nat)
    requires Consistent(tree) && Enabled(tree, Refused(i))
    ensures Consistent(Next(tree, Refused(i)))
  {
    var s := tree.coordinator;
    assert i in s.active ==> Justified(s, tree.calls, tree.leaked, i);
    LocalKeeps(tree, i, Next(tree, Refused(i)).calls[i]);
  }

  lemma LaunchFailsKeeps(tree: Tree, i: nat)
    requires Consistent(tree) && Enabled(tree, LaunchFails(i))
    ensures Consistent(Next(tree, LaunchFails(i)))
  {
    LocalKeeps(tree, i, Next(tree, LaunchFails(i)).calls[i]);
  }

  // ---------------------------------------------------------------- answers

  function Acked(s: State, x: Socket): State
    requires x in s.grants
  {
    s.(grants := s.grants[x := s.grants[x].(acknowledged := true)])
  }

  ghost predicate NoneInFlight(calls: seq<Call>, x: Socket) {
    forall i | 0 <= i < |calls| :: !InFlight(calls[i].phase, x)
  }

  lemma AckFits(s: State, calls: seq<Call>, leaked: set<Token>, x: Socket)
    requires Fits(s, calls, leaked) && x in s.grants && NoneInFlight(calls, x)
    ensures Fits(Acked(s, x), calls, leaked)
    ensures Fits(Respond(Acked(s, x), x, Confirmed), calls, leaked)
  {
    var after := Acked(s, x);
    forall t <- after.active ensures Justified(after, calls, leaked, t) {
      assert Justified(s, calls, leaked, t);
      assert !InFlight(calls[t].phase, x);
    }
    FewerFit(after, calls, leaked, Respond(after, x, Confirmed));
  }

  lemma NoLongerInFlight(calls: seq<Call>, next: Socket, i: nat, call: Call, x: Socket)
    requires SocketsDistinct(calls, next) && i < |calls| && InFlight(calls[i].phase, x) && AtRest(call.phase)
    ensures NoneInFlight(calls[i := call], x)
  {
  }

  /** A call receives its grant and moves on. */
  lemma AckApplies(s: State, x: Socket)
    requires Answered(s, x)
    ensures Apply(s, Acknowledge(x, true)) == Respond(Acked(s, x), x, TreeCoordinator.Confirmed)
  {
  }

  lemma AnswerKeeps(tree: Tree, i: nat, x: Socket, call: Call, leaked: set<Token>)
    requires Consistent(tree) && i < |tree.calls| && InFlight(tree.calls[i].phase, x) && AtRest(call.phase)
    requires Answered(tree.coordinator, x) && MayBecome(tree.calls, tree.coordinator.nextSocket, i, call)
    requires Ended(tree.calls[i].phase) ==> Ended(call.phase)
    requires Abandoned(tree.calls[i].phase) ==> Abandoned(call.phase)
    requires call.yielded ==> tree.calls[i].yielded
    requires leaked == tree.leaked || (leaked == tree.leaked + {i} && Abandoned(call.phase))
    requires i in tree.coordinator.active ==> i in leaked || call.phase.Launching?
    ensures Consistent(tree.(coordinator := Apply(tree.coordinator, Acknowledge(x, true)),
                             calls := tree.calls[i := call], leaked := leaked))
  {
    var (s, calls) := (tree.coordinator, tree.calls);
    assert !Waiting(s, x);
    assert !calls[i].phase.Exited?;
    NoLongerInFlight(calls, s.nextSocket, i, call, x);
    hide Apply, CallsSound, Fits, Settled, MayBecome, OpenSockets;
    BecomeSound(calls, s.nextSocket, i, call);
    BecomeFits(s, calls, tree.leaked, i, call, leaked);
    SettledStays(s, calls, i, call);
    BooksStay(s, calls, tree.leaked, i, call);
    AckFits(s, calls[i := call], leaked, x);
    var after := Respond(Acked(s, x), x, TreeCoordinator.Confirmed);
    AckApplies(s, x);
    AckSettles(s, x, calls[i := call]);
    SameOpen(s, after, calls[i := call]);
  }

  lemma AckSettles(s: State, x: Socket, calls: seq<Call>)
    requires x in s.grants && Settled(s, calls)
    ensures Settled(Respond(Acked(s, x), x, TreeCoordinator.Confirmed), calls)
  {
  }

  lemma ConfirmKeeps(tree: Tree, i: nat)
    requires Consistent(tree) && Enabled(tree, Confirm(i))
    ensures Consistent(Next(tree, Confirm(i)))
  {
    var x := tree.calls[i].phase.socket;
    assert InFlight(tree.calls[i].phase, x);
    AnswerKeeps(tree, i, x, tree.calls[i].(phase := Launching), tree.leaked);
  }

  lemma AbandonKeeps(tree: Tree, i: nat)
    requires Consistent(tree) && Enabled(tree, Abandon(i))
    ensures Consistent(Next(tree, Abandon(i)))
  {
    var x := tree.calls[i].phase.socket;
    assert InFlight(tree.calls[i].phase, x);
    AnswerKeeps(tree, i, x, tree.calls[i].(phase := Restoring), tree.leaked + {i});
  }

  lemma ResumedKeeps(tree: Tree, i: nat)
    requires Consistent(tree) && Enabled(tree, Resumed(i))
    ensures Consistent(Next(tree, Resumed(i)))
  {
    var (s, x) := (tree.coordinator, tree.calls[i].phase.socket);
    assert InFlight(tree.calls[i].phase, x);
    assert i in s.active ==> Justified(s, tree.calls, tree.leaked, i);
    AnswerKeeps(tree, i, x, tree.calls[i].(phase := Finished), tree.leaked);
  }

  // ---------------------------------------------------------------- giving up

  /** What closing a connection leaves before the queue is drained. */
  function Dropped(s: State, x: Socket): State {
    var closed := RemoveQueuedSocket(Destroy(s, x), x);
    if Unanswered(s, x) then Undone(closed, s.grants[x]) else closed
  }

  predicate Unanswered(s: State, x: Socket) {
    x in s.grants && !s.grants[x].acknowledged
  }

  lemma {:induction false} WithoutItself(queue: seq<Queued>, x: Socket)
    ensures forall q <- WithoutSocket(queue, x) :: q.socket != x
  {
    if queue != [] {
      WithoutItself(queue[1..], x);
    }
  }

  lemma ShorterFits(s: State, calls: seq<Call>, leaked: set<Token>, x: Socket)
    requires Fits(s, calls, leaked)
    ensures var closed := RemoveQueuedSocket(Destroy(s, x), x);
            Fits(closed, calls, leaked) && !Waiting(closed, x) && (closed.queue != [] ==> s.queue != [])
  {
    var closed := RemoveQueuedSocket(Destroy(s, x), x);
    SlotCustody.WithoutSubset(s.queue, x);
    WithoutItself(s.queue, x);
    forall k | 0 <= k < |closed.queue|
      ensures var q := closed.queue[k];
              && q.socket < s.nextSocket && q.socket !in s.grants
              && Waits(calls, q) && q.pid !in s.dead && (q.resume ==> q.token.value !in s.active)
    {
      assert closed.queue[k] in s.queue;
    }
    assert SlotCustody.DistinctSockets(s.queue);
    forall t <- s.active ensures Justified(closed, calls, leaked, t) {
      assert Justified(s, calls, leaked, t);
    }
  }

  lemma DroppedFits(s: State, calls: seq<Call>, leaked: set<Token>, x: Socket)
    requires Fits(s, calls, leaked)
    ensures var dropped := Dropped(s, x);
            && Fits(dropped, calls, leaked) && !Waiting(dropped, x) && (dropped.queue != [] ==> s.queue != [])
            && (!Unanswered(s, x) ==> dropped.active == s.active)
  {
    hide Fits, WithoutSocket;
    ShorterFits(s, calls, leaked, x);
    FewerFit(RemoveQueuedSocket(Destroy(s, x), x), calls, leaked, Dropped(s, x));
  }

  lemma DroppedConfigured(s: State, x: Socket, cap: int)
    requires Configured(s, cap)
    ensures Configured(Dropped(s, x), cap)
  {
    hide WithoutSocket;
    SubmapSize(Dropped(s, x).active, s.active);
    WithoutEmpty(x);
  }

  lemma DroppedSettles(s: State, calls: seq<Call>, x: Socket)
    requires Settled(s, calls) && !Unanswered(s, x) && (Dropped(s, x).queue != [] ==> s.queue != [])
    ensures Settled(Dropped(s, x), calls)
  {
    hide WithoutSocket;
  }

  lemma DestroyedOpen(s: State, s': State, calls: seq<Call>, x: Socket)
    requires OpenSockets(s, calls) && NoneInFlight(calls, x) && x < s.nextSocket
    requires s'.destroyed == s.destroyed + {x} && s'.nextSocket == s.nextSocket
    ensures OpenSockets(s', calls)
  {
  }

  lemma CloseFits(s: State, calls: seq<Call>, leaked: set<Token>, x: Socket, cap: int)
    requires Configured(s, cap) && CallsSound(calls, s.nextSocket) && Fits(Dropped(s, x), calls, leaked)
    requires Settled(s, calls) && (Dropped(s, x).queue != [] ==> s.queue != [])
    ensures var r := CloseSocket(s, x);
            && Configured(r, cap) && Fits(r, calls, leaked) && Settled(r, calls)
            && r.nextSocket == s.nextSocket && r.dead == s.dead && r.destroyed == s.destroyed + {x}
  {
    hide Fits, CallsSound, WithoutSocket, DrainQueue, Configured;
    DroppedConfigured(s, x, cap);
    if Unanswered(s, x) {
      DrainFits(Dropped(s, x), calls, leaked, cap);
    } else {
      DroppedSettles(s, calls, x);
    }
  }

  /** A call gives up on the connection it is waiting on. */
  lemma CloseKeeps(tree: Tree, i: nat, x: Socket, call: Call)
    requires Consistent(tree) && i < |tree.calls| && InFlight(tree.calls[i].phase, x) && AtRest(call.phase)
    requires MayBecome(tree.calls, tree.coordinator.nextSocket, i, call)
    requires Ended(tree.calls[i].phase) ==> Ended(call.phase)
    requires Abandoned(tree.calls[i].phase) ==> Abandoned(call.phase)
    requires call.yielded ==> tree.calls[i].yielded
    requires i in Dropped(tree.coordinator, x).active ==> i in tree.leaked
    ensures Consistent(tree.(coordinator := CloseSocket(tree.coordinator, x), calls := tree.calls[i := call]))
  {
    var (s, calls) := (tree.coordinator, tree.calls);
    assert call.caller == calls[i].caller && x < s.nextSocket && !calls[i].phase.Exited?;
    assert forall y: Socket | InFlight(call.phase, y) :: y == s.nextSocket;
    assert forall y: Socket | InFlight(calls[i].phase, y) :: y == x;
    NoLongerInFlight(calls, s.nextSocket, i, call, x);
    hide CallsSound, Fits, Settled, MayBecome, OpenSockets, WithoutSocket, CloseSocket, Dropped, Configured;
    BecomeSound(calls, s.nextSocket, i, call);
    DroppedFits(s, calls, tree.leaked, x);
    BecomeFits(Dropped(s, x), calls, tree.leaked, i, call, tree.leaked);
    SettledStays(s, calls, i, call);
    BooksStay(s, calls, tree.leaked, i, call);
    CloseFits(s, calls[i := call], tree.leaked, x, tree.cap);
    DestroyedOpen(s, CloseSocket(s, x), calls[i := call], x);
  }

  lemma GiveUpDrops(tree: Tree, i: nat)
    requires Consistent(tree) && i < |tree.calls| && tree.calls[i].phase.Acquiring?
    ensures i !in Dropped(tree.coordinator, tree.calls[i].phase.socket).active
  {
    hide WithoutSocket;
    var s := tree.coordinator;
    assert i in s.active ==> Justified(s, tree.calls, tree.leaked, i);
  }

  lemma GiveUpKeeps(tree: Tree, i: nat)
    requires Consistent(tree) && Enabled(tree, GiveUp(i))
    ensures Consistent(Next(tree, GiveUp(i)))
  {
    GiveUpDrops(tree, i);
    hide CloseSocket, Dropped, Fits, Settled;
    var x := tree.calls[i].phase.socket;
    assert InFlight(tree.calls[i].phase, x);
    CloseKeeps(tree, i, x, tree.calls[i].(phase := Restoring));
  }

  lemma ResumeGivesUpDrops(tree: Tree, i: nat)
    requires Consistent(tree) && i < |tree.calls| && tree.calls[i].phase.Resuming?
    ensures i in Dropped(tree.coordinator, tree.calls[i].phase.socket).active ==> i in tree.leaked
  {
    hide WithoutSocket;
    var s := tree.coordinator;
    assert i in s.active ==> Justified(s, tree.calls, tree.leaked, i);
  }

  lemma ResumeGivesUpKeeps(tree: Tree, i: nat)
    requires Consistent(tree) && Enabled(tree, ResumeGivesUp(i))
    ensures Consistent(Next(tree, ResumeGivesUp(i)))
  {
    ResumeGivesUpDrops(tree, i);
    hide CloseSocket, Dropped, Fits, Settled;
    var x := tree.calls[i].phase.socket;
    assert InFlight(tree.calls[i].phase, x);
    CloseKeeps(tree, i, x, tree.calls[i].(phase := Finished));
  }

  // ---------------------------------------------------------------- launch, exit, release

  /** A child that has not started has no calls of its own. */
  lemma NoCallsYet(calls: seq<Call>, i: nat, call: Call)
    requires Nested(calls) && i < |calls| && !Started(calls[i].phase) && call.caller == calls[i].caller
    ensures !Yielding(calls[i := call], i + 1)
  {
    var after := calls[i := call];
    forall j | 0 <= j < |after| ensures after[j].caller != i + 1 {
      assert after[j].caller == calls[j].caller;
    }
  }

  /** A request has been served for call i: what is left to check about the coordinator. */
  lemma RequestKeeps(tree: Tree, i: nat, call: Call, r: State)
    requires Consistent(tree) && i < |tree.calls| && MayBecome(tree.calls, tree.coordinator.nextSocket, i, call)
    requires Ended(tree.calls[i].phase) ==> Ended(call.phase)
    requires Abandoned(tree.calls[i].phase) ==> Abandoned(call.phase)
    requires r.dead == tree.coordinator.dead && r.destroyed == tree.coordinator.destroyed
    requires r.nextSocket == tree.coordinator.nextSocket + 1
    requires var after := tree.calls[i := call];
             Configured(r, tree.cap) && Fits(r, after, tree.leaked) && Settled(r, after)
    ensures Consistent(tree.(coordinator := r, calls := tree.calls[i := call]))
  {
    var (s, calls) := (tree.coordinator, tree.calls);
    assert forall x: Socket | InFlight(call.phase, x) :: x == s.nextSocket;
    hide CallsSound, Fits, Settled, MayBecome, OpenSockets, Configured;
    BecomeSound(calls, s.nextSocket, i, call);
    BooksStay(s, calls, tree.leaked, i, call);
    SameOpen(Received(s), r, calls[i := call]);
  }

  lemma RegisterFits(s: State, calls: seq<Call>, leaked: set<Token>, i: nat, cap: int, socket: Socket)
    requires Configured(s, cap) && Fits(s, calls, leaked) && i < |calls|
    ensures var r := Register(s, socket, Some(i), Some(i + 1));
            && Configured(r, cap) && Fits(r, calls, leaked)
            && r.active.Keys == s.active.Keys && r.queue == s.queue && r.dead == s.dead
            && r.destroyed == s.destroyed && r.nextSocket == s.nextSocket
  {
    hide Fits;
    var r := Register(s, socket, Some(i), Some(i + 1));
    assert r.active.Keys == s.active.Keys;
    SubmapSize(r.active, s.active);
    FewerFit(s, calls, leaked, r);
  }

  lemma RegisterSettles(s: State, calls: seq<Call>, i: nat, socket: Socket)
    requires Settled(s, calls) && i < |calls| && i + 1 !in s.dead
    ensures Settled(Register(s, socket, Some(i), Some(i + 1)), calls)
  {
    var r := Register(s, socket, Some(i), Some(i + 1));
    assert r.active.Keys == s.active.Keys;
    SubmapSize(s.active, r.active);
    SubmapSize(r.active, s.active);
  }

  lemma LaunchReady(tree: Tree, i: nat)
    requires Consistent(tree) && Enabled(tree, Launch(i))
    ensures i + 1 !in tree.coordinator.dead
    ensures var call := tree.calls[i].(phase := if i in tree.coordinator.active then Running else Exited);
            && MayBecome(tree.calls, tree.coordinator.nextSocket, i, call)
            && !Yielding(tree.calls[i := call], i + 1)
            && (forall x: Socket :: !InFlight(tree.calls[i].phase, x))
  {
    NoCallsYet(tree.calls, i, tree.calls[i].(phase := if i in tree.coordinator.active then Running else Exited));
  }

  lemma LaunchServed(tree: Tree, i: nat, call: Call)
    requires Consistent(tree) && Enabled(tree, Launch(i))
    requires call == tree.calls[i].(phase := if i in tree.coordinator.active then Running else Exited)
    ensures var r := Register(Received(tree.coordinator), tree.coordinator.nextSocket, Some(i), Some(i + 1));
            Consistent(tree.(coordinator := r, calls := tree.calls[i := call]))
  {
    LaunchReady(tree, i);
    var (s, calls) := (tree.coordinator, tree.calls);
    assert Configured(Received(s), tree.cap);
    hide CallsSound, Fits, Settled, MayBecome, OpenSockets, Register, Configured, Yielding;
    FreshFits(s, calls, tree.leaked);
    SettledStays(s, calls, i, call);
    RegisterFits(Received(s), calls, tree.leaked, i, tree.cap, s.nextSocket);
    RegisterSettles(Received(s), calls[i := call], i, s.nextSocket);
    var r := Register(Received(s), s.nextSocket, Some(i), Some(i + 1));
    BecomeFits(r, calls, tree.leaked, i, call, tree.leaked);
    RequestKeeps(tree, i, call, r);
  }

  lemma LaunchKeeps(tree: Tree, i: nat)
    requires Consistent(tree) && Enabled(tree, Launch(i))
    ensures Consistent(Next(tree, Launch(i)))
  {
    hide Consistent, Ask, Register, Received;
    LaunchReady(tree, i);
    CoordinatorActive(tree);
    AskPerforms(tree.coordinator, i + 1, RegisterLaunch(Some(i), Some(i + 1)));
    LaunchServed(tree, i, Next(tree, Launch(i)).calls[i]);
  }

  lemma ExitQuiet(tree: Tree, i: nat)
    requires Consistent(tree) && Enabled(tree, Exit(i))
    ensures forall k | 0 <= k < |tree.coordinator.queue| :: tree.coordinator.queue[k].pid != i + 1
  {
    var (s, calls) := (tree.coordinator, tree.calls);
    forall k | 0 <= k < |s.queue| ensures s.queue[k].pid != i + 1 {
      var q := s.queue[k];
      assert Waits(calls, q);
    }
  }

  lemma DeathFits(s: State, calls: seq<Call>, leaked: set<Token>, p: Process)
    requires Fits(s, calls, leaked) && forall k | 0 <= k < |s.queue| :: s.queue[k].pid != p
    ensures Fits(s.(dead := s.dead + {p}), calls, leaked)
  {
    var after := s.(dead := s.dead + {p});
    forall t <- s.active ensures Justified(after, calls, leaked, t) {
      assert Justified(s, calls, leaked, t);
    }
  }

  lemma ExitBooks(s: State, calls: seq<Call>, leaked: set<Token>, i: nat, call: Call)
    requires DeadEnded(s.dead, calls) && LeaksAbandoned(calls, leaked) && OpenSockets(s, calls) && i < |calls|
    requires calls[i].phase.Running? && call.phase.Exited?
    ensures DeadEnded(s.dead + {i + 1}, calls[i := call]) && LeaksAbandoned(calls[i := call], leaked)
    ensures OpenSockets(s.(dead := s.dead + {i + 1}), calls[i := call])
    ensures SomeExited(calls[i := call])
  {
    var after := calls[i := call];
    assert after[i].phase.Exited?;
    forall j, x: Socket | 0 <= j < |after| && InFlight(after[j].phase, x) ensures x !in s.destroyed {
      assert InFlight(calls[j].phase, x);
    }
  }

  lemma ExitFits(tree: Tree, i: nat)
    requires Consistent(tree) && Enabled(tree, Exit(i))
    ensures var (s, after) := (tree.coordinator, tree.calls[i := tree.calls[i].(phase := Exited)]);
            CallsSound(after, s.nextSocket) && Fits(s.(dead := s.dead + {i + 1}), after, tree.leaked)
  {
    ExitQuiet(tree, i);
    var (s, calls) := (tree.coordinator, tree.calls);
    var call := calls[i].(phase := Exited);
    assert MayBecome(calls, s.nextSocket, i, call);
    hide CallsSound, Fits, MayBecome, OpenSockets, SomeExited;
    BecomeSound(calls, s.nextSocket, i, call);
    DeathFits(s, calls, tree.leaked, i + 1);
    BecomeFits(s.(dead := s.dead + {i + 1}), calls, tree.leaked, i, call, tree.leaked);
  }

  lemma ExitKeeps(tree: Tree, i: nat)
    requires Consistent(tree) && Enabled(tree, Exit(i))
    ensures Consistent(Next(tree, Exit(i)))
  {
    hide CallsSound, Fits, OpenSockets, SomeExited, DeadEnded, LeaksAbandoned;
    ExitFits(tree, i);
    ExitBooks(tree.coordinator, tree.calls, tree.leaked, i, tree.calls[i].(phase := Exited));
  }

  // ---------------------------------------------------------------- freeing a slot

  /** A token has left the active map: what stands once the reply is sent and the queue drained. */
  lemma VacateFits(s: State, calls: seq<Call>, leaked: set<Token>, cap: int, vacated: State, socket: Socket, body: Body)
    requires Configured(s, cap) && Fits(s, calls, leaked)
    requires vacated == s.(active := vacated.active, suspended := vacated.suspended)
    requires exists t: Token :: vacated.active == s.active - {t}
    ensures var r := Respond(vacated, socket, body); Configured(r, cap) && Fits(r, calls, leaked)
  {
    hide Fits;
    SubmapSize(vacated.active, s.active);
    FewerFit(s, calls, leaked, Respond(vacated, socket, body));
  }

  lemma FreeReady(tree: Tree, i: nat)
    requires Consistent(tree) && Enabled(tree, Free(i))
    ensures tree.calls[i].caller !in tree.coordinator.dead
    ensures MayBecome(tree.calls, tree.coordinator.nextSocket, i, tree.calls[i].(phase := Restoring))
  {
  }

  /** The token is out of the active map: answering and draining leaves a consistent tree. */
  lemma FreedKeeps(tree: Tree, i: nat, call: Call, freed: State, body: Body)
    requires Consistent(tree) && i < |tree.calls| && MayBecome(tree.calls, tree.coordinator.nextSocket, i, call)
    requires Ended(tree.calls[i].phase) ==> Ended(call.phase)
    requires Abandoned(tree.calls[i].phase) ==> Abandoned(call.phase)
    requires AtRest(tree.calls[i].phase) && AtRest(call.phase)
    requires freed == Received(tree.coordinator).(active := freed.active, suspended := freed.suspended)
    requires exists t: Token :: freed.active == tree.coordinator.active - {t}
    requires i !in freed.active
    requires call.yielded && !tree.calls[i].yielded ==> call.caller - 1 !in freed.active
    ensures Consistent(tree.(coordinator := DrainQueue(Respond(freed, tree.coordinator.nextSocket, body)),
                             calls := tree.calls[i := call]))
  {
    var (s, calls) := (tree.coordinator, tree.calls);
    var after := calls[i := call];
    var replied := Respond(freed, s.nextSocket, body);
    assert call.caller == calls[i].caller;
    assert Configured(Received(s), tree.cap);
    hide CallsSound, Fits, Settled, MayBecome, OpenSockets, Configured, Yielding, DrainQueue;
    FreshFits(s, calls, tree.leaked);
    VacateFits(Received(s), calls, tree.leaked, tree.cap, freed, s.nextSocket, body);
    BecomeFits(replied, calls, tree.leaked, i, call, tree.leaked);
    BecomeSound(calls, s.nextSocket, i, call);
    DrainFits(replied, after, tree.leaked, tree.cap);
    var r := DrainQueue(replied);
    assert Settled(r, after) by { SettledNow(r, after); }
    RequestKeeps(tree, i, call, r);
  }

  lemma SettledNow(s: State, calls: seq<Call>)
    requires ActiveSlotsLive(s) && NeverIdle(s)
    ensures Settled(s, calls)
  {
  }

  lemma FreeKeeps(tree: Tree, i: nat)
    requires Consistent(tree) && Enabled(tree, Free(i))
    ensures Consistent(Next(tree, Free(i)))
  {
    hide Consistent, MayBecome, Ask, Yielding, DrainQueue, Respond;
    FreeReady(tree, i);
    CoordinatorActive(tree);
    var (s, calls, p) := (tree.coordinator, tree.calls, tree.calls[i].caller);
    AskPerforms(s, p, ReleaseSlot(Some(i)));
    var freed := Received(s).(active := s.active - {i}, suspended := s.suspended - {i});
    FreedKeeps(tree, i, calls[i].(phase := Restoring), freed, TreeCoordinator.Done);
  }

  // ---------------------------------------------------------------- yielding and restoring

  lemma YieldLocally(tree: Tree, i: nat)
    requires Consistent(tree) && Enabled(tree, Yield(i))
    requires tree.calls[i].caller == 0 || Yielding(tree.calls, tree.calls[i].caller)
    ensures Consistent(Next(tree, Yield(i)))
  {
    NotYetActive(tree, i);
    LocalKeeps(tree, i, Next(tree, Yield(i)).calls[i]);
  }

  lemma YieldMayBecome(tree: Tree, i: nat)
    requires Consistent(tree) && Enabled(tree, Yield(i)) && tree.calls[i].caller > 0
    ensures MayBecome(tree.calls, tree.coordinator.nextSocket, i, Call(tree.calls[i].caller, Admitting, true))
  {
  }

  lemma SuspensionServed(tree: Tree, i: nat)
    requires Consistent(tree) && Enabled(tree, Yield(i)) && MayYield(tree.coordinator, tree.calls[i].caller)
    ensures var (s, p) := (tree.coordinator, tree.calls[i].caller);
            var freed := Received(s).(active := s.active - {p - 1}, suspended := s.suspended[p - 1 := s.active[p - 1]]);
            Consistent(tree.(coordinator := DrainQueue(Respond(freed, s.nextSocket, TreeCoordinator.Done)),
                             calls := tree.calls[i := Call(p, Admitting, true)]))
  {
    hide Consistent, MayBecome, Yielding, DrainQueue, Respond;
    NotYetActive(tree, i);
    YieldMayBecome(tree, i);
    var (s, p) := (tree.coordinator, tree.calls[i].caller);
    var call := Call(p, Admitting, true);
    var freed := Received(s).(active := s.active - {p - 1}, suspended := s.suspended[p - 1 := s.active[p - 1]]);
    FreedKeeps(tree, i, call, freed, TreeCoordinator.Done);
  }

  lemma SuspensionAnswer(tree: Tree, p: Process)
    requires tree.coordinator.status.Active? && p !in tree.coordinator.dead && MayYield(tree.coordinator, p)
    ensures var s := tree.coordinator;
            var freed := Received(s).(active := s.active - {p - 1}, suspended := s.suspended[p - 1 := s.active[p - 1]]);
            Ask(s, p, SuspendSlot(Some(p - 1))) == DrainQueue(Respond(freed, s.nextSocket, TreeCoordinator.Done))
  {
    AskPerforms(tree.coordinator, p, SuspendSlot(Some(p - 1)));
    hide Ask, DrainQueue;
  }

  lemma SuspendedKeeps(tree: Tree, i: nat)
    requires Consistent(tree) && Enabled(tree, Yield(i)) && MayYield(tree.coordinator, tree.calls[i].caller)
    requires !Yielding(tree.calls, tree.calls[i].caller)
    ensures Consistent(Next(tree, Yield(i)))
  {
    hide Consistent, DrainQueue, Yielding, Ask, Respond, Received;
    CallerAlive(tree, i);
    CoordinatorActive(tree);
    SuspensionServed(tree, i);
    SuspensionAnswer(tree, tree.calls[i].caller);
  }

  lemma SuspendRefused(tree: Tree, i: nat)
    requires Consistent(tree) && Enabled(tree, Yield(i)) && !MayYield(tree.coordinator, tree.calls[i].caller)
    requires tree.calls[i].caller > 0 && !Yielding(tree.calls, tree.calls[i].caller)
    ensures Consistent(Next(tree, Yield(i)))
  {
    hide Consistent, Ask, Yielding;
    var (s, p) := (tree.coordinator, tree.calls[i].caller);
    CallerAlive(tree, i);
    CoordinatorActive(tree);
    AskPerforms(s, p, SuspendSlot(Some(p - 1)));
    RefusalServed(tree, i, Call(p, Finished, false));
  }

  lemma RepliedStays(s: State, calls: seq<Call>, cap: int, socket: Socket, body: Body)
    requires Configured(s, cap) && Settled(s, calls)
    ensures Configured(Respond(s, socket, body), cap) && Settled(Respond(s, socket, body), calls)
  {
  }

  lemma RefusalServed(tree: Tree, i: nat, call: Call)
    requires Consistent(tree) && Enabled(tree, Yield(i)) && call == Call(tree.calls[i].caller, Finished, false)
    ensures var s := tree.coordinator;
            Consistent(tree.(coordinator := Respond(Received(s), s.nextSocket, Failed(1)),
                             calls := tree.calls[i := call]))
  {
    hide CallsSound, Fits, Settled, OpenSockets, Configured, Yielding;
    var (s, calls) := (tree.coordinator, tree.calls);
    NotYetActive(tree, i);
    var r := Respond(Received(s), s.nextSocket, Failed(1));
    FewerFit(s, calls, tree.leaked, r);
    BecomeFits(r, calls, tree.leaked, i, call, tree.leaked);
    SettledStays(s, calls, i, call);
    ReceivedConfigured(s, tree.cap);
    RepliedStays(Received(s), calls[i := call], tree.cap, s.nextSocket, Failed(1));
    RequestKeeps(tree, i, call, r);
  }

  lemma ReceivedConfigured(s: State, cap: int)
    requires Configured(s, cap)
    ensures Configured(Received(s), cap)
  {
  }

  lemma SuspendFailsKeeps(tree: Tree, i: nat)
    requires Consistent(tree) && Enabled(tree, SuspendFails(i))
    ensures Consistent(Next(tree, SuspendFails(i)))
  {
    NotYetActive(tree, i);
    assert !tree.calls[i].yielded;
    LocalKeeps(tree, i, Call(tree.calls[i].caller, Finished, false));
  }

  lemma AdmissionFailsKeeps(tree: Tree, i: nat)
    requires Consistent(tree) && Enabled(tree, AdmissionFails(i))
    ensures Consistent(Next(tree, AdmissionFails(i)))
  {
    NotYetActive(tree, i);
    LocalKeeps(tree, i, tree.calls[i].(phase := Restoring));
  }

  lemma RestoreFailsKeeps(tree: Tree, i: nat)
    requires Consistent(tree) && Enabled(tree, RestoreFails(i))
    ensures Consistent(Next(tree, RestoreFails(i)))
  {
    assert i in tree.coordinator.active ==> Justified(tree.coordinator, tree.calls, tree.leaked, i);
    LocalKeeps(tree, i, Call(tree.calls[i].caller, Finished, false));
  }

  lemma SuspendReplyLostServed(tree: Tree, i: nat)
    requires Consistent(tree) && Enabled(tree, SuspendReplyLost(i))
    ensures var (s, p) := (tree.coordinator, tree.calls[i].caller);
            var freed := Received(s).(active := s.active - {p - 1}, suspended := s.suspended[p - 1 := s.active[p - 1]]);
            Consistent(tree.(coordinator := DrainQueue(Respond(freed, s.nextSocket, TreeCoordinator.Done)),
                             calls := tree.calls[i := Call(p, Finished, false)]))
  {
    hide Consistent, Yielding, DrainQueue, Respond;
    NotYetActive(tree, i);
    var (s, p) := (tree.coordinator, tree.calls[i].caller);
    var call := Call(p, Finished, false);
    var freed := Received(s).(active := s.active - {p - 1}, suspended := s.suspended[p - 1 := s.active[p - 1]]);
    FreedKeeps(tree, i, call, freed, TreeCoordinator.Done);
  }

  /** The caller's slot is given up although the call does not begin. */
  lemma SuspendReplyLostKeeps(tree: Tree, i: nat)
    requires Consistent(tree) && Enabled(tree, SuspendReplyLost(i))
    ensures Consistent(Next(tree, SuspendReplyLost(i)))
  {
    hide Consistent, Next, DrainQueue, Ask, Respond, Received;
    NotYielded(tree, i);
    CallerAlive(tree, i);
    CoordinatorActive(tree);
    SuspendReplyLostServed(tree, i);
    SuspensionAnswer(tree, tree.calls[i].caller);
    SuspendReplyLostNext(tree, i);
  }

  lemma SuspendReplyLostNext(tree: Tree, i: nat)
    requires Enabled(tree, SuspendReplyLost(i)) && !tree.calls[i].yielded
    ensures var (s, p) := (tree.coordinator, tree.calls[i].caller);
            Next(tree, SuspendReplyLost(i))
            == tree.(coordinator := Ask(s, p, SuspendSlot(Some(p - 1))),
                     calls := tree.calls[i := Call(p, Finished, false)])
  {
    hide Ask;
  }

  lemma NotYielded(tree: Tree, i: nat)
    requires Consistent(tree) && i < |tree.calls| && tree.calls[i].phase.Suspending?
    ensures !tree.calls[i].yielded
  {
  }

  lemma YieldKeeps(tree: Tree, i: nat)
    requires Consistent(tree) && Enabled(tree, Yield(i))
    ensures Consistent(Next(tree, Yield(i)))
  {
    hide Consistent, Next;
    if tree.calls[i].caller == 0 || Yielding(tree.calls, tree.calls[i].caller) {
      YieldLocally(tree, i);
    } else if MayYield(tree.coordinator, tree.calls[i].caller) {
      SuspendedKeeps(tree, i);
    } else {
      SuspendRefused(tree, i);
    }
  }

  /** Whoever resumes holds no slot: one of its calls is still delegated. */
  lemma ResumeReady(tree: Tree, i: nat)
    requires Consistent(tree) && Enabled(tree, Restore(i))
    requires tree.calls[i].yielded && !Yielding(tree.calls[i := Call(tree.calls[i].caller, Finished, false)],
                                                tree.calls[i].caller)
    ensures var (s, calls, p) := (tree.coordinator, tree.calls, tree.calls[i].caller);
            && p > 0 && p - 1 !in s.active && p !in s.dead
            && MayBecome(calls, s.nextSocket, i, Call(p, Resuming(s.nextSocket), false))
            && (i in s.active ==> i in tree.leaked)
            && Waits(calls[i := Call(p, Resuming(s.nextSocket), false)], Queued(s.nextSocket, p, Some(p - 1), true))
  {
    var (s, calls, p) := (tree.coordinator, tree.calls, tree.calls[i].caller);
    assert i in s.active ==> Justified(s, calls, tree.leaked, i);
    assert calls[p - 1].phase.Running? && Yielding(calls, p);
    var call := Call(p, Resuming(s.nextSocket), false);
    var after := calls[i := call];
    assert after[i].phase == Resuming(s.nextSocket) && after[i].caller == p;
    ResumeMayBecome(calls, s.nextSocket, i);
  }

  lemma ResumeMayBecome(calls: seq<Call>, next: Socket, i: nat)
    requires i < |calls| && calls[i].phase.Restoring? && calls[i].caller > 0 && Turn(calls, calls[i].caller)
    requires !Yielding(calls[i := Call(calls[i].caller, Finished, false)], calls[i].caller)
    ensures MayBecome(calls, next, i, Call(calls[i].caller, Resuming(next), false))
  {
    var p := calls[i].caller;
    var done := calls[i := Call(p, Finished, false)];
    var after := calls[i := Call(p, Resuming(next), false)];
    if j: nat :| j < |after| && after[j].caller == p && after[j].yielded {
      assert done[j].caller == p && done[j].yielded;
    }
  }

  lemma RestoreLocally(tree: Tree, i: nat)
    requires Consistent(tree) && Enabled(tree, Restore(i))
    requires !tree.calls[i].yielded || Yielding(tree.calls[i := Call(tree.calls[i].caller, Finished, false)],
                                                tree.calls[i].caller)
    ensures Consistent(Next(tree, Restore(i)))
  {
    var s := tree.coordinator;
    assert i in s.active ==> Justified(s, tree.calls, tree.leaked, i);
    LocalKeeps(tree, i, Call(tree.calls[i].caller, Finished, false));
  }

  lemma ResumeFits(tree: Tree, i: nat, call: Call)
    requires Consistent(tree) && Enabled(tree, Restore(i))
    requires tree.calls[i].yielded && !Yielding(tree.calls[i := Call(tree.calls[i].caller, Finished, false)],
                                                tree.calls[i].caller)
    requires call == Call(tree.calls[i].caller, Resuming(tree.coordinator.nextSocket), false)
    ensures var (s, calls, p) := (tree.coordinator, tree.calls, tree.calls[i].caller);
            var r := Admit(Received(s), s.nextSocket, p, Some(p - 1), tree.cap, true);
            Consistent(tree.(coordinator := r, calls := calls[i := call]))
  {
    hide CallsSound, Fits, Admit, Settled, MayBecome, OpenSockets, Waits, Yielding;
    ResumeReady(tree, i);
    var (s, calls, p) := (tree.coordinator, tree.calls, tree.calls[i].caller);
    FreshFits(s, calls, tree.leaked);
    BecomeSound(calls, s.nextSocket, i, call);
    BecomeFits(Received(s), calls, tree.leaked, i, call, tree.leaked);
    SettledStays(s, calls, i, call);
    AdmitFits(Received(s), calls[i := call], tree.leaked, Queued(s.nextSocket, p, Some(p - 1), true), tree.cap);
    RequestKeeps(tree, i, call, Admit(Received(s), s.nextSocket, p, Some(p - 1), tree.cap, true));
  }

  lemma RestoreKeeps(tree: Tree, i: nat)
    requires Consistent(tree) && Enabled(tree, Restore(i))
    ensures Consistent(Next(tree, Restore(i)))
  {
    hide Consistent, Admit, Ask, Received, Yielding, MayBecome, Waits;
    var (s, p) := (tree.coordinator, tree.calls[i].caller);
    if tree.calls[i].yielded && !Yielding(tree.calls[i := Call(p, Finished, false)], p) {
      CoordinatorActive(tree);
      ResumeReady(tree, i);
      AskPerforms(s, p, ResumeSlot(Some(p - 1), tree.cap));
      ResumeFits(tree, i, Call(p, Resuming(s.nextSocket), false));
    } else {
      RestoreLocally(tree, i);
    }
  }

  // ---------------------------------------------------------------- runs

  /** A tree with an active coordinator and no call yet. */
  predicate Fresh(tree: Tree) {
    var s := tree.coordinator;
    && s.status.Active? && s.active == map[] && s.suspended == map[] && s.queue == [] && s.grants == map[]
    && s.destroyed == {} && s.dead == {} && s.maximum.None?
    && tree.calls == [] && tree.leaked == {} && ExactPositive(tree.cap)
  }

  lemma StepKeeps(tree: Tree, a: Action)
    requires Consistent(tree) && Enabled(tree, a)
    ensures Consistent(Next(tree, a)) && Next(tree, a).cap == tree.cap
  {
    hide Consistent, Ask, Apply;
    match a
    case Begin(p) => BeginKeeps(tree, p);
    case Yield(i) => YieldKeeps(tree, i);
    case AskSlot(i) => AskSlotKeeps(tree, i);
    case Confirm(i) => ConfirmKeeps(tree, i);
    case Refused(i) => RefusedKeeps(tree, i);
    case GiveUp(i) => GiveUpKeeps(tree, i);
    case Abandon(i) => AbandonKeeps(tree, i);
    case Launch(i) => LaunchKeeps(tree, i);
    case LaunchFails(i) => LaunchFailsKeeps(tree, i);
    case Exit(i) => ExitKeeps(tree, i);
    case Free(i) => FreeKeeps(tree, i);
    case Restore(i) => RestoreKeeps(tree, i);
    case Resumed(i) => ResumedKeeps(tree, i);
    case ResumeGivesUp(i) => ResumeGivesUpKeeps(tree, i);
    case SuspendFails(i) => SuspendFailsKeeps(tree, i);
    case SuspendReplyLost(i) => SuspendReplyLostKeeps(tree, i);
    case AdmissionFails(i) => AdmissionFailsKeeps(tree, i);
    case RestoreFails(i) => RestoreFailsKeeps(tree, i);
    case ResumeReplyLost(i) => ResumedKeeps(tree, i);
  }

  lemma {:induction false} ConsistentHolds(from: Tree, actions: seq<Action>, to: Tree)
    requires Consistent(from) && Reaches(from, actions, to)
    ensures Consistent(to) && to.cap == from.cap
    decreases |actions|
  {
    hide Consistent;
    if actions != [] {
      StepKeeps(from, actions[0]);
      ConsistentHolds(Next(from, actions[0]), actions[1..], to);
    }
  }

  /** A process that waits for a child it delegated to never holds its own active slot. */
  lemma WaitersHoldNoSlot(from: Tree, actions: seq<Action>, to: Tree, i: nat)
    requires Fresh(from) && Reaches(from, actions, to)
    requires i < |to.calls| && to.calls[i].caller > 0 && Delegated(to.calls[i].phase)
    ensures to.calls[i].caller - 1 !in to.coordinator.active
  {
    hide Reaches, Fresh, Consistent;
    FreshIsConsistent(from);
    ConsistentHolds(from, actions, to);
    WaiterHoldsNoSlot(to, i);
  }

  lemma FreshIsConsistent(tree: Tree)
    requires Fresh(tree)
    ensures Consistent(tree)
  {
  }

  lemma WaiterHoldsNoSlot(tree: Tree, i: nat)
    requires Consistent(tree) && i < |tree.calls| && tree.calls[i].caller > 0 && Delegated(tree.calls[i].phase)
    ensures tree.calls[i].caller - 1 !in tree.coordinator.active
  {
    var t: Token := tree.calls[i].caller - 1;
    assert tree.calls[i].yielded && Yielding(tree.calls, tree.calls[i].caller);
    assert t in tree.coordinator.active ==> Justified(tree.coordinator, tree.calls, tree.leaked, t);
  }

  ghost predicate CanProgress(tree: Tree) {
    exists a :: Advances(tree, a)
  }

  /** Every slot of the tree is held by a token that nobody will release. */
  predicate LeaksFillCap(tree: Tree) {
    tree.coordinator.active.Keys <= tree.leaked && |tree.coordinator.active| >= tree.cap
  }

  /**
   * In every reachable state with an unfinished call some existing call can take a step that
   * is not a surrender, whether or not more calls may be numbered, unless the tokens leaked by
   * callers that gave up after their acknowledgement was processed fill every slot while a
   * request waits.
   */
  lemma NeverDeadlocks(from: Tree, actions: seq<Action>, to: Tree)
    requires Fresh(from) && Reaches(from, actions, to)
    requires Unfinished(to.calls) && (!LeaksFillCap(to) || to.coordinator.queue == [])
    ensures CanProgress(to)
  {
    ConsistentHolds(from, actions, to);
    var a := SomeoneMoves(to);
  }

  /** How many grants callers gave up on after their acknowledgement was processed. */
  function Abandons(actions: seq<Action>): nat {
    if actions == [] then 0 else (if actions[0].Abandon? then 1 else 0) + Abandons(actions[1..])
  }

  lemma {:induction false} LeaksAreAbandons(from: Tree, actions: seq<Action>, to: Tree)
    requires Reaches(from, actions, to)
    ensures |to.leaked| <= |from.leaked| + Abandons(actions)
    decreases |actions|
  {
    hide Ask, Apply;
    if actions != [] {
      LeaksAreAbandons(Next(from, actions[0]), actions[1..], to);
    }
  }

  lemma FullOfLeaks(tree: Tree)
    requires LeaksFillCap(tree)
    ensures |tree.leaked| >= tree.cap
  {
    SubsetSize(tree.coordinator.active.Keys, tree.leaked);
    assert |tree.coordinator.active| == |tree.coordinator.active.Keys|;
  }

  /** With fewer abandoned grants than slots a tree that can move no further has finished every call. */
  lemma AllCallsFinish(from: Tree, actions: seq<Action>, to: Tree)
    requires Fresh(from) && Reaches(from, actions, to) && Abandons(actions) < from.cap
    requires !CanProgress(to)
    ensures forall i | 0 <= i < |to.calls| :: to.calls[i].phase.Finished?
  {
    LeaksAreAbandons(from, actions, to);
    ConsistentHolds(from, actions, to);
    if LeaksFillCap(to) {
      FullOfLeaks(to);
    }
    if Unfinished(to.calls) {
      NeverDeadlocks(from, actions, to);
    }
  }
}
