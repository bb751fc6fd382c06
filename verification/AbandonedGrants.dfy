/**
 * How many abandoned grants a tree tolerates.  A caller that gives up after its
 * acknowledgement was processed leaves an active slot behind for as long as it lives
 * (tree-coordinator.ts, runtime-core.ts).  A tree with `cap` slots finishes whatever
 * happens with fewer than `cap` such grants, and `cap` of them can block it.
 */
module AbandonedGrants {
  import opened Wrappers
  import opened TreeCoordinator
  import opened SlotAdmission
  import opened NestedDelegation

  // ---------------------------------------------------------------- runs end to end

  lemma {:induction false} ReachesFurther(from: Tree, first: seq<Action>, middle: Tree, second: seq<Action>, to: Tree)
    requires Reaches(from, first, middle) && Reaches(middle, second, to)
    ensures Reaches(from, first + second, to)
    ensures Abandons(first + second) == Abandons(first) + Abandons(second)
    decreases |first|
  {
    if first == [] {
      assert first + second == second;
    } else {
      assert (first + second)[1..] == first[1..] + second;
      ReachesFurther(Next(from, first[0]), first[1..], middle, second, to);
    }
  }

  lemma ReachesStep(from: Tree, actions: seq<Action>, middle: Tree, a: Action)
    requires Reaches(from, actions, middle) && Enabled(middle, a)
    ensures Reaches(from, actions + [a], Next(middle, a))
    ensures Abandons(actions + [a]) == Abandons(actions) + if a.Abandon? then 1 else 0
  {
    hide Next, Enabled;
    assert Reaches(middle, [a], Next(middle, a));
    ReachesFurther(from, actions, middle, [a], Next(middle, a));
  }

  // ---------------------------------------------------------------- requests of the run

  /** What the run below looks at. */
  ghost predicate Looks(s: State, active: map<Token, Slot>, suspended: map<Token, Slot>, queue: seq<Queued>,
                        next: Socket) {
    && s.status.Active? && s.dead == {} && s.destroyed == {} && s.nextSocket == next
    && s.active == active && s.suspended == suspended && s.queue == queue
    && forall x <- s.grants :: x < next
  }

  lemma SlotGranted(s: State, pid: Process, t: Token, cap: int, suspended: map<Token, Slot>, next: Socket)
    requires Looks(s, s.active, suspended, [], next) && ExactPositive(cap) && |s.active| < cap && t !in s.active
    requires s.maximum.None? || s.maximum == Some(cap)
    ensures var r := Ask(s, pid, AcquireSlot(Some(t), cap));
            && Looks(r, s.active[t := Slot(s.nextSlot, pid, None)], suspended, [], next + 1)
            && r.maximum == Some(cap) && r.nextSlot == s.nextSlot + 1 && next in r.grants
  {
    AskPerforms(s, pid, AcquireSlot(Some(t), cap));
    hide Ask, Apply;
    var bound := BindMaximum(Received(s), cap).0;
    assert PruneDeadSlots(bound) == bound;
  }

  lemma GrantConfirmed(s: State, x: Socket, suspended: map<Token, Slot>, next: Socket)
    requires Looks(s, s.active, suspended, [], next) && x in s.grants
    ensures var r := Apply(s, Acknowledge(x, true));
            && Looks(r, s.active, suspended, [], next) && r.maximum == s.maximum && r.nextSlot == s.nextSlot
  {
  }

  lemma ChildRegistered(s: State)
    requires Looks(s, map[0 := Slot(0, 0, None)], map[], [], 1)
    ensures var r := Ask(s, 1, RegisterLaunch(Some(0), Some(1)));
            && Looks(r, map[0 := Slot(0, 0, Some(1))], map[], [], 2) && r.maximum == s.maximum
            && r.nextSlot == s.nextSlot
  {
    AskPerforms(s, 1, RegisterLaunch(Some(0), Some(1)));
    hide Ask, Apply;
  }

  lemma SlotYielded(s: State)
    requires Looks(s, map[0 := Slot(0, 0, Some(1))], map[], [], 2) && s.maximum.Some?
    ensures var r := Ask(s, 1, SuspendSlot(Some(0)));
            && Looks(r, map[], map[0 := Slot(0, 0, Some(1))], [], 3) && r.maximum == s.maximum
            && r.nextSlot == s.nextSlot
  {
    AskPerforms(s, 1, SuspendSlot(Some(0)));
    hide Ask, Apply;
    var yielded := Received(s).(active := map[], suspended := map[0 := Slot(0, 0, Some(1))]);
    assert s.active - {0} == map[];
    var replied := Respond(yielded, 2, TreeCoordinator.Done);
    assert PruneDeadSlots(replied) == replied;
  }

  lemma ResumeQueues(s: State, cap: int, suspended: map<Token, Slot>, next: Socket)
    requires Looks(s, s.active, suspended, [], next) && ExactPositive(cap) && |s.active| == cap
        && s.maximum == Some(cap)
    ensures var r := Ask(s, 1, ResumeSlot(Some(0), cap));
            Looks(r, s.active, suspended, [Queued(next, 1, Some(0), true)], next + 1) && r.grants == s.grants
  {
    AskPerforms(s, 1, ResumeSlot(Some(0), cap));
    hide Ask, Apply;
    var received := Received(s);
    assert PruneDeadSlots(received) == received;
  }

  // ---------------------------------------------------------------- the run

  /** The slots of the tokens 1 to k, which nobody is going to release. */
  ghost function Forgotten(k: nat): map<Token, Slot>
    ensures |Forgotten(k)| == k
    ensures forall t :: t in Forgotten(k) <==> 1 <= t <= k
  {
    if k == 0 then map[] else Forgotten(k - 1)[k := Slot(k, 1, None)]
  }

  /**
   * The child of call 0 has begun k calls and its admission of each was abandoned.  It is
   * yet to ask its own slot back.
   */
  ghost predicate Round(tree: Tree, k: nat, cap: int) {
    && ExactPositive(cap) && tree.cap == cap && tree.limit == cap + 1 && 1 <= k <= cap
    && |tree.calls| == k + 1 && tree.calls[0] == Call(0, Running, false)
    && (forall i | 1 <= i < k :: tree.calls[i] == Call(1, Finished, false))
    && tree.calls[k] == Call(1, Restoring, true)
    && tree.leaked == Forgotten(k).Keys
    && Looks(tree.coordinator, Forgotten(k), map[0 := Slot(0, 0, Some(1))], [], k + 3)
    && tree.coordinator.maximum == Some(cap) && tree.coordinator.nextSlot == k + 1
  }

  /** A lemma of its own, so that runs can be put together step by step. */
  lemma ReachesItself(tree: Tree)
    ensures Reaches(tree, [], tree) && Abandons([]) == 0
  {
  }

  lemma OuterCallRuns(t0: Tree) returns (actions: seq<Action>, to: Tree)
    requires Fresh(t0) && t0.limit == t0.cap + 1
    requires t0.coordinator.nextSocket == 0 && t0.coordinator.nextSlot == 0
    ensures Reaches(t0, actions, to) && Abandons(actions) == 0
    ensures to.cap == t0.cap && to.limit == t0.limit && to.leaked == {} && to.calls == [Call(0, Running, false)]
    ensures Looks(to.coordinator, map[0 := Slot(0, 0, Some(1))], map[], [], 2)
    ensures to.coordinator.maximum == Some(to.cap) && to.coordinator.nextSlot == 1
  {
    hide Ask, Apply, Reaches, Abandons;
    var t1 := Next(t0, Begin(0));
    var t2 := Next(t1, Yield(0));
    SlotGranted(t2.coordinator, 0, 0, t0.cap, map[], 0);
    var t3 := Next(t2, AskSlot(0));
    GrantConfirmed(t3.coordinator, 0, map[], 1);
    var t4 := Next(t3, Confirm(0));
    ChildRegistered(t4.coordinator);
    to := Next(t4, Launch(0));
    ReachesItself(t0);
    ReachesStep(t0, [], t0, Begin(0));
    ReachesStep(t0, [] + [Begin(0)], t1, Yield(0));
    actions := [] + [Begin(0)] + [Yield(0)];
    ReachesStep(t0, actions, t2, AskSlot(0));
    actions := actions + [AskSlot(0)];
    ReachesStep(t0, actions, t3, Confirm(0));
    actions := actions + [Confirm(0)];
    ReachesStep(t0, actions, t4, Launch(0));
    actions := actions + [Launch(0)];
  }

  /** The first call of the child, which gives up the child's own slot. */
  lemma FirstRound(t0: Tree) returns (actions: seq<Action>, to: Tree)
    requires ExactPositive(t0.cap) && t0.limit == t0.cap + 1 && t0.leaked == {} && t0.calls == [Call(0, Running, false)]
    requires Looks(t0.coordinator, map[0 := Slot(0, 0, Some(1))], map[], [], 2)
    requires t0.coordinator.maximum == Some(t0.cap) && t0.coordinator.nextSlot == 1
    ensures Reaches(t0, actions, to) && Abandons(actions) == 1 && Round(to, 1, t0.cap)
  {
    hide Ask, Apply, Reaches, Abandons;
    var t1 := Next(t0, Begin(1));
    SlotYielded(t1.coordinator);
    assert !Yielding(t1.calls, 1) && MayYield(t1.coordinator, 1);
    var t2 := Next(t1, Yield(1));
    SlotGranted(t2.coordinator, 1, 1, t0.cap, map[0 := Slot(0, 0, Some(1))], 3);
    var t3 := Next(t2, AskSlot(1));
    GrantConfirmed(t3.coordinator, 3, map[0 := Slot(0, 0, Some(1))], 4);
    to := Next(t3, Abandon(1));
    assert Forgotten(1) == map[1 := Slot(1, 1, None)];
    ReachesItself(t0);
    ReachesStep(t0, [], t0, Begin(1));
    ReachesStep(t0, [] + [Begin(1)], t1, Yield(1));
    actions := [] + [Begin(1)] + [Yield(1)];
    ReachesStep(t0, actions, t2, AskSlot(1));
    actions := actions + [AskSlot(1)];
    ReachesStep(t0, actions, t3, Abandon(1));
    actions := actions + [Abandon(1)];
  }

  /** One more call: it joins the delegation before the previous one leaves it. */
  lemma NextRound(t0: Tree, k: nat) returns (actions: seq<Action>, to: Tree)
    requires Round(t0, k, t0.cap) && k < t0.cap
    ensures Reaches(t0, actions, to) && Abandons(actions) == 1 && Round(to, k + 1, t0.cap)
  {
    hide Ask, Apply, Reaches, Abandons;
    var own := map[0 := Slot(0, 0, Some(1))];
    var t1 := Next(t0, Begin(1));
    assert t1.calls[k].yielded && t1.calls[k].caller == 1 && Yielding(t1.calls, 1);
    var t2 := Next(t1, Yield(k + 1));
    assert t2.calls[k := Call(1, Finished, false)][k + 1] == Call(1, Admitting, true);
    var t3 := Next(t2, Restore(k));
    SlotGranted(t3.coordinator, 1, k + 1, t0.cap, own, k + 3);
    var t4 := Next(t3, AskSlot(k + 1));
    GrantConfirmed(t4.coordinator, k + 3, own, k + 4);
    to := Next(t4, Abandon(k + 1));
    ReachesItself(t0);
    ReachesStep(t0, [], t0, Begin(1));
    ReachesStep(t0, [] + [Begin(1)], t1, Yield(k + 1));
    actions := [] + [Begin(1)] + [Yield(k + 1)];
    ReachesStep(t0, actions, t2, Restore(k));
    actions := actions + [Restore(k)];
    ReachesStep(t0, actions, t3, AskSlot(k + 1));
    actions := actions + [AskSlot(k + 1)];
    ReachesStep(t0, actions, t4, Abandon(k + 1));
    actions := actions + [Abandon(k + 1)];
  }

  lemma {:induction false} Rounds(t0: Tree, k: nat) returns (actions: seq<Action>, to: Tree)
    requires Fresh(t0) && t0.limit == t0.cap + 1 && 1 <= k <= t0.cap
    requires t0.coordinator.nextSocket == 0 && t0.coordinator.nextSlot == 0
    ensures Reaches(t0, actions, to) && Abandons(actions) == k && Round(to, k, t0.cap)
  {
    hide Reaches, Abandons, Round;
    if k == 1 {
      var first, middle := OuterCallRuns(t0);
      var rest: seq<Action>;
      rest, to := FirstRound(middle);
      ReachesFurther(t0, first, middle, rest, to);
      actions := first + rest;
    } else {
      var first, middle := Rounds(t0, k - 1);
      RoundCap(middle, k - 1, t0.cap);
      var rest: seq<Action>;
      rest, to := NextRound(middle, k - 1);
      ReachesFurther(t0, first, middle, rest, to);
      actions := first + rest;
    }
  }

  lemma RoundCap(tree: Tree, k: nat, cap: int)
    requires Round(tree, k, cap)
    ensures tree.cap == cap
  {
  }

  /** Not even another call can be begun. */
  ghost predicate OnlySurrendersLeft(tree: Tree) {
    forall a | Enabled(tree, a) :: Surrenders(a)
  }

  /** The child asks its own slot back, and that request is never granted. */
  lemma Starved(t0: Tree, cap: nat) returns (to: Tree)
    requires Round(t0, cap, cap)
    ensures Reaches(t0, [Restore(cap)], to) && Unfinished(to.calls) && LeaksFillCap(to) && !CanProgress(to)
    ensures OnlySurrendersLeft(to)
  {
    hide Ask, Apply;
    var own := map[0 := Slot(0, 0, Some(1))];
    assert !Yielding(t0.calls[cap := Call(1, Finished, false)], 1);
    ResumeQueues(t0.coordinator, cap, own, cap + 3);
    to := Next(t0, Restore(cap));
    assert Reaches(to, [], to);
    assert to.calls[cap] == Call(1, Resuming(cap + 3), false);
    assert to.coordinator.queue[0].socket == cap + 3 && Waiting(to.coordinator, cap + 3);
    assert !to.calls[0].phase.Finished? && !CallsDone(to.calls, 1);
  }

  /**
   * A tree with cap slots can get, with at most n abandoned grants, to an unfinished call and
   * no step left for any call but to surrender, if and only if n is at least cap.
   */
  lemma ToleratesFewerThanCap(cap: int, n: nat)
    requires ExactPositive(cap)
    ensures n >= cap <==>
            exists from, actions, to ::
              && Reaches(from, actions, to) && Fresh(from) && from.cap == cap && Abandons(actions) <= n
              && Unfinished(to.calls) && !CanProgress(to)
  {
    if n >= cap {
      var from, actions, to := SomeDeadlock(cap);
    } else {
      forall from, actions, to | Reaches(from, actions, to) && Fresh(from) && from.cap == cap
                                 && Abandons(actions) <= n && !CanProgress(to)
        ensures !Unfinished(to.calls)
      {
        AllCallsFinish(from, actions, to);
      }
    }
  }

  lemma SomeDeadlock(cap: int) returns (from: Tree, actions: seq<Action>, to: Tree)
    requires ExactPositive(cap)
    ensures Fresh(from) && from.cap == cap && Reaches(from, actions, to) && Abandons(actions) == cap
    ensures Unfinished(to.calls) && LeaksFillCap(to) && !CanProgress(to) && OnlySurrendersLeft(to)
  {
    var idle := State(Active, 0, map[], map[], [], None, Ledger(None, 0, None, None), map[], map[], {}, {}, [], 0, 0);
    from := Tree(idle, [], cap + 1, cap, {});
    var first, middle := Rounds(from, cap);
    hide Reaches, Round, Unfinished, LeaksFillCap, CanProgress, OnlySurrendersLeft;
    to := Starved(middle, cap);
    ReachesFurther(from, first, middle, [Restore(cap)], to);
    actions := first + [Restore(cap)];
  }
}
