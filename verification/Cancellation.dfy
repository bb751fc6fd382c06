/**
 * Who is signalled over the whole life of a tree (tree-coordinator.ts).  A tree becomes terminal
 * once: because it is terminated, because the coordinator's server fails, or because it never
 * started.  Only a termination signals children, and only if it is what made the tree terminal
 * and the terminal manifest could be written.
 */
module Cancellation {
  import opened Wrappers
  import opened TreeCoordinator
  import opened SlotAdmission
  import opened SlotCustody

  /** The processes one event sends the termination signal to. */
  function SignalsOf(s: State, event: Event): set<Process> {
    if event.Terminate? then MarkTerminal(s, event.manifestWritten).1 else {}
  }

  /** Everyone signalled in the course of the events. */
  function Signals(from: Tree, events: seq<Event>): set<Process>
    decreases |events|
  {
    if events == [] then {}
    else SignalsOf(from.coordinator, events[0]) + Signals(Step(from, events[0]), events[1..])
  }

  /** The process is another than the root's, lives, and is the registered child of a slot, active or suspended. */
  ghost predicate LivesInSlot(s: State, p: Process) {
    && p != s.rootProcess && p !in s.dead
    && ((exists t: Token :: t in s.active && s.active[t].child == Some(p))
        || (exists t: Token :: t in s.suspended && s.suspended[t].child == Some(p)))
  }

  predicate IsTerminal(tree: Tree) {
    tree.coordinator.status.Terminal?
  }

  /** The event that makes the tree terminal, if one of them does, and the tree it happens to. */
  function Ending(from: Tree, events: seq<Event>): Option<(Tree, Event)>
    decreases |events|
  {
    if IsTerminal(from) || events == [] then None
    else if IsTerminal(Step(from, events[0])) then Some((from, events[0]))
    else Ending(Step(from, events[0]), events[1..])
  }

  // ---------------------------------------------------------------- one step

  lemma TerminalStays(tree: Tree, event: Event)
    requires IsTerminal(tree)
    ensures IsTerminal(Step(tree, event)) && Step(tree, event).book == tree.book
    ensures SignalsOf(tree.coordinator, event) == {}
  {
    ApplyTerminal(tree.coordinator, event);
  }

  lemma TerminateEnds(s: State, event: Event)
    requires event.Terminate?
    ensures Apply(s, event).status.Terminal?
  {
    RefuseAllEmpties(s.(status := Terminal));
  }

  lemma SignalledBy(s: State, manifestWritten: bool)
    requires !s.status.Terminal?
    ensures forall p :: p in MarkTerminal(s, manifestWritten).1 <==> manifestWritten && LivesInSlot(s, p)
  {
    RefuseAllKeepsSlots(s.(status := Terminal));
    forall p ensures p in Signalled(RefuseAll(s.(status := Terminal))) <==> LivesInSlot(s, p) {
      SignalledWrittenOut(RefuseAll(s.(status := Terminal)), p);
    }
  }

  lemma SignalledWrittenOut(s: State, p: Process)
    ensures p in Signalled(s) <==> LivesInSlot(s, p)
  {
    if p in Signalled(s) {
      var slot :| slot in s.active.Values + s.suspended.Values && slot.child == Some(p);
      if slot in s.active.Values {
        var t :| t in s.active && s.active[t] == slot;
      } else {
        var t :| t in s.suspended && s.suspended[t] == slot;
      }
    }
    if LivesInSlot(s, p) {
      if t: Token :| t in s.active && s.active[t].child == Some(p) {
        assert s.active[t] in s.active.Values;
      } else {
        var t: Token :| t in s.suspended && s.suspended[t].child == Some(p);
        assert s.suspended[t] in s.suspended.Values;
      }
    }
  }

  // ---------------------------------------------------------------- runs

  /** Once terminal, nobody is signalled and no child passes a launch gate any more. */
  lemma {:induction false} NothingAfterTheEnd(from: Tree, events: seq<Event>, to: Tree)
    requires IsTerminal(from) && Reaches(from, events, to)
    ensures Signals(from, events) == {} && IsTerminal(to) && to.book == from.book
    decreases |events|
  {
    hide Step, SignalsOf, IsTerminal;
    if events != [] {
      TerminalStays(from, events[0]);
      NothingAfterTheEnd(Step(from, events[0]), events[1..], to);
    }
  }

  /** Everyone signalled over a whole run is signalled by the event that makes the tree terminal. */
  lemma {:induction false} SignalledExactly(from: Tree, events: seq<Event>, to: Tree)
    requires !IsTerminal(from) && Kept(from) && Reaches(from, events, to)
    ensures IsTerminal(to) <==> Ending(from, events).Some?
    ensures match Ending(from, events)
            case None => Signals(from, events) == {}
            case Some((last, event)) =>
              && Kept(last) && !IsTerminal(last)
              && forall p :: p in Signals(from, events)
                             <==> event == Terminate(true) && LivesInSlot(last.coordinator, p)
    decreases |events|
  {
    hide Apply, Kept, LivesInSlot, MarkTerminal, Disciplined;
    if events != [] {
      var event := events[0];
      var next := Step(from, event);
      StepCustodyKept(from, event);
      if IsTerminal(next) {
        NothingAfterTheEnd(next, events[1..], to);
        if event.Terminate? {
          SignalledBy(from.coordinator, event.manifestWritten);
        }
      } else {
        if event.Terminate? {
          TerminateEnds(from.coordinator, event);
        }
        SignalledExactly(next, events[1..], to);
      }
    }
  }

  lemma StepCustodyKept(tree: Tree, event: Event)
    requires Kept(tree) && Disciplined(tree, event)
    ensures Kept(Step(tree, event))
  {
    StepCustody(tree, event);
  }

  /** A coordinator that holds nothing yet and is not terminal. */
  predicate Unused(s: State) {
    s.active == map[] && s.suspended == map[] && s.queue == [] && s.grants == map[] && !s.status.Terminal?
  }

  function Opened(s: State): Tree {
    Tree(s, Book(map[], map[], {}))
  }

  /**
   * Cancellation misses no launch, exactly.  In a run that ends a tree, a child that passed its
   * launch gate, lived and had an unreleased token when the tree became terminal is signalled in
   * the course of the run, if and only if what made the tree terminal was a termination whose
   * manifest could be written.  Exactly the living registered children of the slots there were
   * then are signalled, and no child passes its gate afterwards.
   */
  lemma CancellationExactly(s: State, events: seq<Event>, to: Tree, t: Token)
    requires Unused(s) && Reaches(Opened(s), events, to) && IsTerminal(to)
    ensures Ending(Opened(s), events).Some?
    ensures var (last, event) := Ending(Opened(s), events).value;
            && (t in last.book.occupant && t !in last.book.released
                && last.book.occupant[t] !in last.coordinator.dead ==>
                  (last.book.occupant[t] in Signals(Opened(s), events) <==> event == Terminate(true)))
            && (forall p :: p in Signals(Opened(s), events)
                            <==> event == Terminate(true) && LivesInSlot(last.coordinator, p))
            && to.book.occupant == Step(last, event).book.occupant
  {
    hide Step, LivesInSlot, MarkTerminal, Disciplined;
    FreshTreeKept(s);
    SignalledExactly(Opened(s), events, to);
    var (last, event) := Ending(Opened(s), events).value;
    BookAfterTheEnd(Opened(s), events, to);
    if t in last.book.occupant && t !in last.book.released && last.book.occupant[t] !in last.coordinator.dead {
      LaunchedIsSignalled(last, t, true);
      SignalledBy(last.coordinator, true);
    }
  }

  lemma {:induction false} BookAfterTheEnd(from: Tree, events: seq<Event>, to: Tree)
    requires !IsTerminal(from) && Reaches(from, events, to) && Ending(from, events).Some?
    ensures to.book == Step(Ending(from, events).value.0, Ending(from, events).value.1).book
    decreases |events|
  {
    hide Step, Disciplined;
    var next := Step(from, events[0]);
    if IsTerminal(next) {
      NothingAfterTheEnd(next, events[1..], to);
    } else {
      BookAfterTheEnd(next, events[1..], to);
    }
  }

  // ---------------------------------------------------------------- the failing runs

  const LAUNCH: seq<Event> := [
    Receive(Request(Authentic, 0, AcquireSlot(Some(0), 1))),
    Acknowledge(0, true),
    Receive(Request(Authentic, 1, RegisterLaunch(Some(0), Some(1))))
  ]

  /** An active coordinator in which nothing has happened. */
  const ACTIVE := State(Active, 0, map[], map[], [], None, Ledger(None, 0, None, None), map[], map[], {}, {}, [], 0, 0)

  lemma LaunchRuns() returns (to: Tree)
    ensures Reaches(Opened(ACTIVE), LAUNCH, to) && !IsTerminal(to)
    ensures to.book == Book(map[0 := Origin(0, 0)], map[0 := 1], {}) && to.coordinator.dead == {}
  {
    var t0 := Opened(ACTIVE);
    var t1 := Step(t0, LAUNCH[0]);
    var t2 := Step(t1, LAUNCH[1]);
    to := Step(t2, LAUNCH[2]);
    assert Reaches(to, [], to);
    assert LAUNCH[2..] == [LAUNCH[2]] && LAUNCH[1..][1..] == LAUNCH[2..] && LAUNCH[2..][1..] == [];
  }

  lemma {:induction false} RunsFurther(from: Tree, first: seq<Event>, middle: Tree, second: seq<Event>, to: Tree)
    requires Reaches(from, first, middle) && Reaches(middle, second, to) && !IsTerminal(middle)
    ensures Reaches(from, first + second, to) && !IsTerminal(from)
    ensures Ending(from, first + second) == Ending(middle, second)
    decreases |first|
  {
    hide Step, Disciplined;
    if first == [] {
      assert first + second == second;
    } else {
      assert (first + second)[1..] == first[1..] + second;
      RunsFurther(Step(from, first[0]), first[1..], middle, second, to);
      if IsTerminal(from) {
        TerminalStays(from, first[0]);
      }
    }
  }

  /**
   * A child that was launched and lives on unsignalled: the server failed, or the manifest could
   * not be written, before the tree was terminated in earnest.
   */
  lemma LaunchedButNotSignalled(cut: Event) returns (to: Tree)
    requires cut == ServerError || cut == Terminate(false)
    ensures var events := LAUNCH + [cut, Terminate(true)];
            && Reaches(Opened(ACTIVE), events, to) && IsTerminal(to) && Signals(Opened(ACTIVE), events) == {}
            && 0 in to.book.occupant && 0 !in to.book.released && to.book.occupant[0] !in to.coordinator.dead
  {
    var middle := LaunchRuns();
    var next := Step(middle, cut);
    to := Step(next, Terminate(true));
    CutEnds(middle.coordinator, cut);
    TerminalStays(next, Terminate(true));
    assert Reaches(to, [], to);
    assert [cut, Terminate(true)][1..] == [Terminate(true)] && [Terminate(true)][1..] == [];
    assert Reaches(next, [Terminate(true)], to);
    assert Reaches(middle, [cut, Terminate(true)], to);
    FreshTreeKept(ACTIVE);
    hide Reaches, Signals;
    assert Ending(middle, [cut, Terminate(true)]) == Some((middle, cut));
    RunsFurther(Opened(ACTIVE), LAUNCH, middle, [cut, Terminate(true)], to);
    SignalledExactly(Opened(ACTIVE), LAUNCH + [cut, Terminate(true)], to);
  }

  lemma CutEnds(s: State, cut: Event)
    requires cut == ServerError || cut == Terminate(false)
    ensures Apply(s, cut).status.Terminal? && Apply(s, cut).dead == s.dead
    ensures Apply(Apply(s, cut), Terminate(true)).dead == s.dead
  {
    RefuseAllEmpties(s.(status := Terminal));
    RefuseAllKeepsSlots(s.(status := Terminal));
  }
}
