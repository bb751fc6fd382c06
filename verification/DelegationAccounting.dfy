/**
 * How one process shares its inherited slot among nested delegations (concurrency.ts):
 * the slot is given up for the first delegation and asked back after the last.  Transitions
 * are serialized; each request to the coordinator may get lost, or its answer may.
 */
module DelegationAccounting {
  import opened Wrappers

  /** Lost: the request had no effect.  ReplyLost: it had, but the caller sees a failure. */
  datatype Outcome = Answered | Lost | ReplyLost

  datatype Request = SuspendSlot | ResumeSlot

  datatype Suspension = Suspension(participates: bool, released: bool, resumed: bool)

  /** `slotActive`: where the coordinator has the inherited token. */
  datatype Process = Process(
    inherits: bool,
    nested: int,
    suspensions: seq<Suspension>,
    slotActive: bool,
    requests: seq<Request>)

  datatype Failure = CoordinatorError | Underflow

  datatype Operation = Suspend(outcome: Outcome) | Resume(index: nat, outcome: Outcome)

  function Initial(inherits: bool): Process {
    Process(inherits, 0, [], inherits, [])
  }

  /** The new process state, and whether the caller got a suspension. */
  function Suspended(p: Process, outcome: Outcome): (Process, bool) {
    if !p.inherits then (p.(suspensions := p.suspensions + [Suspension(false, false, false)]), true)
    else
      var joined := p.(nested := p.nested + 1, suspensions := p.suspensions + [Suspension(true, false, false)]);
      if p.nested != 0 then (joined, true)
      else
        var asked := p.(requests := p.requests + [SuspendSlot]);
        if !p.slotActive || outcome.Lost? then (asked, false)
        else if outcome.ReplyLost? then (asked.(slotActive := false), false)
        else (joined.(requests := asked.requests, slotActive := false), true)
  }

  /** The new process state, and the failure the caller sees. */
  function Resumed(p: Process, i: nat, outcome: Outcome): (Process, Option<Failure>)
    requires i < |p.suspensions|
  {
    var s := p.suspensions[i];
    var done := p.suspensions[i := s.(resumed := true)];
    if s.resumed then (p, None)
    else if !s.participates || !p.inherits then (p.(suspensions := done), None)
    else
      var left := if s.released then p else p.(nested := p.nested - 1, suspensions :=
                                               p.suspensions[i := s.(released := true)]);
      if !s.released && left.nested < 0 then (left, Some(Underflow))
      else
        var restored := left.suspensions[i := Suspension(true, true, true)];
        if left.nested != 0 then (left.(suspensions := restored), None)
        else
          var asked := left.(requests := left.requests + [ResumeSlot]);
          if left.slotActive || outcome.Lost? then (asked, Some(CoordinatorError))
          else if outcome.ReplyLost? then (asked.(slotActive := true), Some(CoordinatorError))
          else (asked.(slotActive := true, suspensions := restored), None)
  }

  function Applied(p: Process, op: Operation): Process {
    match op
    case Suspend(outcome) => Suspended(p, outcome).0
    case Resume(i, outcome) => if i < |p.suspensions| then Resumed(p, i, outcome).0 else p
  }

  function Run(p: Process, ops: seq<Operation>): Process
    decreases |ops|
  {
    if ops == [] then p else Applied(Run(p, ops[..|ops| - 1]), ops[|ops| - 1])
  }

  // ---------------------------------------------------------------- the counter

  predicate Holding(s: Suspension) {
    s.participates && !s.released
  }

  function HoldingCount(suspensions: seq<Suspension>): nat {
    if suspensions == [] then 0
    else HoldingCount(suspensions[..|suspensions| - 1]) + if Holding(suspensions[|suspensions| - 1]) then 1 else 0
  }

  lemma {:induction false} CountUpdate(suspensions: seq<Suspension>, i: nat, s: Suspension)
    requires i < |suspensions|
    ensures HoldingCount(suspensions[i := s])
            == HoldingCount(suspensions) - (if Holding(suspensions[i]) then 1 else 0) + (if Holding(s) then 1 else 0)
    decreases |suspensions|
  {
    var last := |suspensions| - 1;
    if i == last {
      assert suspensions[i := s][..last] == suspensions[..last];
    } else {
      assert suspensions[i := s][..last] == suspensions[..last][i := s];
      CountUpdate(suspensions[..last], i, s);
    }
  }

  lemma CountAppend(suspensions: seq<Suspension>, s: Suspension)
    ensures HoldingCount(suspensions + [s]) == HoldingCount(suspensions) + if Holding(s) then 1 else 0
  {
    assert (suspensions + [s])[..|suspensions|] == suspensions;
  }

  /** The counter counts the participating suspensions that have not released theirs. */
  ghost predicate Counted(p: Process) {
    && p.nested == HoldingCount(p.suspensions)
    && (forall i | 0 <= i < |p.suspensions| ::
          && (p.suspensions[i].participates ==> p.inherits)
          && (p.suspensions[i].participates && p.suspensions[i].resumed ==> p.suspensions[i].released))
  }

  lemma SuspendCounted(p: Process, outcome: Outcome)
    requires Counted(p)
    ensures Counted(Suspended(p, outcome).0)
  {
    CountAppend(p.suspensions, Suspension(true, false, false));
    CountAppend(p.suspensions, Suspension(false, false, false));
  }

  /** A suspension is counted down once, and never below zero. */
  lemma ResumeCounted(p: Process, i: nat, outcome: Outcome)
    requires Counted(p) && i < |p.suspensions|
    ensures Counted(Resumed(p, i, outcome).0) && Resumed(p, i, outcome).1 != Some(Underflow)
    ensures Resumed(p, i, outcome).0.nested == p.nested - (if Holding(p.suspensions[i]) then 1 else 0)
  {
    var s := p.suspensions[i];
    CountUpdate(p.suspensions, i, s.(resumed := true));
    CountUpdate(p.suspensions, i, s.(released := true));
    var left := p.suspensions[i := s.(released := true)];
    CountUpdate(left, i, Suspension(true, true, true));
    CountUpdate(p.suspensions, i, Suspension(true, true, true));
  }

  /** The suspend request goes out exactly when the counter is zero, so on the step from zero to one. */
  lemma SuspendSentOnFirst(p: Process, outcome: Outcome)
    requires Counted(p)
    ensures var (after, ok) := Suspended(p, outcome);
            && (after.requests == p.requests + [SuspendSlot] <==> p.inherits && p.nested == 0)
            && (after.requests != p.requests + [SuspendSlot] ==> after.requests == p.requests)
            && (ok && p.inherits ==> after.nested == p.nested + 1)
            && (!ok ==> after.nested == p.nested && after.suspensions == p.suspensions)
  {
    assert |p.requests + [SuspendSlot]| == |p.requests| + 1;
  }

  // ---------------------------------------------------------------- the slot

  /** Counted down, but the slot is not known to be back. */
  predicate Pending(s: Suspension) {
    s.participates && s.released && !s.resumed
  }

  predicate NonePending(p: Process) {
    forall i | 0 <= i < |p.suspensions| :: !Pending(p.suspensions[i])
  }

  /** While delegations run the slot is given up; when none runs and none is pending it is held. */
  ghost predicate SlotAccounted(p: Process) {
    && (p.nested > 0 ==> !p.slotActive)
    && (p.inherits && p.nested == 0 && NonePending(p) ==> p.slotActive)
  }

  /** The answer to an effective suspend request is lost, and nobody is left who retries a resume. */
  predicate Strands(p: Process, op: Operation) {
    op == Suspend(ReplyLost) && p.inherits && p.nested == 0 && p.slotActive && NonePending(p)
  }

  lemma ApplyAccounted(p: Process, op: Operation)
    requires Counted(p) && SlotAccounted(p) && !Strands(p, op)
    ensures Counted(Applied(p, op)) && SlotAccounted(Applied(p, op))
  {
    match op
    case Suspend(outcome) =>
      SuspendCounted(p, outcome);
      var after := Suspended(p, outcome).0;
      if after.suspensions != p.suspensions {
        assert forall i | 0 <= i < |p.suspensions| :: after.suspensions[i] == p.suspensions[i];
      }
    case Resume(i, outcome) =>
      if i < |p.suspensions| {
        ResumeCounted(p, i, outcome);
        ResumeAccounted(p, i, outcome);
      }
  }

  lemma ResumeAccounted(p: Process, i: nat, outcome: Outcome)
    requires Counted(p) && SlotAccounted(p) && i < |p.suspensions|
    ensures SlotAccounted(Resumed(p, i, outcome).0)
  {
    ResumeCounted(p, i, outcome);
    var after := Resumed(p, i, outcome).0;
    assert forall j | 0 <= j < |p.suspensions| && j != i :: after.suspensions[j] == p.suspensions[j];
    assert after.suspensions[i].participates == p.suspensions[i].participates;
    if p.suspensions[i].participates && !p.suspensions[i].resumed {
      assert after.suspensions[i].released;
      assert Pending(after.suspensions[i]) || after.suspensions[i].resumed;
    }
  }

  predicate AllResumed(p: Process) {
    forall i | 0 <= i < |p.suspensions| :: p.suspensions[i].resumed
  }

  ghost predicate NeverStrands(inherits: bool, ops: seq<Operation>) {
    forall k | 0 <= k < |ops| :: !Strands(Run(Initial(inherits), ops[..k]), ops[k])
  }

  lemma {:induction false} RunCounted(inherits: bool, ops: seq<Operation>)
    ensures var p := Run(Initial(inherits), ops); Counted(p) && p.inherits == inherits
    decreases |ops|
  {
    if ops != [] {
      var (before, last) := (Run(Initial(inherits), ops[..|ops| - 1]), ops[|ops| - 1]);
      RunCounted(inherits, ops[..|ops| - 1]);
      match last
      case Suspend(outcome) => SuspendCounted(before, outcome);
      case Resume(i, outcome) =>
        if i < |before.suspensions| {
          ResumeCounted(before, i, outcome);
        }
    }
  }

  lemma {:induction false} RunAccounted(inherits: bool, ops: seq<Operation>)
    requires NeverStrands(inherits, ops)
    ensures SlotAccounted(Run(Initial(inherits), ops))
    decreases |ops|
  {
    if ops != [] {
      var front := ops[..|ops| - 1];
      assert forall k | 0 <= k < |front| :: front[..k] == ops[..k];
      RunAccounted(inherits, front);
      RunCounted(inherits, front);
      ApplyAccounted(Run(Initial(inherits), front), ops[|ops| - 1]);
    }
  }

  lemma {:induction false} NoneHolding(suspensions: seq<Suspension>)
    requires forall i | 0 <= i < |suspensions| :: !Holding(suspensions[i])
    ensures HoldingCount(suspensions) == 0
    decreases |suspensions|
  {
    if suspensions != [] {
      NoneHolding(suspensions[..|suspensions| - 1]);
    }
  }

  lemma {:induction false} NotInherited(inherits: bool, ops: seq<Operation>)
    ensures Run(Initial(inherits), ops).inherits == inherits
    ensures !inherits ==> !Run(Initial(inherits), ops).slotActive
    decreases |ops|
  {
    if ops != [] {
      NotInherited(inherits, ops[..|ops| - 1]);
    }
  }

  /** The slot is suspended, nobody counts and nobody is left to ask for it. */
  predicate Stranded(p: Process) {
    && p.inherits && p.nested == 0 && !p.slotActive
    && forall i | 0 <= i < |p.suspensions| && p.suspensions[i].participates :: p.suspensions[i].resumed
  }

  lemma StrandedStays(p: Process, op: Operation)
    requires Stranded(p)
    ensures Stranded(Applied(p, op))
  {
  }

  lemma {:induction false} NoneCounted(suspensions: seq<Suspension>, i: nat)
    requires HoldingCount(suspensions) == 0 && i < |suspensions|
    ensures !Holding(suspensions[i])
    decreases |suspensions|
  {
    if i < |suspensions| - 1 {
      NoneCounted(suspensions[..|suspensions| - 1], i);
    }
  }

  lemma StrandsNow(p: Process, op: Operation)
    requires Counted(p) && Strands(p, op)
    ensures Stranded(Applied(p, op))
  {
    forall i | 0 <= i < |p.suspensions| && p.suspensions[i].participates ensures p.suspensions[i].resumed {
      NoneCounted(p.suspensions, i);
      assert !Pending(p.suspensions[i]);
    }
  }

  lemma StrandsByTheLast(inherits: bool, ops: seq<Operation>)
    requires ops != []
    ensures var front := ops[..|ops| - 1];
            NeverStrands(inherits, ops)
            <==> NeverStrands(inherits, front) && !Strands(Run(Initial(inherits), front), ops[|ops| - 1])
  {
    hide Strands, Run;
    var front := ops[..|ops| - 1];
    assert forall k | 0 <= k < |front| :: front[..k] == ops[..k] && front[k] == ops[k];
  }

  lemma NothingStrands(inherits: bool)
    ensures NeverStrands(inherits, [])
  {
  }

  /** One lost answer at such a moment strands the slot for good. */
  lemma {:induction false} LostReplyStrands(inherits: bool, ops: seq<Operation>)
    requires !NeverStrands(inherits, ops)
    ensures Stranded(Run(Initial(inherits), ops))
    decreases |ops|
  {
    assert ops != [] by { NothingStrands(inherits); }
    hide NeverStrands, Applied, Strands, Stranded, Counted;
    var front := ops[..|ops| - 1];
    StrandsByTheLast(inherits, ops);
    if NeverStrands(inherits, front) {
      RunCounted(inherits, front);
      StrandsNow(Run(Initial(inherits), front), ops[|ops| - 1]);
    } else {
      LostReplyStrands(inherits, front);
      StrandedStays(Run(Initial(inherits), front), ops[|ops| - 1]);
    }
  }

  /**
   * After every suspension has been resumed the counter is zero, and the inherited slot is
   * active again if and only if no answer to a suspend request was lost at a moment when no
   * other suspension was still waiting to retry its resume.  Everything else that gets lost
   * and is retried on the way does no harm.
   */
  lemma SlotComesBackExactly(inherits: bool, ops: seq<Operation>)
    requires AllResumed(Run(Initial(inherits), ops))
    ensures var p := Run(Initial(inherits), ops);
            p.nested == 0 && (p.slotActive == inherits <==> NeverStrands(inherits, ops))
  {
    RunCounted(inherits, ops);
    NoneHolding(Run(Initial(inherits), ops).suspensions);
    NotInherited(inherits, ops);
    if NeverStrands(inherits, ops) {
      RunAccounted(inherits, ops);
    } else {
      LostReplyStrands(inherits, ops);
    }
  }

  // ---------------------------------------------------------------- the module state

  class Delegations {
    const inherits: bool
    var nestedDelegations: int
    var suspensions: seq<Suspension>
    var slotActive: bool
    var requests: seq<Request>

    ghost function View(): Process
      reads this
    {
      Process(inherits, nestedDelegations, suspensions, slotActive, requests)
    }

    constructor (inherits: bool)
      ensures View() == Initial(inherits)
    {
      this.inherits := inherits;
      nestedDelegations, suspensions, slotActive, requests := 0, [], inherits, [];
    }

    /** Sends one request to the coordinator, which refuses what does not fit the slot's place. */
    method Ask(request: Request, outcome: Outcome) returns (answered: bool)
      modifies this`requests, this`slotActive
      ensures requests == old(requests) + [request]
      ensures var fits := old(slotActive) == request.SuspendSlot?;
              && slotActive == (if fits && !outcome.Lost? then request.ResumeSlot? else old(slotActive))
              && (answered <==> fits && outcome.Answered?)
    {
      requests := requests + [request];
      if slotActive != request.SuspendSlot? || outcome.Lost? {
        return false;
      }
      slotActive := request.ResumeSlot?;
      return outcome.Answered?;
    }

    method SuspendInherited(outcome: Outcome) returns (ok: bool)
      modifies this
      ensures (View(), ok) == Suspended(old(View()), outcome)
    {
      var participates := false;
      if inherits {
        if nestedDelegations == 0 {
          var answered := Ask(SuspendSlot, outcome);
          if !answered {
            return false;
          }
        }
        nestedDelegations := nestedDelegations + 1;
        participates := true;
      }
      suspensions := suspensions + [Suspension(participates, false, false)];
      return true;
    }

    method ResumeSuspension(i: nat, outcome: Outcome) returns (failure: Option<Failure>)
      requires i < |suspensions|
      modifies this
      ensures (View(), failure) == Resumed(old(View()), i, outcome)
    {
      var s := suspensions[i];
      if s.resumed {
        return None;
      }
      if !s.participates || !inherits {
        suspensions := suspensions[i := s.(resumed := true)];
        return None;
      }
      if !s.released {
        nestedDelegations := nestedDelegations - 1;
        s := s.(released := true);
        suspensions := suspensions[i := s];
        if nestedDelegations < 0 {
          return Some(Underflow);
        }
      }
      if nestedDelegations == 0 {
        var answered := Ask(ResumeSlot, outcome);
        if !answered {
          return Some(CoordinatorError);
        }
      }
      suspensions := suspensions[i := s.(resumed := true)];
      return None;
    }
  }

  // ---------------------------------------------------------------- one transition, exactly

  /** No suspension but this one still counts. */
  predicate NoOtherHolding(suspensions: seq<Suspension>, i: nat) {
    forall j | 0 <= j < |suspensions| && j != i :: !Holding(suspensions[j])
  }

  lemma {:induction false} SomeHolding(suspensions: seq<Suspension>)
    requires HoldingCount(suspensions) > 0
    ensures exists i | 0 <= i < |suspensions| :: Holding(suspensions[i])
    decreases |suspensions|
  {
    var front := suspensions[..|suspensions| - 1];
    if !Holding(suspensions[|suspensions| - 1]) {
      SomeHolding(front);
      var i :| 0 <= i < |front| && Holding(front[i]);
      assert Holding(suspensions[i]);
    }
  }

  lemma CountAround(suspensions: seq<Suspension>, i: nat)
    requires i < |suspensions|
    ensures NoOtherHolding(suspensions, i) <==> HoldingCount(suspensions) == if Holding(suspensions[i]) then 1 else 0
  {
    var without := suspensions[i := Suspension(false, false, false)];
    CountUpdate(suspensions, i, Suspension(false, false, false));
    assert forall j | 0 <= j < |suspensions| && j != i :: without[j] == suspensions[j];
    if HoldingCount(without) > 0 {
      SomeHolding(without);
    } else {
      forall j | 0 <= j < |without| ensures !Holding(without[j]) {
        NoneCounted(without, j);
      }
    }
  }

  /**
   * Giving the slot up: asked of the coordinator only while no other suspension counts, refused
   * to the caller unless the answer comes, and the slot goes whenever the request arrives.
   */
  lemma SuspendExactly(p: Process, outcome: Outcome)
    requires Counted(p)
    ensures var (after, ok) := Suspended(p, outcome);
            var asks := p.inherits && forall j | 0 <= j < |p.suspensions| :: !Holding(p.suspensions[j]);
            && after.requests == p.requests + (if asks then [SuspendSlot] else [])
            && (ok <==> !asks || (p.slotActive && outcome.Answered?))
            && after.suspensions == p.suspensions + (if ok then [Suspension(p.inherits, false, false)] else [])
            && after.slotActive == (p.slotActive && (!asks || outcome.Lost?)) && after.inherits == p.inherits
  {
    if HoldingCount(p.suspensions) > 0 {
      SomeHolding(p.suspensions);
    }
    forall j | 0 <= j < |p.suspensions| ensures p.nested == 0 ==> !Holding(p.suspensions[j]) {
      if p.nested == 0 {
        NoneCounted(p.suspensions, j);
      }
    }
    assert p.requests + [] == p.requests && p.suspensions + [] == p.suspensions;
  }

  /**
   * Taking the slot back: asked of the coordinator only by the last suspension that counts, each
   * time it is retried until an answer comes; the others are untouched, and every suspension
   * stops counting the first time it is resumed.
   */
  lemma ResumeExactly(p: Process, i: nat, outcome: Outcome)
    requires Counted(p) && i < |p.suspensions|
    ensures var (after, failure) := Resumed(p, i, outcome);
            var s := p.suspensions[i];
            var open := s.participates && !s.resumed;
            var asks := open && NoOtherHolding(p.suspensions, i);
            && after.requests == p.requests + (if asks then [ResumeSlot] else [])
            && failure == (if asks && (p.slotActive || !outcome.Answered?) then Some(CoordinatorError) else None)
            && after.slotActive == (p.slotActive || (asks && !outcome.Lost?)) && after.inherits == p.inherits
            && |after.suspensions| == |p.suspensions|
            && (forall j | 0 <= j < |p.suspensions| && j != i :: after.suspensions[j] == p.suspensions[j])
            && after.suspensions[i] == Suspension(s.participates, s.released || open, failure.None?)
  {
    CountAround(p.suspensions, i);
    ResumeCounted(p, i, outcome);
    assert p.requests + [] == p.requests;
  }
}
