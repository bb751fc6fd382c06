/**
 * What the lease records of an implementer say over its whole life, and what a recovery makes
 * of them (workspace-policy.ts, implementer-recovery/): the commit they name, the states they
 * go through, the index they own, and exactly when an undisturbed recovery completes.
 */
module ImplementerRecovery {
  import opened Wrappers
  import opened ApplyOrder
  import opened ImplementScope
  import opened ImplementerLifecycle

  // ---------------------------------------------------------------- what the records say

  /** A record claims no more than is so: the commit is the ref's, and what is removed is gone. */
  predicate Truthful(ref: Option<CommitId>, checkout: Checkout, r: Record) {
    && (r.attemptCommit.Some? ==> r.attemptCommit == ref)
    && (r.state.RefVerified? ==> r.attemptCommit.Some?)
    && (r.state.WorktreeRemoved? ==> ref.Some? && checkout.Absent?)
    && (!r.state.Reserved? ==> r.identified)
  }

  /** A later record takes nothing back. */
  predicate Follows(earlier: Record, later: Record) {
    && (later.state.Reserved? ==> earlier.state.Reserved?)
    && (earlier.indexOwned ==> later.indexOwned)
    && (earlier.attemptCommit.Some? ==> later.attemptCommit.Some?)
  }

  /** Nobody had verified the ref on record before the checkout was removed. */
  ghost predicate Unverified(history: set<Record>, r: Record) {
    exists before <- history :: before.state.WorktreeReady? && before.revision + 1 == r.revision
  }

  predicate Removing(step: Step) {
    step.BeginRemoval? || step.FinishRemoval?
  }

  predicate Discarding(step: Step) {
    step.DiscardCheckout? || step.DiscardFinish?
  }

  predicate Snapshotting(step: Step) {
    step.Capture? || step.MakeCommit? || step.CheckScope? || step.CreateRef?
  }

  predicate Published(step: Step) {
    step.VerifyRef? || step.PersistVerified?
  }

  predicate UsesIndex(step: Step, owner: bool) {
    Snapshotting(step) || Published(step) || step.Compare? || (owner && step.CheckWorktree?)
  }

  predicate AfterVerified(step: Step) {
    step.CheckWorktree? || step.Compare? || Removing(step) || step.PersistRemoved?
  }

  predicate StepBooked(proc: Proc, ref: Option<CommitId>, lease: Option<Record>, checkout: Checkout) {
    proc.Busy? ==>
      var step := proc.step;
      && (Removing(step) || Discarding(step) ==> checkout.Present?)
      && (step.PersistRemoved? ==> checkout.Absent?)
      && (Removing(step) || step.PersistRemoved? ==> ref == Some(proc.commit))
      && (lease.Some? ==>
            && (step.OwnIndex? || Snapshotting(step) ==> !lease.value.state.Reserved?)
            && (UsesIndex(step, proc.actor.Owner?) ==> lease.value.indexOwned)
            && (step.PersistRemoved? ==> !lease.value.state.WorktreeRemoved?)
            && (proc.actor.Owner? && AfterVerified(step) ==> lease.value.attemptCommit.Some?))
  }

  ghost predicate HistoryTruthful(history: set<Record>, ref: Option<CommitId>, checkout: Checkout) {
    forall r <- history ::
      Truthful(ref, checkout, r) && (r.state.WorktreeRemoved? && r.attemptCommit.None? ==> Unverified(history, r))
  }

  predicate LeaseIsLatest(lease: Option<Record>, history: set<Record>, proc: Proc) {
    && (lease.Some? ==> lease.value in history && forall r <- history :: Follows(r, lease.value))
    && (proc.Busy? && proc.actor.Rescuer? ==> proc.actor.record in history)
  }

  /** A lease in the books is set up before it is handed over or published, and owns an index it changed. */
  predicate LeaseExplains(w: World) {
    w.lease.Some? ==>
      && (w.repo.ref.Some? || w.life.handedOver ==> !w.lease.value.state.Reserved?)
      && (w.checkout.Present? && w.index != BaselineTree(w.repo) ==> w.lease.value.indexOwned)
  }

  ghost predicate Booked(w: World) {
    && HistoryTruthful(w.history, w.repo.ref, w.checkout) && LeaseIsLatest(w.lease, w.history, w.proc)
    && LeaseExplains(w) && StepBooked(w.proc, w.repo.ref, w.lease, w.checkout)
  }

  // ---------------------------------------------------------------- every step keeps it

  lemma StopBooked(w: World)
    requires Booked(w)
    ensures Booked(Stop(w))
  {
    hide HistoryTruthful, BaselineTree;
  }

  lemma HistoryGrows(history: set<Record>, ref: Option<CommitId>, checkout: Checkout, r: Record)
    requires HistoryTruthful(history, ref, checkout) && Truthful(ref, checkout, r)
    requires r.state.WorktreeRemoved? && r.attemptCommit.None? ==> Unverified(history, r)
    ensures HistoryTruthful(history + {r}, ref, checkout)
  {
    forall s <- history + {r} | s.state.WorktreeRemoved? && s.attemptCommit.None?
      ensures Unverified(history + {r}, s)
    {
      assert Unverified(history, s);
    }
  }

  lemma LatestGrows(lease: Record, history: set<Record>, r: Record)
    requires lease in history && (forall s <- history :: Follows(s, lease)) && Follows(lease, r)
    ensures forall s <- history + {r} :: Follows(s, r)
  {
  }

  /** A record written over the one before it keeps the books. */
  lemma PersistBooked(w: World, record: Record, step: Step)
    requires Booked(w) && Remembered(w).Some?
    requires w.lease == Remembered(w) ==>
               && Follows(Remembered(w).value, record) && Truthful(w.repo.ref, w.checkout, record)
               && (record.state.WorktreeRemoved? && record.attemptCommit.None? ==>
                     record.revision == Remembered(w).value.revision && Remembered(w).value.state.WorktreeReady?)
               && StepBooked(To(w, step).proc, w.repo.ref, Some(record), w.checkout)
    ensures Booked(Persist(w, record, step))
  {
    hide HistoryTruthful, BaselineTree, Follows, Truthful, StepBooked;
    if w.lease == Remembered(w) {
      TruthfulAnyRevision(w.repo.ref, w.checkout, record);
      var next := record.(revision := record.revision + 1);
      LatestGrows(w.lease.value, w.history, next) by {
        FollowsAnyRevision(w.lease.value, record);
      }
      HistoryGrows(w.history, w.repo.ref, w.checkout, next);
      NextExplains(w.lease.value, record);
      StepBookedAnyRevision(To(w, step).proc, w.repo.ref, record, w.checkout, next);
    } else {
      StopBooked(w);
    }
  }

  lemma StepBookedAnyRevision(proc: Proc, ref: Option<CommitId>, record: Record, checkout: Checkout, next: Record)
    requires StepBooked(proc, ref, Some(record), checkout) && next == record.(revision := record.revision + 1)
    ensures StepBooked(proc, ref, Some(next), checkout)
    ensures proc.Busy? && proc.actor.Rescuer? ==>
              StepBooked(proc.(actor := Rescuer(next)), ref, Some(next), checkout)
  {
  }

  lemma FollowsAnyRevision(earlier: Record, later: Record)
    requires Follows(earlier, later)
    ensures Follows(earlier, later.(revision := later.revision + 1))
  {
  }

  lemma TruthfulAnyRevision(ref: Option<CommitId>, checkout: Checkout, r: Record)
    ensures Truthful(ref, checkout, r.(revision := r.revision + 1)) == Truthful(ref, checkout, r)
  {
  }

  lemma NextExplains(earlier: Record, later: Record)
    requires Follows(earlier, later)
    ensures earlier.indexOwned ==> later.indexOwned
    ensures later.state.Reserved? ==> earlier.state.Reserved?
  {
  }

  lemma RememberedBooked(w: World)
    requires Booked(w) && Remembered(w).Some?
    ensures Remembered(w).value in w.history && Truthful(w.repo.ref, w.checkout, Remembered(w).value)
    ensures w.lease.Some? ==> Follows(Remembered(w).value, w.lease.value)
  {
    hide BaselineTree;
  }

  lemma MoveBooked(w: World, step: Step)
    requires Booked(w) && StepBooked(To(w, step).proc, w.repo.ref, w.lease, w.checkout)
    ensures Booked(To(w, step))
  {
    hide HistoryTruthful, BaselineTree, StepBooked;
  }

  lemma OwnIndexBooked(w: World)
    requires Booked(w) && w.proc.Busy? && w.proc.step.OwnIndex?
    ensures Booked(IndexOwned(w))
  {
    hide HistoryTruthful, BaselineTree, InScope, Persist, LeaseIsLatest;
    StopBooked(w);
    if Remembered(w).Some? {
      RememberedBooked(w);
      if w.checkout.Present? {
        PersistBooked(w, Remembered(w).value.(indexOwned := true), Capture);
        if Remembered(w).value.indexOwned {
          MoveBooked(w, Capture);
        }
      }
    }
  }

  lemma CheckWorktreeBooked(w: World)
    requires Booked(w) && w.proc.Busy? && w.proc.step.CheckWorktree?
    ensures Booked(WorktreeChecked(w))
  {
    hide HistoryTruthful, BaselineTree, InScope, Persist, LeaseIsLatest;
    StopBooked(w);
    if Remembered(w).Some? {
      RememberedBooked(w);
      if w.checkout.Present? {
        PersistBooked(w, Remembered(w).value.(indexOwned := true), Compare);
        if w.proc.actor.Owner? || Remembered(w).value.indexOwned {
          MoveBooked(w, Compare);
        }
      }
    }
  }

  lemma PersistVerifiedBooked(w: World, leftover: Content)
    requires Invariant(w) && Booked(w) && w.proc.Busy? && w.proc.step.PersistVerified?
    ensures Booked(Advanced(w, leftover))
  {
    hide HistoryTruthful, BaselineTree, InScope, Persist, LeaseIsLatest, RepoSound, BooksSound, Safe;
    StopBooked(w);
    if Remembered(w).Some? {
      RememberedBooked(w);
      PersistBooked(w, Remembered(w).value.(state := RefVerified, attemptCommit := Some(w.proc.commit)), CheckWorktree);
    }
  }

  lemma PersistRemovedBooked(w: World, leftover: Content)
    requires Booked(w) && w.proc.Busy? && w.proc.step.PersistRemoved?
    ensures Booked(Advanced(w, leftover))
  {
    hide HistoryTruthful, BaselineTree, InScope, Persist, LeaseIsLatest;
    StopBooked(w);
    if Remembered(w).Some? {
      RememberedBooked(w);
      PersistBooked(w, Remembered(w).value.(state := WorktreeRemoved), Retire);
    }
  }

  lemma VerifyBooked(w: World, leftover: Content)
    requires Invariant(w) && Booked(w) && w.proc.Busy? && w.proc.step.Verify?
    ensures Booked(Advanced(w, leftover))
  {
    hide HistoryTruthful, BaselineTree, InScope, RepoSound, Safe, StepSound;
    if w.proc.actor.Rescuer? {
      RememberedBooked(w);
    }
  }

  /** Removal and discarding leave no record that says removed while the checkout is there. */
  lemma CheckoutReplaced(history: set<Record>, ref: Option<CommitId>, checkout: Checkout, next: Checkout)
    requires HistoryTruthful(history, ref, checkout) && checkout.Present?
    ensures HistoryTruthful(history, ref, next)
    ensures forall r <- history :: !r.state.WorktreeRemoved?
  {
  }

  lemma RefCreated(history: set<Record>, checkout: Checkout, commit: CommitId)
    requires HistoryTruthful(history, None, checkout)
    ensures HistoryTruthful(history, Some(commit), checkout)
  {
  }

  lemma RemovalBooked(w: World, leftover: Content)
    requires Booked(w) && w.proc.Busy? && (Removing(w.proc.step) || Discarding(w.proc.step))
    ensures Booked(Advanced(w, leftover))
  {
    hide HistoryTruthful, BaselineTree, Follows;
    CheckoutReplaced(w.history, w.repo.ref, w.checkout, Present(leftover));
    CheckoutReplaced(w.history, w.repo.ref, w.checkout, Absent);
  }

  lemma CaptureBooked(w: World, leftover: Content)
    requires Booked(w) && w.proc.Busy?
    requires w.proc.step.Capture? || w.proc.step.CheckScope? || w.proc.step.VerifyRef? || w.proc.step.Retire?
    ensures Booked(Advanced(w, leftover))
  {
    hide HistoryTruthful, BaselineTree, Follows, InScope;
  }

  lemma CommitBooked(w: World, leftover: Content)
    requires Invariant(w) && Booked(w) && w.proc.Busy?
    requires w.proc.step.MakeCommit? || w.proc.step.CreateRef? || w.proc.step.Compare?
    ensures Booked(Advanced(w, leftover))
  {
    hide HistoryTruthful, BaselineTree, Follows, InScope, WithCommit;
    if w.proc.step.MakeCommit? {
      NewCommitKeeps(w.repo, w.proc.snapshot);
    } else if w.proc.step.CreateRef? && w.repo.ref.None? {
      RefCreated(w.history, w.checkout, w.proc.commit);
      SameBaseline(w.repo, Some(w.proc.commit));
    }
  }

  lemma SameBaseline(repo: Repo, ref: Option<CommitId>)
    ensures BaselineTree(repo.(ref := ref)) == BaselineTree(repo)
  {
  }

  lemma AdvanceBooked(w: World, leftover: Content)
    requires Invariant(w) && Booked(w) && w.proc.Busy?
    ensures Booked(Advanced(w, leftover))
  {
    match w.proc.step
    case Verify => VerifyBooked(w, leftover);
    case OwnIndex => OwnIndexBooked(w);
    case Capture => CaptureBooked(w, leftover);
    case MakeCommit => CommitBooked(w, leftover);
    case CheckScope => CaptureBooked(w, leftover);
    case CreateRef => CommitBooked(w, leftover);
    case VerifyRef => CaptureBooked(w, leftover);
    case PersistVerified => PersistVerifiedBooked(w, leftover);
    case CheckWorktree => CheckWorktreeBooked(w);
    case Compare => CommitBooked(w, leftover);
    case PersistRemoved => PersistRemovedBooked(w, leftover);
    case Retire => CaptureBooked(w, leftover);
    case _ => RemovalBooked(w, leftover);
    hide Invariant, Booked, Advanced;
  }

  lemma SetupBooked(w: World, event: Event)
    requires Booked(w) && Enabled(w, event)
    requires event.RecordLocation? || event.PersistReady? || event.Launch?
    ensures Booked(Next(w, event))
  {
    hide HistoryTruthful, BaselineTree, Persist, LeaseIsLatest;
    RememberedBooked(w);
    if event.RecordLocation? {
      PersistBooked(w, w.lease.value.(located := true), Verify);
    } else if event.PersistReady? {
      PersistBooked(w, w.lease.value.(state := WorktreeReady, identified := true), Verify);
    } else {
      PersistBooked(w, w.lease.value, Verify);
      LaunchChangesLife(w);
    }
  }

  lemma LaunchChangesLife(w: World)
    ensures w.lease.Some? ==>
              var r := Persist(w, w.lease.value, Verify);
              && r.life == w.life && r.repo == w.repo && r.checkout == w.checkout && r.index == w.index
  {
  }

  lemma CheckoutAdded(w: World)
    requires Booked(w) && Enabled(w, AddCheckout)
    ensures Booked(Next(w, AddCheckout))
  {
    hide BaselineTree, Unverified;
  }

  lemma OtherBooked(w: World, event: Event)
    requires Booked(w) && Enabled(w, event)
    requires event.HandOver? || event.SetupFails? || event.Write? || event.StartFinalize? || event.StartRecovery?
             || event.Fail? || event.Crash? || event.OwnerDies?
    ensures Booked(Next(w, event))
  {
    hide BaselineTree, Follows, HistoryTruthful;
    if event.Write? {
      CheckoutReplaced(w.history, w.repo.ref, w.checkout, Present(event.content));
    }
  }

  lemma StepBooks(w: World, event: Event)
    requires Invariant(w) && Booked(w) && Enabled(w, event)
    ensures Booked(Next(w, event))
  {
    match event
    case Advance(leftover) => AdvanceBooked(w, leftover);
    case RecordLocation => SetupBooked(w, event);
    case PersistReady => SetupBooked(w, event);
    case Launch => SetupBooked(w, event);
    case AddCheckout => CheckoutAdded(w);
    case _ => OtherBooked(w, event);
    hide Invariant, Booked, Next;
  }

  lemma FreshIsBooked(w: World)
    requires Fresh(w)
    ensures Invariant(w) && Booked(w)
  {
  }

  lemma {:induction false} BooksHold(from: World, events: seq<Event>, to: World)
    requires Invariant(from) && Booked(from) && Reaches(from, events, to)
    ensures Invariant(to) && Booked(to)
    decreases |events|
  {
    hide Invariant, Booked, Enabled, Next;
    if events != [] {
      StepBooks(from, events[0]);
      StepKeeps(from, events[0]);
      BooksHold(Next(from, events[0]), events[1..], to);
    }
  }

  // ---------------------------------------------------------------- the promises

  /**
   * Over any run, every record ever written names the attempt ref's commit or none; one that
   * says verified names it, and one that says removed names it unless no record before it said
   * verified, which finalization and salvage always write first.
   */
  lemma RecordsNameTheAttempt(from: World, events: seq<Event>, to: World, r: Record)
    requires Fresh(from) && Reaches(from, events, to) && r in to.history
    ensures r.attemptCommit.Some? ==> r.attemptCommit == to.repo.ref
    ensures r.state.RefVerified? ==> r.attemptCommit.Some?
    ensures r.state.WorktreeRemoved? ==> to.repo.ref.Some? && to.checkout.Absent?
    ensures r.state.WorktreeRemoved? && r.attemptCommit.None? ==> Unverified(to.history, r)
  {
    FreshIsBooked(from);
    BooksHold(from, events, to);
  }

  /** Whatever record of the lease a recovery loaded, it accepts the attempt ref it finds. */
  lemma RecoveryAcceptsTheRef(from: World, events: seq<Event>, to: World, r: Record)
    requires Fresh(from) && Reaches(from, events, to) && r in to.history
    ensures RefAccepted(to, r)
  {
    RecordsNameTheAttempt(from, events, to, r);
    InvariantHolds(from, events, to);
    hide InScope, BooksSound, Safe, StepSound;
  }

  // ---------------------------------------------------------------- when a recovery completes

  /** What the lease, the checkout and the ref must be for an undisturbed recovery to retire the lease. */
  predicate Recoverable(w: World, record: Record) {
    if record.state.Reserved? then !record.located || w.checkout.Absent?
    else if w.checkout.Absent? then w.repo.ref.Some?
    else
      && w.checkout.content.ignored == map[]
      && if w.repo.ref.None? then InScope(w.repo, w.checkout.content.files)
         else w.repo.ref.value in w.repo.objects
              && w.checkout.content.files == w.repo.objects[w.repo.ref.value].tree
  }

  lemma OneStep(w: World, n: nat, leftover: Content)
    requires w.proc.Busy?
    ensures Steps(w, n + 1, leftover) == Steps(Advanced(w, leftover), n, leftover)
  {
  }

  lemma Done(w: World, n: nat, leftover: Content)
    requires w.proc.Idle?
    ensures Steps(w, n, leftover) == w
  {
  }

  /** The process stopped, the lease stays, and nothing on disk or in the repository changed. */
  predicate Parked(before: World, after: World) {
    after.proc.Idle? && after.lease.Some? && after.checkout == before.checkout && after.repo == before.repo
  }

  /** From a successful comparison on, nothing can stop an undisturbed removal. */
  lemma RemovalRuns(w: World, n: nat, leftover: Content)
    requires w.proc.Busy? && w.proc.step.BeginRemoval? && w.lease.Some? && Remembered(w) == w.lease
    ensures var r := Steps(w, n + 4, leftover);
            && r.proc.Idle? && r.lease.None? && r.checkout.Absent? && r.repo == w.repo
            && r.history == w.history + {RemovedRecord(w.lease.value)}
  {
    hide Steps;
    var w1 := Advanced(w, leftover);
    var w2 := Advanced(w1, leftover);
    var w3 := Advanced(w2, leftover);
    var w4 := Advanced(w3, leftover);
    OneStep(w, n + 3, leftover);
    OneStep(w1, n + 2, leftover);
    OneStep(w2, n + 1, leftover);
    OneStep(w3, n, leftover);
    Done(w4, n, leftover);
  }

  function RemovedRecord(r: Record): Record {
    r.(state := WorktreeRemoved, revision := r.revision + 1)
  }

  function OwningRecord(r: Record): Record {
    if r.indexOwned then r else r.(indexOwned := true, revision := r.revision + 1)
  }

  function VerifiedRecord(r: Record, commit: CommitId): Record {
    r.(state := RefVerified, attemptCommit := Some(commit), revision := r.revision + 1)
  }

  /** A rescuer acting on the latest record of a checkout that is there. */
  predicate Rescuing(w: World, step: Step) {
    && w.proc.Busy? && w.proc.step == step && w.proc.actor.Rescuer? && w.lease == Some(w.proc.actor.record)
    && w.checkout.Present? && w.lease.value in w.history
    && (w.index == BaselineTree(w.repo) || w.lease.value.indexOwned)
  }

  lemma CheckedStep(w: World, leftover: Content)
    requires Rescuing(w, CheckWorktree)
    ensures var r := Advanced(w, leftover);
            if w.checkout.content.ignored == map[] then
              && Rescuing(r, Compare) && r.repo == w.repo && r.checkout == w.checkout
              && r.proc.commit == w.proc.commit && r.lease == Some(OwningRecord(w.lease.value))
              && w.history <= r.history
            else Parked(w, r)
  {
    hide InScope, BaselineTree;
  }

  lemma ComparedStep(w: World, leftover: Content)
    requires Rescuing(w, Compare) && w.proc.commit in w.repo.objects
    ensures var r := Advanced(w, leftover);
            if w.checkout.content.files == w.repo.objects[w.proc.commit].tree
            then r == w.(index := w.checkout.content.files, proc := w.proc.(step := BeginRemoval))
            else Parked(w, r)
  {
    hide InScope, BaselineTree;
  }

  lemma CheckedRuns(w: World, n: nat, leftover: Content)
    requires Rescuing(w, CheckWorktree) && w.proc.commit in w.repo.objects
    ensures var r := Steps(w, n + 6, leftover);
            if w.checkout.content == Content(w.repo.objects[w.proc.commit].tree, map[]) then
              && r.proc.Idle? && r.lease.None? && r.checkout.Absent? && r.repo == w.repo && w.history <= r.history
              && RemovedRecord(OwningRecord(w.lease.value)) in r.history
            else Parked(w, r)
  {
    hide Advanced, Steps, BaselineTree, OwningRecord, RemovedRecord;
    OneStep(w, n + 5, leftover);
    CheckedStep(w, leftover);
    var w1 := Advanced(w, leftover);
    if w.checkout.content.ignored != map[] {
      Done(w1, n + 5, leftover);
    } else {
      OneStep(w1, n + 4, leftover);
      ComparedStep(w1, leftover);
      var w2 := Advanced(w1, leftover);
      if w2.proc.Idle? {
        Done(w2, n + 4, leftover);
      } else {
        RemovalRuns(w2, n, leftover);
      }
    }
  }

  lemma SalvageStarts(w: World, leftover: Content)
    requires Rescuing(w, OwnIndex)
    ensures var r := Advanced(w, leftover);
            if w.checkout.content.ignored == map[] && InScope(w.repo, w.checkout.content.files) then
              && Rescuing(r, Capture) && r.repo == w.repo && r.checkout == w.checkout
              && r.lease == Some(OwningRecord(w.lease.value)) && r.index == w.index
              && w.history <= r.history
            else Parked(w, r)
  {
    hide InScope, BaselineTree;
  }

  /** From the capture to the verified ref. */
  lemma SalvagePublishes(w: World, n: nat, leftover: Content)
    requires Rescuing(w, Capture) && RepoSound(w.repo) && w.repo.ref.None? && w.lease.value.indexOwned
    ensures var r := Steps(w, 5, leftover);
            && Rescuing(r, CheckWorktree) && Steps(w, n + 5, leftover) == Steps(r, n, leftover)
            && r.repo == WithCommit(w.repo, w.checkout.content.files).(ref := Some(w.repo.nextId))
            && r.checkout == w.checkout && r.proc.commit == w.repo.nextId
            && r.lease == Some(VerifiedRecord(w.lease.value, w.repo.nextId)) && w.history <= r.history
  {
    hide InScope, BaselineTree, Steps;
    var w1 := Advanced(w, leftover);
    var w2 := Advanced(w1, leftover);
    var w3 := Advanced(w2, leftover);
    var w4 := Advanced(w3, leftover);
    var w5 := Advanced(w4, leftover);
    OneStep(w, 4, leftover);
    OneStep(w1, 3, leftover);
    OneStep(w2, 2, leftover);
    OneStep(w3, 1, leftover);
    OneStep(w4, 0, leftover);
    NoSteps(w5, leftover);
    StepsAdd(w, 5, n, leftover);
  }

  lemma NoSteps(w: World, leftover: Content)
    ensures Steps(w, 0, leftover) == w
  {
  }

  lemma SalvageRuns(w: World, n: nat, leftover: Content)
    requires Rescuing(w, OwnIndex) && RepoSound(w.repo) && w.repo.ref.None?
    ensures var r := Steps(w, n + 12, leftover);
            var files := w.checkout.content.files;
            if w.checkout.content.ignored == map[] && InScope(w.repo, files) then
              && r.proc.Idle? && r.lease.None? && r.checkout.Absent? && w.history <= r.history
              && r.repo == WithCommit(w.repo, files).(ref := Some(w.repo.nextId))
              && var verified := VerifiedRecord(OwningRecord(w.lease.value), w.repo.nextId);
              && verified in r.history && RemovedRecord(verified) in r.history
            else Parked(w, r)
  {
    hide Advanced, Steps, BaselineTree, InScope, RepoSound;
    OneStep(w, n + 11, leftover);
    SalvageStarts(w, leftover);
    var w1 := Advanced(w, leftover);
    if w1.proc.Idle? {
      Done(w1, n + 11, leftover);
    } else {
      SalvagePublishes(w1, n + 6, leftover);
      CheckedRuns(Steps(w1, 5, leftover), n, leftover);
    }
  }

  /** What a recovery acting on the latest record makes of the lease. */
  ghost predicate RecoveredFrom(w: World, record: Record, r: World) {
    if Recoverable(w, record) then
      && r.proc.Idle? && r.lease.None?
      && (!record.state.Reserved? ==>
            && r.checkout.Absent? && r.repo.ref.Some? && (w.repo.ref.Some? ==> r.repo == w.repo)
            && (w.checkout.Present? ==>
                  && RefHolds(r.repo, w.checkout.content)
                  && exists last <- r.history ::
                       last.state.WorktreeRemoved? && last.indexOwned
                       && (w.repo.ref.None? ==> last.attemptCommit == r.repo.ref)))
    else Parked(w, r)
  }

  lemma LatestAccepted(w: World)
    requires Invariant(w) && Booked(w) && w.lease.Some?
    ensures RefAccepted(w, w.lease.value) && (w.lease.value.state.Reserved? ==> w.repo.ref.None?)
    ensures w.lease.value.state.Reserved? <==> !w.lease.value.identified
    ensures w.lease.value in w.history && (w.checkout.Present? && w.index != BaselineTree(w.repo) ==>
                                             w.lease.value.indexOwned)
  {
    hide InScope, BaselineTree, Follows, Unverified;
  }

  /** Where a recovery with the latest record goes first. */
  lemma RouteTaken(w: World, leftover: Content)
    requires Invariant(w) && Booked(w) && w.lease.Some?
    ensures var record := w.lease.value;
            var start := Next(w, StartRecovery(record));
            var r := Advanced(start, leftover);
            if !record.state.Reserved? && w.checkout.Present? then
              if w.repo.ref.None? then Rescuing(r, OwnIndex) && r == To(start, OwnIndex)
              else Rescuing(r, CheckWorktree)
                   && r == start.(proc := Busy(Rescuer(record), CheckWorktree, map[], w.repo.ref.value))
            else r == if Recoverable(w, record) then To(start, Retire) else Stop(start)
  {
    LatestAccepted(w);
    hide InScope, BaselineTree, RefAccepted, Invariant, Booked;
  }

  lemma RetireStep(w: World, leftover: Content)
    requires w.proc.Busy? && w.proc.step.Retire?
    ensures Advanced(w, leftover) == w.(lease := None, proc := Idle)
  {
  }

  lemma SalvageHolds(repo: Repo, files: Tree)
    requires RepoSound(repo)
    ensures RefHolds(WithCommit(repo, files).(ref := Some(repo.nextId)), Content(files, map[]))
  {
    hide InScope;
  }

  lemma SalvageRecovers(w: World, start: World, r: World)
    requires RepoSound(w.repo) && w.lease.Some? && w.repo.ref.None? && w.checkout.Present?
    requires !w.lease.value.state.Reserved? && start.repo == w.repo && start.checkout == w.checkout
    requires var files := w.checkout.content.files;
             if w.checkout.content.ignored == map[] && InScope(w.repo, files) then
               && r.proc.Idle? && r.lease.None? && r.checkout.Absent?
               && r.repo == WithCommit(w.repo, files).(ref := Some(w.repo.nextId))
               && RemovedRecord(VerifiedRecord(OwningRecord(w.lease.value), w.repo.nextId)) in r.history
             else Parked(start, r)
    ensures RecoveredFrom(w, w.lease.value, r)
  {
    SalvageHolds(w.repo, w.checkout.content.files);
    hide InScope, RepoSound, WithCommit, RefHolds;
    ghost var last := RemovedRecord(VerifiedRecord(OwningRecord(w.lease.value), w.repo.nextId));
    assert last.state.WorktreeRemoved? && last.indexOwned && last.attemptCommit == Some(w.repo.nextId);
  }

  lemma ResumeRecovers(w: World, start: World, r: World)
    requires RepoSound(w.repo) && w.lease.Some? && w.repo.ref.Some? && w.checkout.Present?
    requires !w.lease.value.state.Reserved? && start.repo == w.repo && start.checkout == w.checkout
    requires if w.checkout.content == Content(w.repo.objects[w.repo.ref.value].tree, map[]) then
               && r.proc.Idle? && r.lease.None? && r.checkout.Absent? && r.repo == w.repo
               && RemovedRecord(OwningRecord(w.lease.value)) in r.history
             else Parked(start, r)
    ensures RecoveredFrom(w, w.lease.value, r)
  {
    hide InScope;
    ghost var last := RemovedRecord(OwningRecord(w.lease.value));
    assert last.state.WorktreeRemoved? && last.indexOwned;
  }

  /** The recovery that has nothing to remove. */
  lemma ShortRecovery(w: World, leftover: Content)
    requires Invariant(w) && Booked(w) && w.lease.Some?
    requires w.lease.value.state.Reserved? || w.checkout.Absent?
    ensures RecoveredFrom(w, w.lease.value, Steps(Next(w, StartRecovery(w.lease.value)), 13, leftover))
  {
    hide Steps, Advanced, Invariant, Booked, RefHolds;
    var w0 := Next(w, StartRecovery(w.lease.value));
    RouteTaken(w, leftover);
    var w1 := Advanced(w0, leftover);
    OneStep(w0, 12, leftover);
    if Recoverable(w, w.lease.value) {
      OneStep(w1, 11, leftover);
      RetireStep(w1, leftover);
      Done(Advanced(w1, leftover), 11, leftover);
    } else {
      Done(w1, 12, leftover);
    }
  }

  /** The recovery that publishes the work of a checkout nobody published. */
  lemma SalvageRecovery(w: World, leftover: Content)
    requires Invariant(w) && Booked(w) && w.lease.Some?
    requires !w.lease.value.state.Reserved? && w.checkout.Present? && w.repo.ref.None?
    ensures RecoveredFrom(w, w.lease.value, Steps(Next(w, StartRecovery(w.lease.value)), 13, leftover))
  {
    hide Steps, Advanced, Booked, StepSound, Safe, BooksSound, RepoSound, WithCommit, RefHolds, InScope, BaselineTree,
         RecoveredFrom, OwningRecord, VerifiedRecord, RemovedRecord;
    var w0 := Next(w, StartRecovery(w.lease.value));
    RouteTaken(w, leftover);
    var w1 := Advanced(w0, leftover);
    OneStep(w0, 12, leftover);
    SalvageRuns(w1, 0, leftover);
    SalvageRecovers(w, w1, Steps(w1, 12, leftover));
  }

  /** The recovery that goes on from a ref its owner or another recovery created. */
  lemma ResumeRecovery(w: World, leftover: Content)
    requires Invariant(w) && Booked(w) && w.lease.Some?
    requires !w.lease.value.state.Reserved? && w.checkout.Present? && w.repo.ref.Some?
    ensures RecoveredFrom(w, w.lease.value, Steps(Next(w, StartRecovery(w.lease.value)), 13, leftover))
  {
    hide Steps, Advanced, Booked, StepSound, Safe, BooksSound, WithCommit, RefHolds, InScope, BaselineTree,
         RecoveredFrom, OwningRecord, RemovedRecord;
    var w0 := Next(w, StartRecovery(w.lease.value));
    RouteTaken(w, leftover);
    var w1 := Advanced(w0, leftover);
    OneStep(w0, 12, leftover);
    CheckedRuns(w1, 6, leftover);
    ResumeRecovers(w, w1, Steps(w1, 12, leftover));
  }

  /**
   * Over any run that left a dead owner's lease behind, an undisturbed recovery with the latest
   * record retires the lease exactly when it is `Recoverable`; the attempt ref then holds what
   * was in the checkout, and the last record names it.  Otherwise nothing changes on disk.
   */
  lemma RecoveryCompletesExactly(from: World, events: seq<Event>, w: World, leftover: Content)
    requires Fresh(from) && Reaches(from, events, w) && w.life.ownerDead && w.proc.Idle? && w.lease.Some?
    ensures Enabled(w, StartRecovery(w.lease.value))
    ensures RecoveredFrom(w, w.lease.value, Steps(Next(w, StartRecovery(w.lease.value)), 13, leftover))
  {
    FreshIsBooked(from);
    BooksHold(from, events, w);
    LatestAccepted(w);
    hide Steps, Next, RecoveredFrom, Invariant, Booked, RefAccepted, BaselineTree;
    if w.lease.value.state.Reserved? || w.checkout.Absent? {
      ShortRecovery(w, leftover);
    } else if w.repo.ref.None? {
      SalvageRecovery(w, leftover);
    } else {
      ResumeRecovery(w, leftover);
    }
  }

  // ---------------------------------------------------------------- what is refused, whoever did it

  /** Every change against the baseline lies in the declared scope. */
  predicate StaysInScope(repo: Repo, tree: Tree) {
    repo.baseline in repo.objects
    && forall path <- repo.objects[repo.baseline].tree.Keys + tree.Keys ::
      Lookup(repo.objects[repo.baseline].tree, path) != Lookup(tree, path) ==> Within(path, repo.scope)
  }

  lemma ScopeExactly(repo: Repo, tree: Tree)
    requires repo.baseline in repo.objects
    ensures InScope(repo, tree) <==> StaysInScope(repo, tree)
    ensures BaselineTree(repo) == repo.objects[repo.baseline].tree
  {
    hide Within;
    forall path ensures Changed(BaselineTree(repo), tree, path) <==> path in ChangedPaths(BaselineTree(repo), tree) {
      ChangedIsListed(BaselineTree(repo), tree, path);
    }
  }

  /** No ref, or one commit on the baseline, in scope, and the one on record if there is one on record. */
  predicate Trusted(repo: Repo, record: Record) {
    repo.ref.Some? ==>
      && repo.ref.value in repo.objects && repo.objects[repo.ref.value].parents == [repo.baseline]
      && StaysInScope(repo, repo.objects[repo.ref.value].tree)
      && (record.attemptCommit == None || record.attemptCommit == repo.ref)
  }

  /**
   * Where a recovery goes, in any state of the repository and of the checkout, whoever left it
   * so: an untrusted ref, and whatever fits no case, stops it with nothing touched.
   */
  lemma RoutesExactly(w: World, record: Record, leftover: Content)
    requires w.proc == Busy(Rescuer(record), Verify, map[], 0) && w.repo.baseline in w.repo.objects
    ensures var (r, ref, there) := (Advanced(w, leftover), w.repo.ref, w.checkout.Present?);
            if Trusted(w.repo, record) && record.state == Reserved && ref == None && (!record.located || !there)
            then r == To(w, Retire)
            else if Trusted(w.repo, record) && record.state == Reserved && ref == None && record.identified
            then r == To(w, DiscardCheckout)
            else if Trusted(w.repo, record) && record.state != Reserved && ref == None && record.identified && there
            then r == To(w, OwnIndex)
            else if Trusted(w.repo, record) && record.state != Reserved && ref != None && record.identified && there
            then r == w.(proc := Busy(Rescuer(record), CheckWorktree, map[], ref.value))
            else if Trusted(w.repo, record) && record.state != Reserved && ref != None && !there
            then r == To(w, Retire)
            else r == w.(proc := Idle)
  {
    if w.repo.ref.Some? && w.repo.ref.value in w.repo.objects {
      ScopeExactly(w.repo, w.repo.objects[w.repo.ref.value].tree);
    }
    hide InScope, StaysInScope;
  }

  /** The index may be taken: it is the baseline's, or the workspace took it before. */
  predicate IndexFree(w: World, owned: bool) {
    w.repo.baseline in w.repo.objects && (w.index == w.repo.objects[w.repo.baseline].tree || owned)
  }

  /** The record is the last one written, marked, or already was. */
  predicate Marks(w: World, r: World, step: Step)
    requires w.proc.Busy?
  {
    if w.proc.actor.Rescuer? && w.proc.actor.record.indexOwned then r == To(w, step)
    else
      && w.lease == Remembered(w) && w.lease.Some?
      && var next := w.lease.value.(indexOwned := true, revision := w.lease.value.revision + 1);
      && r.lease == Some(next) && r.history == w.history + {next} && r.proc.Busy? && r.proc.step == step
      && Remembered(r) == r.lease && r == w.(lease := r.lease, history := r.history, proc := r.proc)
      && r.proc.commit == w.proc.commit && r.proc.snapshot == w.proc.snapshot
  }

  /**
   * The snapshot begins exactly on a checkout with nothing ignored in it, with an index that is
   * free, a recovery also looking at the scope first; an index somebody else staged into, and a
   * record somebody else wrote since, stop it with nothing touched.
   */
  lemma SnapshotBeginsExactly(w: World, leftover: Content)
    requires w.proc.Busy? && w.proc.step == OwnIndex && w.repo.baseline in w.repo.objects
    ensures var r := Advanced(w, leftover);
            var owned := w.proc.actor.Rescuer? && w.proc.actor.record.indexOwned;
            if w.checkout.Present? && w.checkout.content.ignored == map[] && Remembered(w).Some? && IndexFree(w, owned)
               && (owned || w.lease == Remembered(w))
               && (w.proc.actor.Rescuer? ==> StaysInScope(w.repo, w.checkout.content.files))
            then Marks(w, r, Capture)
            else r == w.(proc := Idle)
  {
    if w.checkout.Present? {
      ScopeExactly(w.repo, w.checkout.content.files);
    }
    ScopeExactly(w.repo, map[]);
    hide InScope, StaysInScope, BaselineTree;
  }

  /** Before removal the checkout is looked at once more in the same way; the owner's index must be the baseline's. */
  lemma RemovalBeginsExactly(w: World, leftover: Content)
    requires w.proc.Busy? && w.proc.step == CheckWorktree && w.repo.baseline in w.repo.objects
    ensures var r := Advanced(w, leftover);
            var owned := w.proc.actor.Rescuer? && w.proc.actor.record.indexOwned;
            if w.checkout.Present? && w.checkout.content.ignored == map[] && Remembered(w).Some? && IndexFree(w, owned)
               && (owned || w.proc.actor.Owner? || w.lease == Remembered(w))
            then if w.proc.actor.Owner? then r == To(w, Compare) else Marks(w, r, Compare)
            else r == w.(proc := Idle)
  {
    ScopeExactly(w.repo, map[]);
    hide InScope, StaysInScope, BaselineTree;
  }

  /** What is staged, written as a tree and committed is what was in the checkout. */
  lemma SnapshotIsTheCheckout(w: World, leftover: Content)
    requires w.proc.Busy? && w.proc.step == Capture && w.checkout.Present?
    ensures var staged := Advanced(w, leftover);
            var made := Advanced(staged, leftover);
            && staged.index == w.checkout.content.files && staged.proc.Busy? && staged.proc.step == MakeCommit
            && made.proc.Busy? && made.proc.commit == w.repo.nextId && made.proc.commit in made.repo.objects
            && made.repo.objects[made.proc.commit] == Commit([w.repo.baseline], w.checkout.content.files)
            && made.checkout == w.checkout
  {
  }

  /** A workspace as it is handed over to its child: the baseline checked out, all of it on record. */
  lemma SetUpExactly(w: World)
    requires Fresh(w)
    ensures var steps := [RecordLocation, AddCheckout, PersistReady, HandOver, Launch];
            exists r: World ::
              && Reaches(w, steps, r) && r.repo == w.repo && r.proc == Idle
              && r.index == w.repo.objects[w.repo.baseline].tree && r.checkout == Present(Content(r.index, map[]))
              && r.work == r.checkout.content && r.lease == Some(Record(WorktreeReady, true, true, false, None, 3))
              && r.life == Life(true, false, true, false)
  {
    hide InScope;
    var w1 := Next(w, RecordLocation);
    var w2 := Next(w1, AddCheckout);
    var w3 := Next(w2, PersistReady);
    var w4 := Next(w3, HandOver);
    var r := Next(w4, Launch);
    FiveSteps(w, [RecordLocation, AddCheckout, PersistReady, HandOver, Launch], w1, w2, w3, w4, r);
  }

  lemma FiveSteps(w: World, steps: seq<Event>, w1: World, w2: World, w3: World, w4: World, r: World)
    requires |steps| == 5 && Enabled(w, steps[0]) && w1 == Next(w, steps[0])
    requires Enabled(w1, steps[1]) && w2 == Next(w1, steps[1]) && Enabled(w2, steps[2]) && w3 == Next(w2, steps[2])
    requires Enabled(w3, steps[3]) && w4 == Next(w3, steps[3]) && Enabled(w4, steps[4]) && r == Next(w4, steps[4])
    ensures Reaches(w, steps, r)
  {
    hide Next, Enabled;
    assert steps[1..][1..] == steps[2..] && steps[2..][1..] == steps[3..] && steps[3..][1..] == steps[4..];
    assert steps[4..][1..] == [] && Reaches(r, [], r);
    assert Reaches(w4, steps[4..], r);
    assert Reaches(w3, steps[3..], r);
    assert Reaches(w2, steps[2..], r);
    assert Reaches(w1, steps[1..], r);
  }
}
