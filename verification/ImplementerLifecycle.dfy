/**
 * The life of one implementer lease: set up, worked in, finalized by its owner
 * (workspace-policy.ts) or recovered after its owner died (implementer-recovery/), with a
 * crash possible between any two effects.
 *
 * A tree maps paths to contents, a commit is its parents and its tree, and the attempt ref is
 * created once, never moved.  Recovery works with a lease record it read at some earlier
 * time, before it held the registry mutex.
 */
module ImplementerLifecycle {
  import opened Wrappers
  import opened ApplyOrder

  type CommitId = nat

  datatype Commit = Commit(parents: seq<CommitId>, tree: Tree)

  /** `ignored` is what `git add` would leave out. */
  datatype Content = Content(files: Tree, ignored: Tree)

  datatype Checkout = Absent | Present(content: Content)

  datatype LeaseState = Reserved | WorktreeReady | RefVerified | WorktreeRemoved

  /** `located`: the workspace's path is recorded; `identified`: also the checkout's identity. */
  datatype Record = Record(
    state: LeaseState,
    located: bool,
    identified: bool,
    indexOwned: bool,
    attemptCommit: Option<CommitId>,
    revision: nat)

  datatype Actor = Owner | Rescuer(record: Record)

  datatype Step =
    | Verify
    | OwnIndex
    | Capture
    | MakeCommit
    | CheckScope
    | CreateRef
    | VerifyRef
    | PersistVerified
    | CheckWorktree
    | Compare
    | BeginRemoval
    | FinishRemoval
    | PersistRemoved
    | DiscardCheckout
    | DiscardFinish
    | Retire

  datatype Proc = Idle | Busy(actor: Actor, step: Step, snapshot: Tree, commit: CommitId)

  /** The shared repository, as far as this lease is concerned. */
  datatype Repo = Repo(
    baseline: CommitId,
    scope: seq<string>,
    objects: map<CommitId, Commit>,
    nextId: CommitId,
    ref: Option<CommitId>)

  datatype Life = Life(started: bool, ownerDead: bool, handedOver: bool, closed: bool)

  /** `work` is the content the child, or whoever wrote last, left in the checkout. */
  datatype World = World(
    repo: Repo,
    lease: Option<Record>,
    history: set<Record>,
    checkout: Checkout,
    index: Tree,
    work: Content,
    life: Life,
    proc: Proc)

  /** `leftover`: what an interrupted `git worktree remove` would still leave on disk. */
  datatype Event =
    | RecordLocation
    | AddCheckout
    | PersistReady
    | HandOver
    | SetupFails
    | Launch
    | Write(content: Content)
    | StartFinalize
    | StartRecovery(record: Record)
    | Advance(leftover: Content)
    | Fail
    | Crash
    | OwnerDies

  // ---------------------------------------------------------------- the steps

  function BaselineTree(repo: Repo): Tree {
    if repo.baseline in repo.objects then repo.objects[repo.baseline].tree else map[]
  }

  predicate InScope(repo: Repo, tree: Tree) {
    WithinScope(BaselineTree(repo), tree, repo.scope)
  }

  function Stop(w: World): World {
    w.(proc := Idle)
  }

  function To(w: World, step: Step): World {
    if w.proc.Busy? then w.(proc := w.proc.(step := step)) else w
  }

  /** The record the acting process has in memory. */
  function Remembered(w: World): Option<Record> {
    if w.proc.Busy? && w.proc.actor.Rescuer? then Some(w.proc.actor.record) else w.lease
  }

  /** A write of the remembered record: refused unless it is what the journal last committed. */
  function Persist(w: World, record: Record, step: Step): World {
    if w.lease.None? || Remembered(w) != w.lease then Stop(w)
    else
      var next := record.(revision := record.revision + 1);
      var written := w.(lease := Some(next), history := w.history + {next});
      To(if w.proc.Busy? && w.proc.actor.Rescuer? then written.(proc := w.proc.(actor := Rescuer(next)))
         else written, step)
  }

  /** The attempt ref recovery finds is one it may rely on. */
  predicate RefAccepted(w: World, record: Record) {
    w.repo.ref.Some? ==>
      && w.repo.ref.value in w.repo.objects
      && (record.attemptCommit.Some? ==> record.attemptCommit == w.repo.ref)
      && w.repo.objects[w.repo.ref.value].parents == [w.repo.baseline]
      && InScope(w.repo, w.repo.objects[w.repo.ref.value].tree)
  }

  function Verified(w: World, record: Record): World {
    if !RefAccepted(w, record) then Stop(w)
    else if record.state.Reserved? then
      if w.repo.ref.Some? then Stop(w)
      else if !record.located || w.checkout.Absent? then To(w, Retire)
      else if !record.identified then Stop(w)
      else To(w, DiscardCheckout)
    else if w.checkout.Present? then
      if !record.identified then Stop(w)
      else if w.repo.ref.None? then To(w, OwnIndex)
      else w.(proc := Busy(Rescuer(record), CheckWorktree, map[], w.repo.ref.value))
    else if w.repo.ref.Some? then To(w, Retire)
    else Stop(w)
  }

  /** Before the snapshot; recovery lists the changed paths here, the owner on the commit itself. */
  function IndexOwned(w: World): World
    requires w.proc.Busy?
  {
    if w.checkout.Absent? || w.checkout.content.ignored != map[] then Stop(w)
    else
      var record := Remembered(w);
      if record.None? then Stop(w)
      else if w.proc.actor.Owner? then
        if w.index != BaselineTree(w.repo) then Stop(w) else Persist(w, record.value.(indexOwned := true), Capture)
      else if !InScope(w.repo, w.checkout.content.files) then Stop(w)
      else if record.value.indexOwned then To(w, Capture)
      else if w.index != BaselineTree(w.repo) then Stop(w)
      else Persist(w, record.value.(indexOwned := true), Capture)
  }

  /** Before removal: nothing that a snapshot would miss, and an index the workspace owns. */
  function WorktreeChecked(w: World): World
    requires w.proc.Busy?
  {
    if w.checkout.Absent? || w.checkout.content.ignored != map[] then Stop(w)
    else
      var record := Remembered(w);
      if record.None? then Stop(w)
      else if w.proc.actor.Owner? then
        if w.index != BaselineTree(w.repo) then Stop(w) else To(w, Compare)
      else if record.value.indexOwned then To(w, Compare)
      else if w.index != BaselineTree(w.repo) then Stop(w)
      else Persist(w, record.value.(indexOwned := true), Compare)
  }

  function WithCommit(repo: Repo, tree: Tree): Repo {
    repo.(objects := repo.objects[repo.nextId := Commit([repo.baseline], tree)], nextId := repo.nextId + 1)
  }

  function Advanced(w: World, leftover: Content): World
    requires w.proc.Busy?
  {
    var (actor, snapshot, commit) := (w.proc.actor, w.proc.snapshot, w.proc.commit);
    match w.proc.step
    case Verify => if actor.Rescuer? then Verified(w, actor.record) else Stop(w)
    case OwnIndex => IndexOwned(w)
    case Capture =>
      if w.checkout.Absent? then Stop(w)
      else
        var files := w.checkout.content.files;
        To(w.(index := files, proc := w.proc.(snapshot := files)), MakeCommit)
    case MakeCommit =>
      To(w.(repo := WithCommit(w.repo, snapshot), proc := w.proc.(commit := w.repo.nextId)),
         if actor.Owner? then CheckScope else CreateRef)
    case CheckScope =>
      if InScope(w.repo, snapshot) then To(w.(index := BaselineTree(w.repo)), CreateRef) else Stop(w)
    case CreateRef => if w.repo.ref.Some? then Stop(w) else To(w.(repo := w.repo.(ref := Some(commit))), VerifyRef)
    case VerifyRef =>
      if w.repo.ref == Some(commit) && commit in w.repo.objects && w.repo.objects[commit].tree == snapshot
      then To(w, PersistVerified) else Stop(w)
    case PersistVerified =>
      var record := Remembered(w);
      if record.None? then Stop(w)
      else Persist(w, record.value.(state := RefVerified, attemptCommit := Some(commit)), CheckWorktree)
    case CheckWorktree => WorktreeChecked(w)
    case Compare =>
      if w.checkout.Present? && commit in w.repo.objects && w.checkout.content.files == w.repo.objects[commit].tree
      then To(w.(index := w.checkout.content.files), BeginRemoval) else Stop(w)
    case BeginRemoval => To(w.(checkout := Present(leftover)), FinishRemoval)
    case FinishRemoval => To(w.(checkout := Absent), PersistRemoved)
    case PersistRemoved =>
      var record := Remembered(w);
      if record.None? then Stop(w) else Persist(w, record.value.(state := WorktreeRemoved), Retire)
    case DiscardCheckout => To(w.(checkout := Present(leftover)), DiscardFinish)
    case DiscardFinish => To(w.(checkout := Absent), Retire)
    case Retire => Stop(w.(lease := None))
  }

  // ---------------------------------------------------------------- the machine

  /** From a check of the checkout to the effect that relies on it nothing else may write there. */
  predicate InGap(proc: Proc) {
    proc.Busy?
    && (proc.step.Capture? || proc.step.Compare? || proc.step.BeginRemoval? || proc.step.FinishRemoval?
        || proc.step.DiscardCheckout? || proc.step.DiscardFinish?)
  }

  /** The owner is still setting the workspace up. */
  predicate SettingUp(w: World) {
    && !w.life.ownerDead && !w.life.handedOver && !w.life.closed && w.proc.Idle?
    && w.lease.Some? && w.lease.value.state.Reserved?
  }

  predicate Enabled(w: World, event: Event) {
    match event
    case RecordLocation => SettingUp(w)
    case AddCheckout => SettingUp(w) && w.checkout.Absent? && w.lease.value.located
    case PersistReady => SettingUp(w) && w.checkout.Present? && w.lease.value.located
    case HandOver =>
      && !w.life.ownerDead && !w.life.closed && w.proc.Idle? && w.lease.Some? && w.lease.value.state.WorktreeReady?
    case SetupFails => !w.life.ownerDead && !w.life.handedOver && w.proc.Idle?
    case Launch =>
      !w.life.ownerDead && w.life.handedOver && !w.life.closed && w.proc.Idle? && w.lease.Some? && w.checkout.Present?
    case Write(_) => w.life.started && w.checkout.Present? && !InGap(w.proc)
    case StartFinalize => !w.life.ownerDead && w.life.handedOver && !w.life.closed && w.proc.Idle?
    case StartRecovery(record) => w.life.ownerDead && w.proc.Idle? && record in w.history
    case Advance(_) => w.proc.Busy?
    case Fail => w.proc.Busy?
    case Crash => w.proc.Busy?
    case OwnerDies => !(w.proc.Busy? && w.proc.actor.Owner?)
  }

  function Next(w: World, event: Event): World {
    match event
    case RecordLocation => if w.lease.Some? then Persist(w, w.lease.value.(located := true), Verify) else w
    case AddCheckout => w.(checkout := Present(Content(BaselineTree(w.repo), map[])), index := BaselineTree(w.repo))
    case PersistReady =>
      if w.lease.Some? then Persist(w, w.lease.value.(state := WorktreeReady, identified := true), Verify) else w
    case HandOver => w.(life := w.life.(handedOver := true))
    case SetupFails =>
      w.(life := w.life.(closed := true),
         proc := Busy(Owner, if w.checkout.Present? then DiscardCheckout else Retire, map[], 0))
    case Launch =>
      if w.lease.Some? && w.checkout.Present?
      then Persist(w, w.lease.value, Verify).(life := w.life.(started := true), work := w.checkout.content) else w
    case Write(content) => w.(checkout := Present(content), work := content)
    case StartFinalize => w.(life := w.life.(closed := true), proc := Busy(Owner, OwnIndex, map[], 0))
    case StartRecovery(record) => w.(proc := Busy(Rescuer(record), Verify, map[], 0))
    case Advance(leftover) => if w.proc.Busy? then Advanced(w, leftover) else w
    case Fail => w.(proc := Idle)
    case Crash =>
      w.(proc := Idle, life := w.life.(ownerDead := w.life.ownerDead || (w.proc.Busy? && w.proc.actor.Owner?)))
    case OwnerDies => w.(life := w.life.(ownerDead := true))
  }

  ghost predicate Reaches(from: World, events: seq<Event>, to: World)
    decreases |events|
  {
    if events == [] then from == to
    else Enabled(from, events[0]) && Reaches(Next(from, events[0]), events[1..], to)
  }

  /** A lease as the registry reserves it. */
  predicate Fresh(w: World) {
    && w.repo.baseline in w.repo.objects && (forall id <- w.repo.objects :: id < w.repo.nextId) && w.repo.ref.None?
    && w.lease == Some(Record(Reserved, false, false, false, None, 0))
    && w.history == {Record(Reserved, false, false, false, None, 0)}
    && w.checkout.Absent? && w.life == Life(false, false, false, false) && w.proc.Idle?
  }

  // ---------------------------------------------------------------- the invariant

  /** The attempt ref holds exactly the work: one commit on top of the baseline, nothing left out. */
  predicate RefHolds(repo: Repo, work: Content) {
    && repo.ref.Some? && repo.ref.value in repo.objects
    && repo.objects[repo.ref.value] == Commit([repo.baseline], work.files) && work.ignored == map[]
  }

  /** The work is intact in the checkout, or it is what the attempt ref holds. */
  predicate Safe(repo: Repo, checkout: Checkout, work: Content, started: bool) {
    started ==> checkout == Present(work) || RefHolds(repo, work)
  }

  predicate RepoSound(repo: Repo) {
    && repo.baseline in repo.objects && (forall id <- repo.objects :: id < repo.nextId)
    && (repo.ref.Some? ==>
          && repo.ref.value in repo.objects && repo.objects[repo.ref.value].parents == [repo.baseline]
          && InScope(repo, repo.objects[repo.ref.value].tree))
  }

  predicate Unidentified(record: Record) {
    record.state.Reserved? ==> !record.identified
  }

  predicate BooksSound(lease: Option<Record>, history: set<Record>, life: Life, proc: Proc) {
    && (forall r <- history :: Unidentified(r))
    && (lease.Some? ==> Unidentified(lease.value))
    && (proc.Busy? && proc.actor.Rescuer? ==> Unidentified(proc.actor.record) && life.ownerDead)
    && (life.started ==> life.handedOver)
  }

  predicate Snapshotted(repo: Repo, proc: Proc)
    requires proc.Busy?
  {
    proc.commit in repo.objects && repo.objects[proc.commit] == Commit([repo.baseline], proc.snapshot)
  }

  /** What each step of a running process may rely on. */
  predicate StepSound(proc: Proc, repo: Repo, checkout: Checkout, work: Content, started: bool) {
    proc.Busy? ==>
      match proc.step
      case Capture => proc.actor.Rescuer? ==> checkout.Present? && InScope(repo, checkout.content.files)
      case MakeCommit => proc.actor.Rescuer? ==> InScope(repo, proc.snapshot)
      case CheckScope => Snapshotted(repo, proc)
      case CreateRef => Snapshotted(repo, proc) && InScope(repo, proc.snapshot)
      case VerifyRef => repo.ref == Some(proc.commit)
      case PersistVerified => repo.ref == Some(proc.commit)
      case CheckWorktree => repo.ref == Some(proc.commit)
      case Compare => repo.ref == Some(proc.commit) && checkout.Present? && checkout.content.ignored == map[]
      case BeginRemoval => started ==> RefHolds(repo, work)
      case FinishRemoval => started ==> RefHolds(repo, work)
      case DiscardCheckout => !started
      case DiscardFinish => !started
      case _ => true
  }

  predicate Invariant(w: World) {
    && RepoSound(w.repo) && BooksSound(w.lease, w.history, w.life, w.proc)
    && Safe(w.repo, w.checkout, w.work, w.life.started)
    && StepSound(w.proc, w.repo, w.checkout, w.work, w.life.started)
  }

  // ---------------------------------------------------------------- every step keeps it

  lemma NewCommitKeeps(repo: Repo, tree: Tree)
    requires RepoSound(repo)
    ensures RepoSound(WithCommit(repo, tree)) && BaselineTree(WithCommit(repo, tree)) == BaselineTree(repo)
    ensures forall work :: RefHolds(repo, work) ==> RefHolds(WithCommit(repo, tree), work)
    ensures var made := WithCommit(repo, tree);
            && repo.nextId in made.objects && made.objects[repo.nextId] == Commit([repo.baseline], tree)
            && made.baseline == repo.baseline && made.scope == repo.scope && made.ref == repo.ref
  {
    hide WithinScope;
  }

  lemma RememberedSound(w: World)
    requires BooksSound(w.lease, w.history, w.life, w.proc) && Remembered(w).Some?
    ensures Unidentified(Remembered(w).value)
  {
  }

  lemma PersistKeeps(w: World, record: Record, step: Step)
    requires Invariant(w) && Unidentified(record)
    requires w.proc.Busy? ==> StepSound(To(w, step).proc, w.repo, w.checkout, w.work, w.life.started)
    ensures Invariant(Persist(w, record, step))
  {
    hide RepoSound, Safe;
    var r := Persist(w, record, step);
    assert r.repo == w.repo && r.checkout == w.checkout && r.work == w.work && r.life == w.life;
    PersistBooks(w, record, step);
    PersistStep(w, record, step);
    hide BooksSound, StepSound, Persist;
  }

  lemma PersistBooks(w: World, record: Record, step: Step)
    requires BooksSound(w.lease, w.history, w.life, w.proc) && Unidentified(record)
    ensures var r := Persist(w, record, step); BooksSound(r.lease, r.history, r.life, r.proc)
  {
  }

  lemma PersistStep(w: World, record: Record, step: Step)
    requires w.proc.Busy? ==> StepSound(To(w, step).proc, w.repo, w.checkout, w.work, w.life.started)
    ensures StepSound(Persist(w, record, step).proc, w.repo, w.checkout, w.work, w.life.started)
  {
    hide InScope, RefHolds;
  }

  lemma VerifiedKeeps(w: World)
    requires Invariant(w) && w.proc.Busy? && w.proc.step.Verify? && w.proc.actor.Rescuer?
    ensures Invariant(Verified(w, w.proc.actor.record))
  {
    hide InScope, RepoSound;
  }

  lemma OwnIndexKeeps(w: World)
    requires Invariant(w) && w.proc.Busy? && w.proc.step.OwnIndex?
    ensures Invariant(IndexOwned(w))
  {
    hide InScope, RepoSound, Safe, Persist, BooksSound;
    if Remembered(w).Some? {
      var record := Remembered(w).value;
      RememberedSound(w);
      if w.checkout.Present? && (w.proc.actor.Owner? || InScope(w.repo, w.checkout.content.files)) {
        PersistKeeps(w, record.(indexOwned := true), Capture);
        MoveKeeps(w, Capture);
      }
    }
    StopKeeps(w);
  }

  lemma StopKeeps(w: World)
    requires Invariant(w)
    ensures Invariant(Stop(w))
  {
    hide RepoSound, Safe;
  }

  lemma MoveKeeps(w: World, step: Step)
    requires Invariant(w) && StepSound(To(w, step).proc, w.repo, w.checkout, w.work, w.life.started)
    ensures Invariant(To(w, step))
  {
    hide RepoSound, Safe, StepSound;
  }

  lemma CheckWorktreeKeeps(w: World)
    requires Invariant(w) && w.proc.Busy? && w.proc.step.CheckWorktree?
    ensures Invariant(WorktreeChecked(w))
  {
    hide InScope, RepoSound, Safe, Persist, BooksSound;
    if Remembered(w).Some? {
      var record := Remembered(w).value;
      RememberedSound(w);
      if w.checkout.Present? && w.checkout.content.ignored == map[] {
        PersistKeeps(w, record.(indexOwned := true), Compare);
        MoveKeeps(w, Compare);
      }
    }
    StopKeeps(w);
  }

  lemma PersistStateKeeps(w: World, leftover: Content)
    requires Invariant(w) && w.proc.Busy? && (w.proc.step.PersistVerified? || w.proc.step.PersistRemoved?)
    ensures Invariant(Advanced(w, leftover))
  {
    hide InScope, RepoSound, Safe, Persist, BooksSound;
    if Remembered(w).Some? {
      var record := Remembered(w).value;
      if w.proc.step.PersistVerified? {
        PersistKeeps(w, record.(state := RefVerified, attemptCommit := Some(w.proc.commit)), CheckWorktree);
      } else {
        PersistKeeps(w, record.(state := WorktreeRemoved), Retire);
      }
    }
    StopKeeps(w);
  }

  lemma MakeCommitKeeps(w: World, leftover: Content)
    requires Invariant(w) && w.proc.Busy? && w.proc.step.MakeCommit?
    ensures Invariant(Advanced(w, leftover))
  {
    hide WithinScope, RepoSound, WithCommit, RefHolds, BaselineTree;
    NewCommitKeeps(w.repo, w.proc.snapshot);
  }

  lemma CreateRefKeeps(w: World, leftover: Content)
    requires Invariant(w) && w.proc.Busy? && w.proc.step.CreateRef?
    ensures Invariant(Advanced(w, leftover))
  {
    hide WithinScope;
  }

  /** The comparison that licenses removal: what is on disk is what the ref holds. */
  lemma CompareKeeps(w: World, leftover: Content)
    requires Invariant(w) && w.proc.Busy? && w.proc.step.Compare?
    ensures Invariant(Advanced(w, leftover))
  {
    hide InScope;
  }

  lemma RemovalKeeps(w: World, leftover: Content)
    requires Invariant(w) && w.proc.Busy?
    requires w.proc.step.BeginRemoval? || w.proc.step.FinishRemoval? || w.proc.step.DiscardCheckout?
             || w.proc.step.DiscardFinish? || w.proc.step.Retire?
    ensures Invariant(Advanced(w, leftover))
  {
    hide InScope, RepoSound, RefHolds;
  }

  lemma AdvanceKeeps(w: World, leftover: Content)
    requires Invariant(w) && w.proc.Busy?
    ensures Invariant(Advanced(w, leftover))
  {
    match w.proc.step
    case Verify => VerifyKeeps(w, leftover);
    case OwnIndex => OwnIndexKeeps(w);
    case Capture => CaptureKeeps(w, leftover);
    case MakeCommit => MakeCommitKeeps(w, leftover);
    case CheckScope => CheckScopeKeeps(w, leftover);
    case CreateRef => CreateRefKeeps(w, leftover);
    case VerifyRef => VerifyRefKeeps(w, leftover);
    case CheckWorktree => CheckWorktreeKeeps(w);
    case Compare => CompareKeeps(w, leftover);
    case PersistVerified => PersistStateKeeps(w, leftover);
    case PersistRemoved => PersistStateKeeps(w, leftover);
    case _ => RemovalKeeps(w, leftover);
    hide Invariant, Advanced;
  }

  lemma VerifyKeeps(w: World, leftover: Content)
    requires Invariant(w) && w.proc.Busy? && w.proc.step.Verify?
    ensures Invariant(Advanced(w, leftover))
  {
    hide Invariant, Verified;
    StopKeeps(w);
    if w.proc.actor.Rescuer? {
      VerifiedKeeps(w);
    }
  }

  lemma CaptureKeeps(w: World, leftover: Content)
    requires Invariant(w) && w.proc.Busy? && w.proc.step.Capture?
    ensures Invariant(Advanced(w, leftover))
  {
    hide InScope, RepoSound, Safe;
  }

  lemma CheckScopeKeeps(w: World, leftover: Content)
    requires Invariant(w) && w.proc.Busy? && w.proc.step.CheckScope?
    ensures Invariant(Advanced(w, leftover))
  {
    hide InScope, RepoSound, Safe;
  }

  lemma VerifyRefKeeps(w: World, leftover: Content)
    requires Invariant(w) && w.proc.Busy? && w.proc.step.VerifyRef?
    ensures Invariant(Advanced(w, leftover))
  {
    hide InScope, RepoSound, Safe;
  }

  lemma SetupKeeps(w: World, event: Event)
    requires Invariant(w) && Enabled(w, event)
    requires event.RecordLocation? || event.PersistReady? || event.AddCheckout? || event.SetupFails? || event.HandOver?
    ensures Invariant(Next(w, event))
  {
    hide InScope, RepoSound, RefHolds, Persist;
    match event
    case RecordLocation => PersistKeeps(w, w.lease.value.(located := true), Verify);
    case PersistReady => PersistKeeps(w, w.lease.value.(state := WorktreeReady, identified := true), Verify);
    case _ =>
  }

  lemma LaunchKeeps(w: World)
    requires Invariant(w) && Enabled(w, Launch)
    ensures Invariant(Next(w, Launch))
  {
    hide InScope, RepoSound, RefHolds;
  }

  lemma OtherKeeps(w: World, event: Event)
    requires Invariant(w) && Enabled(w, event)
    requires event.Write? || event.StartFinalize? || event.StartRecovery? || event.Fail? || event.Crash?
             || event.OwnerDies?
    ensures Invariant(Next(w, event))
  {
    hide InScope, RepoSound, RefHolds;
  }

  lemma StepKeeps(w: World, event: Event)
    requires Invariant(w) && Enabled(w, event)
    ensures Invariant(Next(w, event))
  {
    match event
    case Advance(leftover) => AdvanceKeeps(w, leftover);
    case Launch => LaunchKeeps(w);
    case Write(_) => OtherKeeps(w, event);
    case StartFinalize => OtherKeeps(w, event);
    case StartRecovery(_) => OtherKeeps(w, event);
    case Fail => OtherKeeps(w, event);
    case Crash => OtherKeeps(w, event);
    case OwnerDies => OtherKeeps(w, event);
    case _ => SetupKeeps(w, event);
    hide Invariant, Next;
  }

  lemma {:induction false} InvariantHolds(from: World, events: seq<Event>, to: World)
    requires Invariant(from) && Reaches(from, events, to)
    ensures Invariant(to)
    decreases |events|
  {
    hide Invariant, Enabled, Next;
    if events != [] {
      StepKeeps(from, events[0]);
      InvariantHolds(Next(from, events[0]), events[1..], to);
    }
  }

  // ---------------------------------------------------------------- the promises

  /**
   * No implementer work is lost.  Over any run of set-up, writes, finalization, recoveries,
   * failures and crashes, once a child was launched the latest content of its checkout is
   * intact on disk or is the tree of the attempt ref, a commit whose only parent is the
   * baseline and which stays inside the declared scope.
   */
  lemma NoWorkIsLost(from: World, events: seq<Event>, to: World)
    requires Fresh(from) && Reaches(from, events, to) && to.life.started
    ensures to.checkout == Present(to.work) || RefHolds(to.repo, to.work)
    ensures to.repo.ref.Some? ==>
              && to.repo.ref.value in to.repo.objects
              && to.repo.objects[to.repo.ref.value].parents == [to.repo.baseline]
              && InScope(to.repo, to.repo.objects[to.repo.ref.value].tree)
  {
    InvariantHolds(from, events, to);
  }

  /** A checkout a child was launched in is gone, or is being removed, only when the ref holds its work. */
  lemma RemovedOnlyWhenHeld(from: World, events: seq<Event>, to: World)
    requires Fresh(from) && Reaches(from, events, to) && to.life.started
    requires to.checkout.Absent?
             || (to.proc.Busy? && (to.proc.step.BeginRemoval? || to.proc.step.FinishRemoval?))
    ensures RefHolds(to.repo, to.work)
    ensures !(to.proc.Busy? && (to.proc.step.DiscardCheckout? || to.proc.step.DiscardFinish?))
  {
    InvariantHolds(from, events, to);
  }

  /** Commits are immutable and the attempt ref is never moved or deleted. */
  predicate Extends(before: Repo, after: Repo) {
    && after.baseline == before.baseline && after.scope == before.scope
    && (forall id <- before.objects :: id in after.objects && after.objects[id] == before.objects[id])
    && (before.ref.Some? ==> after.ref == before.ref)
  }

  lemma AdvanceExtends(w: World, leftover: Content)
    requires RepoSound(w.repo) && w.proc.Busy?
    ensures Extends(w.repo, Advanced(w, leftover).repo)
  {
    hide WithinScope;
  }

  lemma ExtendsItself(repo: Repo)
    ensures Extends(repo, repo)
  {
  }

  lemma StepExtends(w: World, event: Event)
    requires Invariant(w) && Enabled(w, event)
    ensures Extends(w.repo, Next(w, event).repo)
  {
    hide WithinScope, Safe, StepSound, BooksSound;
    if event.Advance? {
      AdvanceExtends(w, event.leftover);
    } else {
      hide Advanced, Extends;
      assert Next(w, event).repo == w.repo;
      ExtendsItself(w.repo);
    }
  }

  lemma {:induction false} AttemptRefIsForever(from: World, events: seq<Event>, to: World)
    requires Invariant(from) && Reaches(from, events, to)
    ensures Extends(from.repo, to.repo)
    decreases |events|
  {
    hide Invariant, Enabled, Next;
    if events != [] {
      StepKeeps(from, events[0]);
      StepExtends(from, events[0]);
      AttemptRefIsForever(Next(from, events[0]), events[1..], to);
    }
  }

  /** A recovery that finds the lease still reserved on record leaves an existing checkout as it is. */
  lemma ReservedMeansUntouched(from: World, events: seq<Event>, to: World, leftover: Content)
    requires Fresh(from) && Reaches(from, events, to)
    requires to.proc.Busy? && to.proc.actor.Rescuer? && to.proc.actor.record.state.Reserved?
    requires to.proc.step.Verify? && to.checkout.Present?
    ensures var next := Advanced(to, leftover);
            next.checkout == to.checkout && (next.proc.Idle? || next.proc.step.Retire?)
  {
    InvariantHolds(from, events, to);
    hide InScope, RefHolds;
  }

  // ---------------------------------------------------------------- undisturbed runs

  /** At most n effects of the running process, with nothing in between. */
  function Steps(w: World, n: nat, leftover: Content): World
    decreases n
  {
    if n == 0 || w.proc.Idle? then w else Steps(Advanced(w, leftover), n - 1, leftover)
  }

  lemma StepsUnfold(w: World, n: nat, leftover: Content)
    ensures w.proc.Idle? ==> Steps(w, n, leftover) == w
    ensures w.proc.Busy? && n > 0 ==> Steps(w, n, leftover) == Steps(Advanced(w, leftover), n - 1, leftover)
  {
  }

  /** The object the program works through: what finalize and recovery change on disk. */
  class Workspace {
    var repo: Repo
    var lease: Option<Record>
    ghost var history: set<Record>
    var checkout: Checkout
    var index: Tree
    ghost var work: Content
    var life: Life
    ghost var proc: Proc

    ghost function View(): World
      reads this
    {
      World(repo, lease, history, checkout, index, work, life, proc)
    }

    constructor (repo: Repo)
      requires repo.baseline in repo.objects && (forall id <- repo.objects :: id < repo.nextId) && repo.ref.None?
      ensures Fresh(View()) && this.repo == repo
    {
      var first := Record(Reserved, false, false, false, None, 0);
      this.repo, lease, history, checkout, index := repo, Some(first), {first}, Absent, map[];
      work, life, proc := Content(map[], map[]), Life(false, false, false, false), Idle;
    }

    /** Writes the record the process remembers; the journal refuses a stale one. */
    method PersistRecord(remembered: Option<Record>, record: Record, ghost step: Step)
      returns (ok: bool, now: Option<Record>)
      requires remembered == Remembered(View()) && proc.Busy?
      modifies this
      ensures View() == Persist(old(View()), record, step)
      ensures ok == proc.Busy?
      ensures ok ==> && Remembered(View()) == now && proc.step == step && proc.snapshot == old(proc).snapshot
                     && proc.commit == old(proc).commit && proc.actor.Owner? == old(proc).actor.Owner?
    {
      var written := record.(revision := record.revision + 1);
      now := Some(written);
      if lease.None? || remembered != lease {
        proc := Idle;
        return false, now;
      }
      lease := now;
      history := history + {written};
      proc := proc.(step := step, actor := if proc.actor.Rescuer? then Rescuer(written) else proc.actor);
      return true, now;
    }

    /** The process is at this step, with what it remembers in the program's own variables. */
    ghost predicate At(step: Step, owner: bool, remembered: Option<Record>, snapshot: Tree, commit: CommitId)
      reads this
    {
      && proc.Busy? && proc.step == step && owner == proc.actor.Owner? && Remembered(View()) == remembered
      && proc.snapshot == snapshot && proc.commit == commit
    }

    method TakeIndex(owner: bool, remembered: Option<Record>, snapshot: Tree, commit: CommitId, ghost leftover: Content)
      returns (ok: bool, now: Option<Record>)
      requires At(OwnIndex, owner, remembered, snapshot, commit)
      modifies this
      ensures View() == Advanced(old(View()), leftover)
      ensures if ok then At(Capture, owner, now, snapshot, commit) else proc.Idle?
    {
      hide InScope, BaselineTree, Persist;
      now := remembered;
      if checkout.Absent? || checkout.content.ignored != map[] || remembered.None? {
        proc := Idle;
        return false, now;
      }
      if !owner {
        if !InScope(repo, checkout.content.files) {
          proc := Idle;
          return false, now;
        }
        if remembered.value.indexOwned {
          proc := proc.(step := Capture);
          return true, now;
        }
      }
      if index != BaselineTree(repo) {
        proc := Idle;
        return false, now;
      }
      ok, now := PersistRecord(remembered, remembered.value.(indexOwned := true), Capture);
    }

    method StageAndWriteTree(owner: bool, remembered: Option<Record>, ghost before: Tree, commit: CommitId,
                             ghost leftover: Content)
      returns (ok: bool, snapshot: Tree)
      requires At(Capture, owner, remembered, before, commit)
      modifies this
      ensures View() == Advanced(old(View()), leftover)
      ensures if ok then At(MakeCommit, owner, remembered, snapshot, commit) else proc.Idle?
    {
      if checkout.Absent? {
        proc := Idle;
        return false, map[];
      }
      snapshot := checkout.content.files;
      index := snapshot;
      proc := proc.(snapshot := snapshot, step := MakeCommit);
      return true, snapshot;
    }

    method CommitTree(owner: bool, remembered: Option<Record>, snapshot: Tree, ghost before: CommitId,
                      ghost leftover: Content)
      returns (commit: CommitId)
      requires At(MakeCommit, owner, remembered, snapshot, before)
      modifies this
      ensures View() == Advanced(old(View()), leftover)
      ensures At(if owner then CheckScope else CreateRef, owner, remembered, snapshot, commit)
    {
      commit := repo.nextId;
      repo := WithCommit(repo, snapshot);
      proc := proc.(commit := commit, step := if owner then CheckScope else CreateRef);
    }

    method CheckPaths(remembered: Option<Record>, snapshot: Tree, commit: CommitId, ghost leftover: Content)
      returns (ok: bool)
      requires At(CheckScope, true, remembered, snapshot, commit)
      modifies this
      ensures View() == Advanced(old(View()), leftover)
      ensures if ok then At(CreateRef, true, remembered, snapshot, commit) else proc.Idle?
    {
      hide InScope, BaselineTree;
      ok := InScope(repo, snapshot);
      if ok {
        index := BaselineTree(repo);
      }
      proc := if ok then proc.(step := CreateRef) else Idle;
    }

    /** Creation only: an existing ref is never moved. */
    method UpdateRef(owner: bool, remembered: Option<Record>, snapshot: Tree, commit: CommitId, ghost leftover: Content)
      returns (ok: bool)
      requires At(CreateRef, owner, remembered, snapshot, commit)
      modifies this
      ensures View() == Advanced(old(View()), leftover)
      ensures if ok then At(VerifyRef, owner, remembered, snapshot, commit) else proc.Idle?
    {
      ok := repo.ref.None?;
      if ok {
        repo := repo.(ref := Some(commit));
      }
      proc := if ok then proc.(step := VerifyRef) else Idle;
    }

    method ResolveRef(owner: bool, remembered: Option<Record>, snapshot: Tree, commit: CommitId,
                      ghost leftover: Content)
      returns (ok: bool)
      requires At(VerifyRef, owner, remembered, snapshot, commit)
      modifies this
      ensures View() == Advanced(old(View()), leftover)
      ensures if ok then At(PersistVerified, owner, remembered, snapshot, commit) else proc.Idle?
    {
      ok := repo.ref == Some(commit) && commit in repo.objects && repo.objects[commit].tree == snapshot;
      proc := if ok then proc.(step := PersistVerified) else Idle;
    }

    method RecordVerified(owner: bool, remembered: Option<Record>, snapshot: Tree, commit: CommitId,
                          ghost leftover: Content)
      returns (ok: bool, now: Option<Record>)
      requires At(PersistVerified, owner, remembered, snapshot, commit)
      modifies this
      ensures View() == Advanced(old(View()), leftover)
      ensures if ok then At(CheckWorktree, owner, now, snapshot, commit) else proc.Idle?
    {
      hide Persist;
      if remembered.None? {
        proc := Idle;
        return false, None;
      }
      ok, now := PersistRecord(remembered, remembered.value.(state := RefVerified, attemptCommit := Some(commit)),
                               CheckWorktree);
    }

    method InspectWorktree(owner: bool, remembered: Option<Record>, ghost snapshot: Tree, commit: CommitId,
                           ghost leftover: Content)
      returns (ok: bool, now: Option<Record>)
      requires At(CheckWorktree, owner, remembered, snapshot, commit)
      modifies this
      ensures View() == Advanced(old(View()), leftover)
      ensures if ok then At(Compare, owner, now, snapshot, commit) else proc.Idle?
    {
      hide BaselineTree, Persist;
      now := remembered;
      if checkout.Absent? || checkout.content.ignored != map[] || remembered.None? {
        proc := Idle;
        return false, now;
      }
      if !owner && remembered.value.indexOwned {
        proc := proc.(step := Compare);
        return true, now;
      }
      if index != BaselineTree(repo) {
        proc := Idle;
        return false, now;
      }
      if owner {
        proc := proc.(step := Compare);
        return true, now;
      }
      ok, now := PersistRecord(remembered, remembered.value.(indexOwned := true), Compare);
    }

    method CompareTrees(owner: bool, remembered: Option<Record>, ghost snapshot: Tree, commit: CommitId,
                        ghost leftover: Content)
      returns (ok: bool)
      requires At(Compare, owner, remembered, snapshot, commit)
      modifies this
      ensures View() == Advanced(old(View()), leftover)
      ensures if ok then At(BeginRemoval, owner, remembered, snapshot, commit) else proc.Idle?
    {
      ok := checkout.Present? && commit in repo.objects && checkout.content.files == repo.objects[commit].tree;
      if ok {
        index := checkout.content.files;
      }
      proc := if ok then proc.(step := BeginRemoval) else Idle;
    }

    /** `git worktree remove`: what a crash inside it leaves behind is `leftover`. */
    method BeginWorktreeRemoval(leftover: Content)
      requires proc.Busy? && proc.step.BeginRemoval?
      modifies this
      ensures View() == Advanced(old(View()), leftover)
      ensures proc == old(proc).(step := FinishRemoval) && lease == old(lease)
    {
      checkout := Present(leftover);
      proc := proc.(step := FinishRemoval);
    }

    method FinishWorktreeRemoval(ghost leftover: Content)
      requires proc.Busy? && proc.step.FinishRemoval?
      modifies this
      ensures View() == Advanced(old(View()), leftover)
      ensures proc == old(proc).(step := PersistRemoved) && lease == old(lease)
    {
      checkout := Absent;
      proc := proc.(step := PersistRemoved);
    }

    method RecordRemoved(owner: bool, remembered: Option<Record>, ghost snapshot: Tree, ghost commit: CommitId,
                         ghost leftover: Content)
      returns (ok: bool)
      requires At(PersistRemoved, owner, remembered, snapshot, commit)
      modifies this
      ensures View() == Advanced(old(View()), leftover)
      ensures if ok then proc.Busy? && proc.step.Retire? else proc.Idle?
    {
      hide Persist;
      if remembered.None? {
        proc := Idle;
        return false;
      }
      var now;
      ok, now := PersistRecord(remembered, remembered.value.(state := WorktreeRemoved), Retire);
    }

    method RetireLease(ghost leftover: Content)
      requires proc.Busy? && proc.step.Retire?
      modifies this
      ensures View() == Advanced(old(View()), leftover) && proc.Idle?
    {
      lease := None;
      proc := Idle;
    }

    /** From the checkout to the verified ref, in the order owner and recovery share; stops after `budget` effects. */
    method SnapshotToRef(owner: bool, remembered: Option<Record>, budget: nat, ghost leftover: Content)
      returns (ok: bool, now: Option<Record>, snapshot: Tree, commit: CommitId, left: nat)
      requires At(OwnIndex, owner, remembered, map[], 0)
      modifies this
      ensures left <= budget && Steps(View(), left, leftover) == Steps(old(View()), budget, leftover)
      ensures if ok then At(CheckWorktree, owner, now, snapshot, commit) else proc.Idle? || left == 0
    {
      hide Advanced, Steps, Remembered;
      left, commit, now, snapshot, ok := budget, 0, remembered, map[], false;
      StepsUnfold(View(), left, leftover);
      if left == 0 { return; }
      ok, now := TakeIndex(owner, remembered, snapshot, commit, leftover);
      left := left - 1;
      StepsUnfold(View(), left, leftover);
      if !ok || left == 0 { ok := false; return; }
      ok, snapshot := StageAndWriteTree(owner, now, snapshot, commit, leftover);
      left := left - 1;
      StepsUnfold(View(), left, leftover);
      if !ok || left == 0 { ok := false; return; }
      commit := CommitTree(owner, now, snapshot, commit, leftover);
      left := left - 1;
      StepsUnfold(View(), left, leftover);
      if left == 0 { ok := false; return; }
      if owner {
        ok := CheckPaths(now, snapshot, commit, leftover);
        left := left - 1;
        StepsUnfold(View(), left, leftover);
        if !ok || left == 0 { ok := false; return; }
      }
      ok, now, left := PublishRef(owner, now, snapshot, commit, left, leftover);
    }

    method PublishRef(owner: bool, remembered: Option<Record>, snapshot: Tree, commit: CommitId, budget: nat,
                      ghost leftover: Content)
      returns (ok: bool, now: Option<Record>, left: nat)
      requires At(CreateRef, owner, remembered, snapshot, commit)
      modifies this
      ensures left <= budget && Steps(View(), left, leftover) == Steps(old(View()), budget, leftover)
      ensures if ok then At(CheckWorktree, owner, now, snapshot, commit) else proc.Idle? || left == 0
    {
      hide Advanced, Steps, Remembered;
      left, now, ok := budget, remembered, false;
      StepsUnfold(View(), left, leftover);
      if left == 0 { return; }
      ok := UpdateRef(owner, now, snapshot, commit, leftover);
      left := left - 1;
      StepsUnfold(View(), left, leftover);
      if !ok || left == 0 { ok := false; return; }
      ok := ResolveRef(owner, now, snapshot, commit, leftover);
      left := left - 1;
      StepsUnfold(View(), left, leftover);
      if !ok || left == 0 { ok := false; return; }
      ok, now := RecordVerified(owner, now, snapshot, commit, leftover);
      left := left - 1;
    }

    /** From the second look at the checkout to the retired lease. */
    method RemoveAndRetire(owner: bool, remembered: Option<Record>, ghost snapshot: Tree, commit: CommitId,
                           budget: nat, leftover: Content)
      returns (left: nat)
      requires At(CheckWorktree, owner, remembered, snapshot, commit)
      modifies this
      ensures left <= budget && Steps(View(), left, leftover) == Steps(old(View()), budget, leftover)
      ensures proc.Idle? || left == 0
    {
      hide Advanced, Steps;
      left := budget;
      var ok, now := false, remembered;
      StepsUnfold(View(), left, leftover);
      if left == 0 { return; }
      ok, now := InspectWorktree(owner, now, snapshot, commit, leftover);
      left := left - 1;
      StepsUnfold(View(), left, leftover);
      if !ok || left == 0 { return; }
      ok := CompareTrees(owner, now, snapshot, commit, leftover);
      left := left - 1;
      StepsUnfold(View(), left, leftover);
      if !ok || left == 0 { return; }
      BeginWorktreeRemoval(leftover);
      left := left - 1;
      StepsUnfold(View(), left, leftover);
      if left == 0 { return; }
      FinishWorktreeRemoval(leftover);
      left := left - 1;
      StepsUnfold(View(), left, leftover);
      if left == 0 { return; }
      ok := RecordRemoved(owner, now, snapshot, commit, leftover);
      left := left - 1;
      StepsUnfold(View(), left, leftover);
      if !ok || left == 0 { return; }
      RetireLease(leftover);
      left := left - 1;
    }

    /** The owner's finalization, stopped by a failing command or a crash after `budget` effects. */
    method Finalize(budget: nat, leftover: Content)
      requires Enabled(View(), StartFinalize)
      modifies this
      ensures View() == Steps(Next(old(View()), StartFinalize), budget, leftover)
    {
      hide Advanced, Steps, Enabled;
      life := life.(closed := true);
      proc := Busy(Owner, OwnIndex, map[], 0);
      assert View() == Next(old(View()), StartFinalize);
      var ok, now, snapshot, commit, left := SnapshotToRef(true, lease, budget, leftover);
      if ok {
        left := RemoveAndRetire(true, now, snapshot, commit, left, leftover);
      }
      StepsEnd(View(), left, leftover);
    }

    /** One recovery run over the lease, with the record it loaded earlier. */
    method Recover(record: Record, budget: nat, leftover: Content)
      requires Enabled(View(), StartRecovery(record))
      modifies this
      ensures View() == Steps(Next(old(View()), StartRecovery(record)), budget, leftover)
    {
      hide Advanced, Steps, Enabled;
      proc := Busy(Rescuer(record), Verify, map[], 0);
      assert View() == Next(old(View()), StartRecovery(record));
      StepsUnfold(View(), budget, leftover);
      if budget == 0 {
        StepsEnd(View(), 0, leftover);
        return;
      }
      var left := budget - 1;
      var route := VerifyAttemptRef(record, leftover);
      match route {
        case Park =>
        case RetireOnly => left := RetireWithin(left, leftover);
        case Discard => left := DiscardReserved(left, leftover);
        case Salvage =>
          var ok, now, snapshot, commit, rest := SnapshotToRef(false, Some(record), left, leftover);
          left := rest;
          if ok {
            left := RemoveAndRetire(false, now, snapshot, commit, left, leftover);
          }
        case Resume(commit) => left := RemoveAndRetire(false, Some(record), map[], commit, left, leftover);
      }
      StepsEnd(View(), left, leftover);
    }

    /** Looks the attempt ref up and decides how recovery goes on. */
    method VerifyAttemptRef(record: Record, ghost leftover: Content) returns (route: Route)
      requires proc == Busy(Rescuer(record), Verify, map[], 0)
      modifies this
      ensures View() == Advanced(old(View()), leftover)
      ensures match route
              case Park => proc.Idle?
              case RetireOnly => proc.Busy? && proc.step.Retire?
              case Discard => proc.Busy? && proc.step.DiscardCheckout?
              case Salvage => At(OwnIndex, false, Some(record), map[], 0)
              case Resume(commit) => At(CheckWorktree, false, Some(record), map[], commit)
    {
      hide InScope;
      if repo.ref.Some? {
        var found := repo.ref.value;
        if found !in repo.objects || (record.attemptCommit.Some? && record.attemptCommit != repo.ref)
           || repo.objects[found].parents != [repo.baseline] || !InScope(repo, repo.objects[found].tree) {
          proc := Idle;
          return Park;
        }
      }
      if record.state.Reserved? {
        if repo.ref.Some? {
          route := Park;
        } else if !record.located || checkout.Absent? {
          route := RetireOnly;
        } else {
          route := if record.identified then Discard else Park;
        }
      } else if checkout.Present? {
        if !record.identified {
          route := Park;
        } else {
          route := if repo.ref.None? then Salvage else Resume(repo.ref.value);
        }
      } else {
        route := if repo.ref.Some? then RetireOnly else Park;
      }
      proc := match route
        case Park => Idle
        case RetireOnly => proc.(step := Retire)
        case Discard => proc.(step := DiscardCheckout)
        case Salvage => proc.(step := OwnIndex)
        case Resume(commit) => Busy(Rescuer(record), CheckWorktree, map[], commit);
    }

    method RetireWithin(budget: nat, ghost leftover: Content) returns (left: nat)
      requires proc.Busy? && proc.step.Retire?
      modifies this
      ensures left <= budget && Steps(View(), left, leftover) == Steps(old(View()), budget, leftover)
      ensures proc.Idle? || left == 0
    {
      hide Advanced, Steps;
      left := budget;
      StepsUnfold(View(), left, leftover);
      if left == 0 { return; }
      RetireLease(leftover);
      left := left - 1;
    }

    method DiscardReserved(budget: nat, leftover: Content) returns (left: nat)
      requires proc.Busy? && proc.step.DiscardCheckout?
      modifies this
      ensures left <= budget && Steps(View(), left, leftover) == Steps(old(View()), budget, leftover)
      ensures proc.Idle? || left == 0
    {
      hide Steps;
      left := budget;
      StepsUnfold(View(), left, leftover);
      if left == 0 { return; }
      checkout := Present(leftover);
      proc := proc.(step := DiscardFinish);
      left := left - 1;
      StepsUnfold(View(), left, leftover);
      if left == 0 { return; }
      checkout := Absent;
      proc := proc.(step := Retire);
      left := left - 1;
      StepsUnfold(View(), left, leftover);
      if left == 0 { return; }
      RetireLease(leftover);
      left := left - 1;
    }
  }

  /** How a recovery goes on once it has looked at the ref and the checkout. */
  datatype Route = Park | RetireOnly | Discard | Salvage | Resume(commit: CommitId)

  lemma StepsEnd(w: World, left: nat, leftover: Content)
    requires w.proc.Idle? || left == 0
    ensures Steps(w, left, leftover) == w
  {
  }

  // ---------------------------------------------------------------- undisturbed runs end well

  lemma {:induction false} StepsAdd(w: World, m: nat, n: nat, leftover: Content)
    ensures Steps(w, m + n, leftover) == Steps(Steps(w, m, leftover), n, leftover)
    decreases m
  {
    hide Advanced;
    if m > 0 && w.proc.Busy? {
      StepsAdd(Advanced(w, leftover), m - 1, n, leftover);
    }
  }

  /** The work can be snapshotted: nothing ignored, nothing out of scope, an index the workspace owns. */
  predicate Snapshottable(w: World) {
    && w.checkout == Present(w.work) && w.work.ignored == map[] && InScope(w.repo, w.work.files)
    && Remembered(w) == w.lease && w.lease.Some?
  }

  lemma FirstSteps(w: World, leftover: Content)
    requires RepoSound(w.repo) && Snapshottable(w) && w.index == BaselineTree(w.repo) && w.repo.ref.None?
    requires w.proc == Busy(Owner, OwnIndex, map[], 0)
    ensures var r := Steps(w, 4, leftover);
            && r.proc.Busy? && r.proc.step.CreateRef? && r.proc.actor.Owner? && r.checkout == w.checkout
            && r.work == w.work
            && r.lease.Some? && r.lease.value.indexOwned
            && r.repo == WithCommit(w.repo, w.work.files) && r.index == BaselineTree(r.repo)
            && r.proc.snapshot == w.work.files && r.proc.commit == w.repo.nextId
  {
    hide WithinScope;
    var w1 := Advanced(w, leftover);
    var w2 := Advanced(w1, leftover);
    var w3 := Advanced(w2, leftover);
    NewCommitKeeps(w.repo, w.work.files);
    var w4 := Advanced(w3, leftover);
    assert Steps(w4, 0, leftover) == w4;
    assert Steps(w3, 1, leftover) == w4;
    assert Steps(w2, 2, leftover) == w4;
    assert Steps(w1, 3, leftover) == w4;
  }

  lemma MiddleSteps(w: World, leftover: Content)
    requires w.proc.Busy? && w.proc.step.CreateRef? && w.proc.actor.Owner? && w.lease.Some? && w.repo.ref.None?
    requires w.proc.commit in w.repo.objects && w.repo.objects[w.proc.commit].tree == w.proc.snapshot
    ensures var r := Steps(w, 3, leftover);
            && r.proc == w.proc.(step := CheckWorktree) && r.checkout == w.checkout && r.work == w.work
            && r.index == w.index && r.repo == w.repo.(ref := Some(w.proc.commit))
            && r.lease.Some? && r.lease.value in r.history && r.lease.value.state.RefVerified?
            && r.lease.value.attemptCommit == r.repo.ref && r.lease.value.indexOwned == w.lease.value.indexOwned
  {
    var w1 := Advanced(w, leftover);
    var w2 := Advanced(w1, leftover);
    var w3 := Advanced(w2, leftover);
    assert Steps(w3, 0, leftover) == w3;
    assert Steps(w2, 1, leftover) == w3;
    assert Steps(w1, 2, leftover) == w3;
  }

  lemma LastSteps(w: World, leftover: Content)
    requires w.proc.Busy? && w.proc.step.CheckWorktree? && w.proc.actor.Owner? && w.lease.Some?
    requires w.checkout == Present(w.work) && w.work.ignored == map[] && w.index == BaselineTree(w.repo)
    requires w.proc.commit in w.repo.objects && w.repo.objects[w.proc.commit].tree == w.work.files
    requires w.lease.value in w.history
    ensures var r := Steps(w, 6, leftover);
            && r.proc.Idle? && r.lease.None? && r.checkout.Absent? && r.repo == w.repo && r.work == w.work
            && w.lease.value in r.history
            && w.lease.value.(state := WorktreeRemoved, revision := w.lease.value.revision + 1) in r.history
  {
    var w1 := Advanced(w, leftover);
    var w2 := Advanced(w1, leftover);
    var w3 := Advanced(w2, leftover);
    var w4 := Advanced(w3, leftover);
    var w5 := Advanced(w4, leftover);
    var w6 := Advanced(w5, leftover);
    assert Steps(w6, 0, leftover) == w6;
    assert Steps(w5, 1, leftover) == w6;
    assert Steps(w4, 2, leftover) == w6;
    assert Steps(w3, 3, leftover) == w6;
    assert Steps(w2, 4, leftover) == w6;
    assert Steps(w1, 5, leftover) == w6;
  }

  /** The records that said verified, and then removed, name the ref. */
  ghost predicate OnRecord(w: World) {
    && (exists r <- w.history :: r.state.RefVerified? && r.indexOwned && r.attemptCommit == w.repo.ref)
    && (exists r <- w.history :: r.state.WorktreeRemoved? && r.indexOwned && r.attemptCommit == w.repo.ref)
  }

  /** Undisturbed, finalization of snapshottable work ends with the ref holding it and the lease gone. */
  lemma FinalizationCompletes(w: World, leftover: Content)
    requires Invariant(w) && Enabled(w, StartFinalize) && Snapshottable(w)
    requires w.index == BaselineTree(w.repo) && w.repo.ref.None?
    ensures var r := Steps(Next(w, StartFinalize), 13, leftover);
            && r.proc.Idle? && r.lease.None? && r.checkout.Absent? && r.work == w.work && RefHolds(r.repo, w.work)
            && OnRecord(r)
  {
    hide Advanced, Steps, InScope;
    var w0 := Next(w, StartFinalize);
    FirstSteps(w0, leftover);
    var w4 := Steps(w0, 4, leftover);
    NewCommitKeeps(w.repo, w.work.files);
    MiddleSteps(w4, leftover);
    var w7 := Steps(w4, 3, leftover);
    LastSteps(w7, leftover);
    var last := w7.lease.value.(state := WorktreeRemoved, revision := w7.lease.value.revision + 1);
    assert last.state.WorktreeRemoved? && last.indexOwned && last.attemptCommit == w7.repo.ref;
    StepsAdd(w0, 4, 3, leftover);
    StepsAdd(w0, 7, 6, leftover);
  }

  // ---------------------------------------------------------------- who may be recovered

  const LAUNCH_REGISTRATION_GRACE_SECONDS := 5

  datatype Candidate = Candidate(owner: nat, child: Option<nat>, createdAt: int, launchStarted: Option<int>)

  /** Old enough, with a dead owner, a dead or unknown child, and no launch still registering. */
  predicate NeedsRecovery(c: Candidate, ageSeconds: nat, now: int, alive: set<nat>) {
    && c.createdAt <= now - ageSeconds && c.owner !in alive
    && !(c.child.Some? && c.child.value in alive)
    && !(c.child.None? && c.launchStarted.Some? && now - c.launchStarted.value < LAUNCH_REGISTRATION_GRACE_SECONDS)
  }

  /**
   * A lease that needs recovery keeps needing it as time passes and processes end, even when
   * its child registers late, as long as that child is not alive.
   */
  lemma NeedIsStable(c: Candidate, ageSeconds: nat, now: int, alive: set<nat>, later: int, fewer: set<nat>,
                     child: Option<nat>)
    requires NeedsRecovery(c, ageSeconds, now, alive) && now <= later && fewer <= alive
    requires child == c.child || (c.child.None? && child.Some? && child.value !in fewer)
    ensures NeedsRecovery(c.(child := child), ageSeconds, later, fewer)
  {
  }

  /** When a lease nobody lives for becomes due. */
  function DueAt(c: Candidate, ageSeconds: nat): int {
    var oldEnough := c.createdAt + ageSeconds;
    if c.child.Some? || c.launchStarted.None? then oldEnough
    else
      var launchSettled := c.launchStarted.value + LAUNCH_REGISTRATION_GRACE_SECONDS;
      if launchSettled > oldEnough then launchSettled else oldEnough
  }

  /** With nobody alive a lease needs recovery from one moment on, and before that or with anybody alive never. */
  lemma NeedArisesExactly(c: Candidate, ageSeconds: nat, now: int, alive: set<nat>)
    ensures NeedsRecovery(c, ageSeconds, now, alive)
            <==> ({c.owner} + (if c.child.Some? then {c.child.value} else {})) !! alive && now >= DueAt(c, ageSeconds)
  {
    var nobody := {c.owner} + (if c.child.Some? then {c.child.value} else {});
    if !(nobody !! alive) {
      var p :| p in nobody && p in alive;
    }
  }
}
