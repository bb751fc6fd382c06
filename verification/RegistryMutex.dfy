/**
 * The directory mutex of the implementer registry (implementer-mutex.ts, with the retirement of
 * private-path.ts), one file operation at a time.  Taking it makes a directory and puts an owner
 * file into it.  Retiring it, by its holder or by a rescuer that knows the holder is dead, checks
 * both identities, unlinks the owner file, checks the directory, and removes the directory; the
 * file operations go by name, so anything may happen between a check and what relies on it.
 *
 * An attempt is one try of one process to take the mutex or to retire a dead one's; directory
 * identities are not reused.
 */
module RegistryMutex {
  import opened Wrappers

  type Attempt = nat

  type Directory = nat

  datatype Phase =
    | Idle
    | Made(directory: Directory)
    | Holding(directory: Directory)
    | Checked(holder: Attempt, directory: Directory)
    | Unlinked(holder: Attempt, directory: Directory)
    | DirectoryChecked(holder: Attempt, directory: Directory)
    | Finished

  /** `makers` remembers who made each directory; `owners` the owner files there are. */
  datatype Mutex = Mutex(
    path: Option<Directory>,
    makers: map<Directory, Attempt>,
    owners: map<Directory, Attempt>,
    phases: map<Attempt, Phase>,
    dead: set<Attempt>)

  datatype Step =
    | MakeDirectory(attempt: Attempt, directory: Directory)
    | NameOwner(attempt: Attempt)
    | Check(attempt: Attempt, holder: Attempt, directory: Directory)
    | UnlinkOwner(attempt: Attempt)
    | CheckDirectory(attempt: Attempt)
    | RemoveDirectory(attempt: Attempt)
    | Die(attempt: Attempt)

  function PhaseOf(m: Mutex, a: Attempt): Phase {
    if a in m.phases then m.phases[a] else Idle
  }

  predicate Alive(m: Mutex, a: Attempt) {
    a !in m.dead
  }

  predicate Holds(m: Mutex, a: Attempt) {
    PhaseOf(m, a).Holding? && Alive(m, a)
  }

  /** A holder retires its own mutex; a rescuer, one that a process made which it has seen dead. */
  predicate MayRetire(m: Mutex, a: Attempt, holder: Attempt, d: Directory) {
    && d in m.makers && m.makers[d] == holder
    && if a == holder then PhaseOf(m, a) == Holding(d) else PhaseOf(m, a).Idle? && !Alive(m, holder)
  }

  predicate Enabled(m: Mutex, step: Step) {
    match step
    case MakeDirectory(a, d) => Alive(m, a) && PhaseOf(m, a).Idle? && m.path.None? && d !in m.makers
    case NameOwner(a) => Alive(m, a) && PhaseOf(m, a).Made?
    case Check(a, holder, d) => Alive(m, a) && MayRetire(m, a, holder, d)
    case UnlinkOwner(a) => Alive(m, a) && PhaseOf(m, a).Checked?
    case CheckDirectory(a) => Alive(m, a) && PhaseOf(m, a).Unlinked?
    case RemoveDirectory(a) => Alive(m, a) && PhaseOf(m, a).DirectoryChecked?
    case Die(a) => true
  }

  function Move(m: Mutex, a: Attempt, phase: Phase): Mutex {
    m.(phases := m.phases[a := phase])
  }

  /** The mutex path names this directory, and the owner file in it is the holder's. */
  predicate Intact(m: Mutex, holder: Attempt, d: Directory) {
    m.path == Some(d) && d in m.owners && m.owners[d] == holder
  }

  /** An operation that cannot be performed, or a check that fails, ends the attempt. */
  function Next(m: Mutex, step: Step): Mutex
    requires Enabled(m, step)
  {
    match step
    case MakeDirectory(a, d) => Move(m.(path := Some(d), makers := m.makers[d := a]), a, Made(d))
    case NameOwner(a) =>
      if m.path.None? || m.path.value in m.owners then Move(m, a, Finished)
      else Move(m.(owners := m.owners[m.path.value := a]), a, Holding(PhaseOf(m, a).directory))
    case Check(a, holder, d) => Move(m, a, if Intact(m, holder, d) then Checked(holder, d) else Finished)
    case UnlinkOwner(a) =>
      var (holder, d) := (PhaseOf(m, a).holder, PhaseOf(m, a).directory);
      if m.path.None? || m.path.value !in m.owners then Move(m, a, Finished)
      else Move(m.(owners := m.owners - {m.path.value}), a, Unlinked(holder, d))
    case CheckDirectory(a) =>
      var (holder, d) := (PhaseOf(m, a).holder, PhaseOf(m, a).directory);
      Move(m, a, if m.path == Some(d) then DirectoryChecked(holder, d) else Finished)
    case RemoveDirectory(a) =>
      if m.path.None? || m.path.value in m.owners then Move(m, a, Finished)
      else Move(m.(path := None), a, Finished)
    case Die(a) => m.(dead := m.dead + {a})
  }

  ghost predicate Reaches(from: Mutex, steps: seq<Step>, to: Mutex)
    decreases |steps|
  {
    if steps == [] then from == to
    else Enabled(from, steps[0]) && Reaches(Next(from, steps[0]), steps[1..], to)
  }

  predicate Fresh(m: Mutex) {
    m.path.None? && m.makers == map[] && m.owners == map[] && m.phases == map[]
  }

  // ---------------------------------------------------------------- the invariant

  predicate Claims(phase: Phase) {
    phase.Made? || phase.Holding?
  }

  predicate Retires(phase: Phase) {
    phase.Checked? || Removing(phase)
  }

  predicate Removing(phase: Phase) {
    phase.Unlinked? || phase.DirectoryChecked?
  }

  /** A claim of a live process stands on the directory it made, which the path names. */
  ghost predicate ClaimsStand(m: Mutex) {
    forall a <- m.phases | Claims(m.phases[a]) ::
      && m.phases[a].directory in m.makers && m.makers[m.phases[a].directory] == a
      && (a !in m.dead ==> m.path == Some(m.phases[a].directory))
      && (m.phases[a].Made? ==> m.phases[a].directory !in m.owners)
  }

  /** Directories and owner files are made by those whose claim they are. */
  ghost predicate OwnersSound(m: Mutex) {
    && (m.path.Some? ==> m.path.value in m.makers)
    && (forall d <- m.owners :: d in m.makers && m.owners[d] == m.makers[d])
  }

  /** An attempt makes one directory. */
  ghost predicate MakersSound(m: Mutex) {
    forall d <- m.makers ::
      var phase := PhaseOf(m, m.makers[d]);
      !phase.Idle? && (Claims(phase) ==> phase.directory == d)
  }

  /** Only what its holder gave up, or left behind, is retired. */
  ghost predicate RetirementsSound(m: Mutex) {
    forall a <- m.phases | Retires(m.phases[a]) ::
      && m.phases[a].directory in m.makers && m.makers[m.phases[a].directory] == m.phases[a].holder
      && (m.phases[a].holder == a || m.phases[a].holder in m.dead)
      && !PhaseOf(m, m.phases[a].holder).Made?
  }

  /** One attempt at most got to remove a directory the path still names, and no owner file is left in it. */
  ghost predicate RemovalsSound(m: Mutex) {
    && (forall a <- m.phases | Removing(m.phases[a]) && m.path == Some(m.phases[a].directory) ::
          && m.phases[a].directory !in m.owners
          && forall b <- m.phases | Removing(m.phases[b]) && m.phases[b].directory == m.phases[a].directory :: a == b)
    && (forall a <- m.phases | m.phases[a].DirectoryChecked? :: m.path == Some(m.phases[a].directory))
  }

  ghost predicate Invariant(m: Mutex) {
    ClaimsStand(m) && OwnersSound(m) && MakersSound(m) && RetirementsSound(m) && RemovalsSound(m)
  }

  /** What is removed is always the directory that was checked, although the removal goes by name. */
  lemma RemovesWhatWasChecked(m: Mutex, a: Attempt)
    requires Invariant(m) && PhaseOf(m, a).DirectoryChecked?
    ensures m.path == Some(PhaseOf(m, a).directory) && PhaseOf(m, a).directory !in m.owners
  {
  }

  lemma ClaimsKept(m: Mutex, step: Step)
    requires ClaimsStand(m) && OwnersSound(m) && RetirementsSound(m) && RemovalsSound(m) && Enabled(m, step)
    ensures ClaimsStand(Next(m, step))
  {
    var next := Next(m, step);
    forall b <- next.phases | Claims(next.phases[b])
      ensures next.phases[b].directory in next.makers && next.makers[next.phases[b].directory] == b
      ensures b !in next.dead ==> next.path == Some(next.phases[b].directory)
      ensures next.phases[b].Made? ==> next.phases[b].directory !in next.owners
    {
      if step.Die? || b != step.attempt {
        assert next.phases[b] == m.phases[b] && m.makers[m.phases[b].directory] == b;
        if step.RemoveDirectory? {
          assert m.makers[m.phases[step.attempt].directory] == m.phases[step.attempt].holder;
        }
      }
    }
  }

  lemma OwnersKept(m: Mutex, step: Step)
    requires ClaimsStand(m) && OwnersSound(m) && Enabled(m, step)
    ensures OwnersSound(Next(m, step))
  {
  }

  lemma MakersKept(m: Mutex, step: Step)
    requires ClaimsStand(m) && MakersSound(m) && Enabled(m, step)
    ensures MakersSound(Next(m, step))
  {
  }

  lemma RetirementsKept(m: Mutex, step: Step)
    requires ClaimsStand(m) && MakersSound(m) && RetirementsSound(m) && Enabled(m, step)
    ensures RetirementsSound(Next(m, step))
  {
    var next := Next(m, step);
    forall b <- next.phases | Retires(next.phases[b])
      ensures next.phases[b].directory in next.makers
      ensures next.makers[next.phases[b].directory] == next.phases[b].holder
      ensures next.phases[b].holder == b || next.phases[b].holder in next.dead
      ensures !PhaseOf(next, next.phases[b].holder).Made?
    {
      if step.Die? || b != step.attempt {
        assert next.phases[b] == m.phases[b];
      } else {
        assert step.Check? || Retires(PhaseOf(m, b));
      }
    }
  }

  /** Nobody can put an owner file into a directory that is being removed. */
  lemma NoNewOwner(m: Mutex, a: Attempt, b: Attempt)
    requires ClaimsStand(m) && RetirementsSound(m)
    requires a in m.phases && m.phases[a].Made? && a !in m.dead
    requires b in m.phases && Removing(m.phases[b]) && m.path.Some?
    ensures m.phases[b].directory != m.path.value
  {
    assert m.path == Some(m.phases[a].directory);
  }

  lemma RemovalsKept(m: Mutex, step: Step)
    requires ClaimsStand(m) && OwnersSound(m) && RetirementsSound(m) && RemovalsSound(m) && Enabled(m, step)
    ensures RemovalsSound(Next(m, step))
  {
    var next := Next(m, step);
    forall b <- next.phases | next.phases[b].DirectoryChecked? ensures next.path == Some(next.phases[b].directory) {
      if !step.Die? && step.attempt != b {
        assert next.phases[b] == m.phases[b];
      }
    }
    forall b <- next.phases | Removing(next.phases[b]) && next.path == Some(next.phases[b].directory)
      ensures next.phases[b].directory !in next.owners
      ensures forall c <- next.phases | Removing(next.phases[c])
          && next.phases[c].directory == next.phases[b].directory ::
                b == c
    {
      RemovalKept(m, step, b);
    }
  }

  lemma RemovalKept(m: Mutex, step: Step, b: Attempt)
    requires ClaimsStand(m) && OwnersSound(m) && RetirementsSound(m) && RemovalsSound(m) && Enabled(m, step)
    requires var next := Next(m, step);
             b in next.phases && Removing(next.phases[b]) && next.path == Some(next.phases[b].directory)
    ensures var next := Next(m, step);
            && next.phases[b].directory !in next.owners
            && forall c <- next.phases | Removing(next.phases[c])
                && next.phases[c].directory == next.phases[b].directory ::
                 b == c
  {
    var next := Next(m, step);
    if step.NameOwner? && b != step.attempt {
      NoNewOwner(m, step.attempt, b);
    }
    if step.MakeDirectory? && b != step.attempt {
      assert Retires(m.phases[b]);
    }
  }

  lemma StepKeeps(m: Mutex, step: Step)
    requires Invariant(m) && Enabled(m, step)
    ensures Invariant(Next(m, step))
  {
    hide ClaimsStand, OwnersSound, MakersSound, RetirementsSound, RemovalsSound, Next, Enabled;
    MakersKept(m, step);
    ClaimsKept(m, step);
    OwnersKept(m, step);
    RetirementsKept(m, step);
    RemovalsKept(m, step);
  }

  lemma {:induction false} InvariantHolds(from: Mutex, steps: seq<Step>, to: Mutex)
    requires Invariant(from) && Reaches(from, steps, to)
    ensures Invariant(to)
    decreases |steps|
  {
    hide Invariant, Next, Enabled;
    if steps != [] {
      StepKeeps(from, steps[0]);
      InvariantHolds(Next(from, steps[0]), steps[1..], to);
    }
  }

  /**
   * Mutual exclusion over every interleaving of claims, releases, rescues and deaths, although
   * checks and removals are separate: two live processes never both hold the mutex.
   */
  lemma MutualExclusionHolds(from: Mutex, steps: seq<Step>, to: Mutex, a: Attempt, b: Attempt)
    requires Fresh(from) && Reaches(from, steps, to) && Holds(to, a) && Holds(to, b)
    ensures a == b
  {
    InvariantHolds(from, steps, to);
  }

  // ---------------------------------------------------------------- an owner file removed by name

  /** A rescuer's unlink hits the owner file of a later holder. */
  predicate Overtaken(m: Mutex, step: Step) {
    && step.UnlinkOwner? && PhaseOf(m, step.attempt).Checked? && m.path.Some? && m.path.value in m.owners
    && m.path.value != PhaseOf(m, step.attempt).directory
  }

  ghost predicate NeverOvertaken(from: Mutex, steps: seq<Step>)
    decreases |steps|
  {
    steps == []
    || (Enabled(from, steps[0]) && !Overtaken(from, steps[0]) && NeverOvertaken(Next(from, steps[0]), steps[1..]))
  }

  /** The mutex of every live holder can still be read, and so be released. */
  ghost predicate HoldersIntact(m: Mutex) {
    forall a <- m.phases | m.phases[a].Holding? && a !in m.dead :: Intact(m, a, m.phases[a].directory)
  }

  lemma StepKeepsIntact(m: Mutex, step: Step)
    requires Invariant(m) && HoldersIntact(m) && Enabled(m, step) && !Overtaken(m, step)
    ensures HoldersIntact(Next(m, step))
  {
    var next := Next(m, step);
    forall b <- next.phases | next.phases[b].Holding? && b !in next.dead
      ensures Intact(next, b, next.phases[b].directory)
    {
      if step.Die? || b != step.attempt {
        assert next.phases[b] == m.phases[b] && Claims(m.phases[b]);
        if step.UnlinkOwner? {
          assert Retires(m.phases[step.attempt]);
        }
      } else {
        assert Claims(m.phases[b]);
      }
    }
  }

  lemma {:induction false} IntactUnlessOvertaken(from: Mutex, steps: seq<Step>, to: Mutex)
    requires Invariant(from) && HoldersIntact(from) && Reaches(from, steps, to) && NeverOvertaken(from, steps)
    ensures HoldersIntact(to)
    decreases |steps|
  {
    hide Invariant, Next, Enabled, HoldersIntact, Overtaken;
    if steps != [] {
      StepKeeps(from, steps[0]);
      StepKeepsIntact(from, steps[0]);
      IntactUnlessOvertaken(Next(from, steps[0]), steps[1..], to);
    }
  }

  /** The directory is there without an owner file, and nobody is about to add one or to remove it. */
  ghost predicate Orphaned(m: Mutex, d: Directory) {
    && m.path == Some(d) && d !in m.owners
    && forall a <- m.phases | Claims(m.phases[a]) || Removing(m.phases[a]) ::
         m.phases[a].directory == d ==> m.phases[a].Holding?
  }

  /** The later holder loses its owner file, and keeps the mutex. */
  lemma OvertakenOrphans(m: Mutex, step: Step)
    requires Invariant(m) && Overtaken(m, step) && Enabled(m, step)
    ensures Orphaned(Next(m, step), m.path.value)
  {
    var d := m.path.value;
    forall a <- m.phases | Claims(m.phases[a]) || Removing(m.phases[a])
      ensures m.phases[a].directory == d ==> m.phases[a].Holding?
    {
    }
  }

  /** A directory without an owner file is in the way for ever: the mutex stays for inspection. */
  lemma {:induction false} OrphanStays(from: Mutex, steps: seq<Step>, to: Mutex, d: Directory)
    requires Invariant(from) && Orphaned(from, d) && Reaches(from, steps, to)
    ensures Orphaned(to, d)
    decreases |steps|
  {
    hide Invariant, Next, Enabled, Orphaned;
    if steps != [] {
      StepKeeps(from, steps[0]);
      OrphanStaysOn(from, steps[0], d);
      OrphanStays(Next(from, steps[0]), steps[1..], to, d);
    }
  }

  lemma OrphanStaysOn(m: Mutex, step: Step, d: Directory)
    requires Invariant(m) && Orphaned(m, d) && Enabled(m, step)
    ensures Orphaned(Next(m, step), d)
  {
    var next := Next(m, step);
    forall a <- next.phases | Claims(next.phases[a]) || Removing(next.phases[a])
      ensures next.phases[a].directory == d ==> next.phases[a].Holding?
    {
      if step.Die? || a != step.attempt {
        assert next.phases[a] == m.phases[a];
      }
    }
  }

  // ---------------------------------------------------------------- who can still release

  /** The step unlinks the owner file of that attempt. */
  predicate Hits(m: Mutex, step: Step, a: Attempt) {
    && step.UnlinkOwner? && PhaseOf(m, step.attempt).Checked? && m.path.Some? && m.path.value in m.owners
    && m.owners[m.path.value] == a
  }

  predicate WasHit(from: Mutex, steps: seq<Step>, a: Attempt)
    decreases |steps|
  {
    && steps != [] && Enabled(from, steps[0])
    && (Hits(from, steps[0], a) || WasHit(Next(from, steps[0]), steps[1..], a))
  }

  predicate CanRelease(m: Mutex, a: Attempt) {
    PhaseOf(m, a).Holding? && Intact(m, a, PhaseOf(m, a).directory)
  }

  /** Whoever has stopped holding the mutex never holds it again. */
  predicate Past(phase: Phase) {
    Retires(phase) || phase.Finished?
  }

  lemma PastStays(m: Mutex, step: Step, a: Attempt)
    requires Enabled(m, step) && (Past(PhaseOf(m, a)) || !Alive(m, a))
    ensures Past(PhaseOf(Next(m, step), a)) || !Alive(Next(m, step), a)
  {
  }

  /** One step: what was intact stays so unless it is hit, and nothing mends what was hit. */
  lemma StepAndRelease(m: Mutex, step: Step, a: Attempt)
    requires Invariant(m) && Enabled(m, step) && Holds(Next(m, step), a)
    ensures CanRelease(Next(m, step), a) <==> !Hits(m, step, a) && (Holds(m, a) ==> CanRelease(m, a))
  {
    if Holds(m, a) {
      assert Claims(m.phases[a]);
    } else {
      assert step.NameOwner? && step.attempt == a && Claims(m.phases[a]);
    }
  }

  /** A step that hits a live holder is an unlink that was overtaken. */
  lemma HitIsOvertaken(m: Mutex, step: Step, a: Attempt)
    requires Invariant(m) && Enabled(m, step) && Holds(m, a) && Hits(m, step, a)
    ensures Overtaken(m, step)
  {
    assert Retires(m.phases[step.attempt]) && Claims(m.phases[a]);
  }

  lemma {:induction false} PastForEver(from: Mutex, steps: seq<Step>, to: Mutex, a: Attempt)
    requires Reaches(from, steps, to) && (Past(PhaseOf(from, a)) || !Alive(from, a))
    ensures Past(PhaseOf(to, a)) || !Alive(to, a)
    decreases |steps|
  {
    hide Next, Enabled, Past, Alive, PhaseOf;
    if steps != [] {
      PastStays(from, steps[0], a);
      PastForEver(Next(from, steps[0]), steps[1..], to, a);
    }
  }

  /** Who is yet to hold the mutex has no owner file that could be hit. */
  lemma NothingToHit(m: Mutex, step: Step, a: Attempt)
    requires Invariant(m) && Enabled(m, step)
    requires var next := Next(m, step); Alive(next, a) && !Past(PhaseOf(next, a)) && !Holds(next, a)
    ensures !Hits(m, step, a) && !Holds(m, a)
  {
  }

  lemma {:induction false} ReleaseExactly(from: Mutex, steps: seq<Step>, to: Mutex, a: Attempt)
    requires Invariant(from) && Reaches(from, steps, to) && Holds(to, a)
    ensures CanRelease(to, a) <==> !WasHit(from, steps, a) && (Holds(from, a) ==> CanRelease(from, a))
    decreases |steps|
  {
    hide Invariant, Next, Enabled, Hits, Holds, CanRelease, Past, Alive, PhaseOf;
    if steps != [] {
      var next := Next(from, steps[0]);
      StepKeeps(from, steps[0]);
      ReleaseExactly(next, steps[1..], to, a);
      if Holds(next, a) {
        StepAndRelease(from, steps[0], a);
      } else {
        HolderIsNotPast(to, a);
        if Past(PhaseOf(next, a)) || !Alive(next, a) {
          PastForEver(next, steps[1..], to, a);
        }
        NothingToHit(from, steps[0], a);
      }
    }
  }

  lemma HolderIsNotPast(m: Mutex, a: Attempt)
    ensures Holds(m, a) ==> !Past(PhaseOf(m, a)) && Alive(m, a)
  {
  }

  /**
   * For each live holder, over every run: it can still read its mutex, and so release it, if and
   * only if no unlink of the run hit its owner file; and otherwise its directory is orphaned,
   * which OrphanStays says it remains.
   */
  lemma HolderCanReleaseExactly(from: Mutex, steps: seq<Step>, to: Mutex, a: Attempt)
    requires Fresh(from) && Reaches(from, steps, to) && Holds(to, a)
    ensures CanRelease(to, a) <==> !WasHit(from, steps, a)
    ensures CanRelease(to, a) <==> !Orphaned(to, PhaseOf(to, a).directory)
  {
    hide Reaches, WasHit;
    FreshIsSound(from);
    InvariantHolds(from, steps, to);
    ReleaseExactly(from, steps, to, a);
    HeldOrOrphaned(to, a);
  }

  lemma HeldOrOrphaned(m: Mutex, a: Attempt)
    requires Invariant(m) && Holds(m, a)
    ensures CanRelease(m, a) <==> !Orphaned(m, PhaseOf(m, a).directory)
  {
    assert Claims(m.phases[a]);
    forall b <- m.phases | Claims(m.phases[b]) || Removing(m.phases[b])
      ensures m.phases[b].directory == m.phases[a].directory ==> m.phases[b].Holding?
    {
      assert Removing(m.phases[b]) ==> Retires(m.phases[b]);
    }
  }

  // ---------------------------------------------------------------- undisturbed runs

  /** The mutex after this directory was retired by that attempt. */
  function Retired(m: Mutex, a: Attempt, d: Directory): Mutex {
    m.(path := None, owners := m.owners - {d}, phases := m.phases[a := Finished])
  }

  lemma FourSteps(m: Mutex, steps: seq<Step>)
    requires |steps| == 4 && Enabled(m, steps[0]) && Enabled(Next(m, steps[0]), steps[1])
    requires Enabled(Next(Next(m, steps[0]), steps[1]), steps[2])
    requires Enabled(Next(Next(Next(m, steps[0]), steps[1]), steps[2]), steps[3])
    ensures Reaches(m, steps, Next(Next(Next(Next(m, steps[0]), steps[1]), steps[2]), steps[3]))
  {
    var m1 := Next(m, steps[0]);
    var m2 := Next(m1, steps[1]);
    var m3 := Next(m2, steps[2]);
    hide Next, Enabled;
    ReachesItself(Next(m3, steps[3]));
    assert steps[1..][1..] == steps[2..] && steps[2..][1..] == steps[3..] && steps[3..][1..] == [];
    assert Reaches(m3, steps[3..], Next(m3, steps[3]));
    assert Reaches(m2, steps[2..], Next(m3, steps[3]));
    assert Reaches(m1, steps[1..], Next(m3, steps[3]));
  }

  /**
   * Left alone, a holder gives its mutex back, and anybody who knows a dead process's mutex
   * retires it, in four operations, exactly when the path still names that directory with its
   * owner file in it; otherwise the check ends the attempt and nothing is touched.
   */
  lemma RetirementRuns(from: Mutex, steps: seq<Step>, m: Mutex, a: Attempt, holder: Attempt, d: Directory)
    requires Fresh(from) && Reaches(from, steps, m) && a !in m.dead && d in m.makers && m.makers[d] == holder
    requires if a == holder then PhaseOf(m, a) == Holding(d) else PhaseOf(m, a) == Idle && holder in m.dead
    ensures Enabled(m, Check(a, holder, d))
    ensures if m.path == Some(d) && d in m.owners
            then Reaches(m, [Check(a, holder, d), UnlinkOwner(a), CheckDirectory(a), RemoveDirectory(a)],
                         Retired(m, a, d))
            else Next(m, Check(a, holder, d)) == m.(phases := m.phases[a := Finished])
  {
    FreshIsSound(from);
    InvariantHolds(from, steps, m);
    hide ClaimsStand, MakersSound, RetirementsSound, RemovalsSound, Reaches;
    if m.path == Some(d) && d in m.owners {
      FourSteps(m, [Check(a, holder, d), UnlinkOwner(a), CheckDirectory(a), RemoveDirectory(a)]);
      var m4 := Next(Next(Next(Next(m, Check(a, holder, d)), UnlinkOwner(a)), CheckDirectory(a)), RemoveDirectory(a));
      assert m.phases[a := Checked(holder, d)][a := Unlinked(holder, d)][a := DirectoryChecked(holder, d)]
             [a := Finished] == m.phases[a := Finished];
      assert m4 == Retired(m, a, d);
    }
  }

  /** Once the path is free, anybody alive that has not tried yet takes the mutex in two operations. */
  lemma TakingRuns(from: Mutex, steps: seq<Step>, m: Mutex, a: Attempt, d: Directory)
    requires Fresh(from) && Reaches(from, steps, m) && a !in m.dead && PhaseOf(m, a) == Idle && d !in m.makers
    ensures Enabled(m, MakeDirectory(a, d)) <==> m.path.None?
    ensures m.path.None? ==>
              var made := Next(m, MakeDirectory(a, d));
              && Enabled(made, NameOwner(a))
              && var held := Next(made, NameOwner(a)); Holds(held, a) && CanRelease(held, a)
  {
    FreshIsSound(from);
    InvariantHolds(from, steps, m);
    hide ClaimsStand, MakersSound, RetirementsSound, RemovalsSound, Reaches;
  }

  // ---------------------------------------------------------------- a run that is overtaken

  const BEGUN := Mutex(None, map[], map[], map[], {})

  /** Process 0 dies holding the mutex, 1 and 2 check it, and 2 removes it. */
  function Rescue(): seq<Step> {
    [MakeDirectory(0, 0), NameOwner(0), Die(0), Check(1, 0, 0), Check(2, 0, 0),
     UnlinkOwner(2), CheckDirectory(2), RemoveDirectory(2)]
  }

  lemma ReachesStep(from: Mutex, steps: seq<Step>, middle: Mutex, step: Step)
    requires Reaches(from, steps, middle) && Enabled(middle, step)
    ensures Reaches(from, steps + [step], Next(middle, step))
    decreases |steps|
  {
    if steps == [] {
      assert Reaches(Next(middle, step), [], Next(middle, step));
      assert [step][1..] == [];
    } else {
      assert (steps + [step])[1..] == steps[1..] + [step];
      ReachesStep(Next(from, steps[0]), steps[1..], middle, step);
    }
  }

  lemma RescueRuns() returns (to: Mutex)
    ensures Reaches(BEGUN, Rescue(), to)
    ensures to.path.None? && to.makers == map[0 := 0] && to.owners == map[] && to.dead == {0}
    ensures PhaseOf(to, 1) == Checked(0, 0) && PhaseOf(to, 3) == Idle
  {
    hide Reaches;
    var m1 := Next(BEGUN, MakeDirectory(0, 0));
    var m2 := Next(m1, NameOwner(0));
    var m3 := Next(m2, Die(0));
    var m4 := Next(m3, Check(1, 0, 0));
    var m5 := Next(m4, Check(2, 0, 0));
    var m6 := Next(m5, UnlinkOwner(2));
    var m7 := Next(m6, CheckDirectory(2));
    to := Next(m7, RemoveDirectory(2));
    ReachesItself(BEGUN);
    var run: seq<Step> := [];
    ReachesStep(BEGUN, run, BEGUN, MakeDirectory(0, 0));
    run := run + [MakeDirectory(0, 0)];
    ReachesStep(BEGUN, run, m1, NameOwner(0));
    run := run + [NameOwner(0)];
    ReachesStep(BEGUN, run, m2, Die(0));
    run := run + [Die(0)];
    ReachesStep(BEGUN, run, m3, Check(1, 0, 0));
    run := run + [Check(1, 0, 0)];
    ReachesStep(BEGUN, run, m4, Check(2, 0, 0));
    run := run + [Check(2, 0, 0)];
    ReachesStep(BEGUN, run, m5, UnlinkOwner(2));
    run := run + [UnlinkOwner(2)];
    ReachesStep(BEGUN, run, m6, CheckDirectory(2));
    run := run + [CheckDirectory(2)];
    ReachesStep(BEGUN, run, m7, RemoveDirectory(2));
    assert run + [RemoveDirectory(2)] == Rescue();
  }

  lemma ReachesItself(m: Mutex)
    ensures Reaches(m, [], m)
  {
  }

  /** The slower rescuer removes the owner file of the holder that came after. */
  lemma SlowRescuerOrphansHolder() returns (to: Mutex)
    ensures Reaches(BEGUN, Rescue() + [MakeDirectory(3, 1), NameOwner(3), UnlinkOwner(1)], to)
    ensures Holds(to, 3) && Orphaned(to, 1)
  {
    hide Reaches, Rescue, Invariant;
    var m1 := RescueRuns();
    var m2 := Next(m1, MakeDirectory(3, 1));
    var m3 := Next(m2, NameOwner(3));
    to := Next(m3, UnlinkOwner(1));
    var run := Rescue();
    ReachesStep(BEGUN, run, m1, MakeDirectory(3, 1));
    run := run + [MakeDirectory(3, 1)];
    ReachesStep(BEGUN, run, m2, NameOwner(3));
    run := run + [NameOwner(3)];
    ReachesStep(BEGUN, run, m3, UnlinkOwner(1));
    FreshIsSound(BEGUN);
    InvariantHolds(BEGUN, run, m3);
    OvertakenOrphans(m3, UnlinkOwner(1));
    assert run + [UnlinkOwner(1)] == Rescue() + [MakeDirectory(3, 1), NameOwner(3), UnlinkOwner(1)];
  }

  lemma FreshIsSound(m: Mutex)
    requires Fresh(m)
    ensures Invariant(m)
  {
  }
}
