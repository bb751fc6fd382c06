/**
 * The registry of live implementer leases (workspace-registry.ts): reservations are made
 * under a directory mutex that outlives a crashed holder, and only recovery, which sees that
 * the holder is dead, may take a mutex away.
 */
module WorkspaceRegistry {
  import opened Wrappers
  import opened ImplementScope
  import Journal = LeaseJournal
  import Directory = RegistryMutex

  const MAX_PARALLEL_IMPLEMENTERS := 3

  type Pid = nat

  type Token = string

  datatype Lease = Lease(owner: Pid, baseline: string, scope: seq<string>)

  /** A lease directory whose journal holds no committed revision yet cannot be read. */
  datatype Entry = Staged | Live(lease: Lease)

  /** What the holder of the mutex has established and not yet completed. */
  datatype Work = Free | Admitted(token: Token, lease: Lease) | Staging(token: Token, lease: Lease)

  /** Claimed: the mutex directory exists but does not name its owner yet. */
  datatype Mutex = Open | Claimed(pid: Pid) | Held(pid: Pid, work: Work)

  datatype Registry = Registry(mutex: Mutex, entries: map<Token, Entry>, dead: set<Pid>)

  datatype Refusal = Unreadable | BaselineChanged | ScopeOverlaps | CapReached

  datatype Step =
    | Claim(pid: Pid)
    | NameOwner(pid: Pid)
    | Admit(pid: Pid, token: Token, lease: Lease)
    | Stage(pid: Pid)
    | Commit(pid: Pid)
    | Update(pid: Pid, token: Token, lease: Lease)
    | Remove(pid: Pid, token: Token)
    | Release(pid: Pid)
    | Die(pid: Pid)
    | RecoverMutex(rescuer: Pid)

  // ---------------------------------------------------------------- admission

  predicate Readable(entries: map<Token, Entry>) {
    forall t <- entries :: entries[t].Live?
  }

  predicate OtherBaseline(entries: map<Token, Entry>, lease: Lease) {
    exists t <- entries :: entries[t].Live? && entries[t].lease.baseline != lease.baseline
  }

  predicate OtherOverlaps(fold: string -> string, entries: map<Token, Entry>, lease: Lease) {
    exists t <- entries :: entries[t].Live? && ScopesOverlap(fold, lease.scope, entries[t].lease.scope)
  }

  /** The checks of one reservation, in their order. */
  function Refused(fold: string -> string, entries: map<Token, Entry>, lease: Lease): Option<Refusal> {
    if !Readable(entries) then Some(Unreadable)
    else if OtherBaseline(entries, lease) then Some(BaselineChanged)
    else if OtherOverlaps(fold, entries, lease) then Some(ScopeOverlaps)
    else if |entries| >= MAX_PARALLEL_IMPLEMENTERS then Some(CapReached)
    else None
  }

  // ---------------------------------------------------------------- steps

  predicate Alive(r: Registry, pid: Pid) {
    pid !in r.dead
  }

  predicate Holds(r: Registry, pid: Pid) {
    r.mutex.Held? && r.mutex.pid == pid && Alive(r, pid)
  }

  predicate Enabled(fold: string -> string, r: Registry, step: Step) {
    match step
    case Claim(pid) => Alive(r, pid) && r.mutex.Open?
    case NameOwner(pid) => Alive(r, pid) && r.mutex == Claimed(pid)
    case Admit(pid, token, lease) =>
      Holds(r, pid) && r.mutex.work.Free? && Refused(fold, r.entries, lease).None? && lease.owner == pid
    case Stage(pid) => Holds(r, pid) && r.mutex.work.Admitted? && r.mutex.work.token !in r.entries
    case Commit(pid) => Holds(r, pid) && r.mutex.work.Staging?
    case Update(pid, token, lease) =>
      && Holds(r, pid) && r.mutex.work.Free? && token in r.entries && r.entries[token].Live?
      && r.entries[token].lease == lease
    case Remove(pid, token) => Holds(r, pid) && r.mutex.work.Free? && token in r.entries && r.entries[token].Live?
    case Release(pid) => Holds(r, pid)
    case Die(pid) => true
    case RecoverMutex(rescuer) => Alive(r, rescuer) && r.mutex.Held? && !Alive(r, r.mutex.pid)
  }

  function Next(r: Registry, step: Step): Registry {
    match step
    case Claim(pid) => r.(mutex := Claimed(pid))
    case NameOwner(pid) => r.(mutex := Held(pid, Free))
    case Admit(pid, token, lease) => r.(mutex := Held(pid, Admitted(token, lease)))
    case Stage(pid) =>
      if r.mutex.Held? && r.mutex.work.Admitted?
      then r.(mutex := Held(pid, Staging(r.mutex.work.token, r.mutex.work.lease)),
              entries := r.entries[r.mutex.work.token := Staged])
      else r
    case Commit(pid) =>
      if r.mutex.Held? && r.mutex.work.Staging?
      then r.(mutex := Held(pid, Free), entries := r.entries[r.mutex.work.token := Live(r.mutex.work.lease)])
      else r
    case Update(pid, token, lease) => r.(entries := r.entries[token := Live(lease)])
    case Remove(pid, token) => r.(entries := r.entries - {token})
    case Release(pid) => r.(mutex := Open)
    case Die(pid) => r.(dead := r.dead + {pid})
    case RecoverMutex(_) => r.(mutex := Open)
  }

  ghost predicate Reaches(fold: string -> string, from: Registry, steps: seq<Step>, to: Registry)
    decreases |steps|
  {
    if steps == [] then from == to
    else Enabled(fold, from, steps[0]) && Reaches(fold, Next(from, steps[0]), steps[1..], to)
  }

  // ---------------------------------------------------------------- the invariant

  ghost predicate PairsCompatible(fold: string -> string, entries: map<Token, Entry>) {
    forall t, u | t in entries && u in entries && t != u && entries[t].Live? && entries[u].Live? ::
      && entries[t].lease.baseline == entries[u].lease.baseline
      && !ScopesOverlap(fold, entries[t].lease.scope, entries[u].lease.scope)
  }

  /** One baseline, at most three, and no two live scopes that overlap. */
  ghost predicate Compatible(fold: string -> string, entries: map<Token, Entry>) {
    |entries| <= MAX_PARALLEL_IMPLEMENTERS && PairsCompatible(fold, entries)
  }

  /** What the holder checked still holds of everything but its own staged entry. */
  ghost predicate WorkSound(fold: string -> string, r: Registry) {
    r.mutex.Held? ==>
      match r.mutex.work
      case Free => true
      case Admitted(token, lease) => Refused(fold, r.entries, lease).None?
      case Staging(token, lease) =>
        token in r.entries && r.entries[token].Staged? && Refused(fold, r.entries - {token}, lease).None?
  }

  ghost predicate Invariant(fold: string -> string, r: Registry) {
    Compatible(fold, r.entries) && WorkSound(fold, r)
  }

  lemma NoObstacle(fold: string -> string, entries: map<Token, Entry>, lease: Lease, u: Token)
    requires Refused(fold, entries, lease).None? && u in entries && entries[u].Live?
    ensures lease.baseline == entries[u].lease.baseline
    ensures !ScopesOverlap(fold, lease.scope, entries[u].lease.scope)
    ensures !ScopesOverlap(fold, entries[u].lease.scope, lease.scope)
  {
    hide ScopesOverlap;
    OverlapIsSymmetric(fold, lease.scope, entries[u].lease.scope);
  }

  lemma GrowsByOne(entries: map<Token, Entry>, token: Token, entry: Entry)
    requires token !in entries
    ensures |entries[token := entry]| == |entries| + 1
  {
    var more := entries[token := entry];
    assert more.Keys == entries.Keys + {token};
    assert |more| == |more.Keys| && |entries| == |entries.Keys|;
  }

  lemma AdmittedPairs(fold: string -> string, entries: map<Token, Entry>, token: Token, entry: Entry, lease: Lease)
    requires PairsCompatible(fold, entries) && Refused(fold, entries, lease).None?
    requires entry.Live? ==> entry.lease == lease
    ensures PairsCompatible(fold, entries[token := entry])
  {
    hide ScopesOverlap, Refused;
    forall u | u in entries && entries[u].Live?
      ensures lease.baseline == entries[u].lease.baseline
      ensures !ScopesOverlap(fold, lease.scope, entries[u].lease.scope)
      ensures !ScopesOverlap(fold, entries[u].lease.scope, lease.scope)
    {
      NoObstacle(fold, entries, lease, u);
    }
  }

  lemma AdmittedIsCompatible(fold: string -> string, entries: map<Token, Entry>, token: Token, lease: Lease)
    requires Compatible(fold, entries) && token !in entries && Refused(fold, entries, lease).None?
    ensures Compatible(fold, entries[token := Live(lease)]) && Compatible(fold, entries[token := Staged])
  {
    assert |entries| < MAX_PARALLEL_IMPLEMENTERS;
    hide PairsCompatible, Refused;
    GrowsByOne(entries, token, Live(lease));
    GrowsByOne(entries, token, Staged);
    AdmittedPairs(fold, entries, token, Live(lease), lease);
    AdmittedPairs(fold, entries, token, Staged, lease);
  }

  /** What a wider registry has in common also holds of the entries it was made from. */
  lemma CompatibleMeansNoObstacle(fold: string -> string, entries: map<Token, Entry>, token: Token, lease: Lease,
                                  u: Token)
    requires PairsCompatible(fold, entries[token := Live(lease)]) && token !in entries
    requires u in entries && entries[u].Live?
    ensures lease.baseline == entries[u].lease.baseline && !ScopesOverlap(fold, lease.scope, entries[u].lease.scope)
  {
    hide ScopesOverlap;
    var more := entries[token := Live(lease)];
    assert token in more && u in more && token != u && more[u] == entries[u] && more[token] == Live(lease);
  }

  /**
   * Admission refuses exactly what would break the registry's invariant: into readable entries
   * that satisfy it, a new lease is admitted if and only if they still satisfy it with that lease.
   */
  lemma AdmittedExactly(fold: string -> string, entries: map<Token, Entry>, token: Token, lease: Lease)
    requires Compatible(fold, entries) && (forall t <- entries :: entries[t].Live?) && token !in entries
    ensures Refused(fold, entries, lease).None? <==> Compatible(fold, entries[token := Live(lease)])
  {
    if Refused(fold, entries, lease).None? {
      AdmittedIsCompatible(fold, entries, token, lease);
    }
    if Compatible(fold, entries[token := Live(lease)]) {
      GrowsByOne(entries, token, Live(lease));
      hide ScopesOverlap, PairsCompatible;
      forall u <- entries
        ensures entries[u].lease.baseline == lease.baseline && !ScopesOverlap(fold, lease.scope, entries[u].lease.scope)
      {
        CompatibleMeansNoObstacle(fold, entries, token, lease, u);
      }
    }
  }

  /** Which refusal is given: the first of the four conditions that fails, in this order. */
  lemma RefusedBecause(fold: string -> string, entries: map<Token, Entry>, lease: Lease)
    ensures var readable := forall t <- entries :: entries[t].Live?;
            var sameBaseline := forall t <- entries | entries[t].Live? :: entries[t].lease.baseline == lease.baseline;
            var disjoint := forall t <- entries | entries[t].Live? ::
                              !ScopesOverlap(fold, lease.scope, entries[t].lease.scope);
            var r := Refused(fold, entries, lease);
            && (r == Some(Unreadable) <==> !readable)
            && (r == Some(BaselineChanged) <==> readable && !sameBaseline)
            && (r == Some(ScopeOverlaps) <==> readable && sameBaseline && !disjoint)
            && (r == Some(CapReached) <==> readable && sameBaseline && disjoint && |entries| >= 3)
            && (r == None <==> readable && sameBaseline && disjoint && |entries| < 3)
  {
    hide ScopesOverlap;
  }

  lemma RemovedIsCompatible(fold: string -> string, entries: map<Token, Entry>, token: Token)
    requires Compatible(fold, entries)
    ensures Compatible(fold, entries - {token})
  {
    hide ScopesOverlap;
    assert (entries - {token}).Keys == entries.Keys - {token};
    assert |(entries - {token}).Keys| == |entries - {token}|;
  }

  lemma StepKeeps(fold: string -> string, r: Registry, step: Step)
    requires Invariant(fold, r) && Enabled(fold, r, step)
    ensures Invariant(fold, Next(r, step))
  {
    hide ScopesOverlap, Compatible, Refused;
    match step
    case Stage(pid) =>
      var (token, lease) := (r.mutex.work.token, r.mutex.work.lease);
      AdmittedIsCompatible(fold, r.entries, token, lease);
      assert r.entries[token := Staged] - {token} == r.entries;
    case Commit(pid) =>
      var (token, lease) := (r.mutex.work.token, r.mutex.work.lease);
      RemovedIsCompatible(fold, r.entries, token);
      AdmittedIsCompatible(fold, r.entries - {token}, token, lease);
      assert (r.entries - {token})[token := Live(lease)] == r.entries[token := Live(lease)];
    case Update(pid, token, lease) => assert r.entries[token := Live(lease)] == r.entries;
    case Remove(pid, token) => RemovedIsCompatible(fold, r.entries, token);
    case _ =>
  }

  /**
   * Over every run of reservations, updates, removals, crashes and mutex recoveries the live
   * leases share one baseline, are at most three, and their scopes do not overlap pairwise.
   */
  lemma {:induction false} RegistryInvariantHolds(fold: string -> string, from: Registry, steps: seq<Step>,
                                                  to: Registry)
    requires Reaches(fold, from, steps, to) && Invariant(fold, from)
    ensures Invariant(fold, to)
    decreases |steps|
  {
    hide Invariant, Enabled, Next;
    if steps != [] {
      StepKeeps(fold, from, steps[0]);
      RegistryInvariantHolds(fold, Next(from, steps[0]), steps[1..], to);
    }
  }

  predicate Empty(r: Registry) {
    r.mutex.Open? && r.entries == map[]
  }

  /** From an empty registry: no path may be written by two live implementers. */
  lemma LiveScopesShareNoPath(fold: string -> string, from: Registry, steps: seq<Step>, to: Registry,
                              t: Token, u: Token, path: string)
    requires Empty(from) && Reaches(fold, from, steps, to) && Segmentwise(fold)
    requires t in to.entries && u in to.entries && t != u && to.entries[t].Live? && to.entries[u].Live?
    requires FoldsClean(fold, to.entries[t].lease.scope) && FoldsClean(fold, to.entries[u].lease.scope)
    ensures to.entries[t].lease.baseline == to.entries[u].lease.baseline
    ensures !(Within(path, to.entries[t].lease.scope) && Within(path, to.entries[u].lease.scope))
  {
    hide ScopesOverlap, Enabled, Next, FoldsClean, Segmentwise, Within;
    RegistryInvariantHolds(fold, from, steps, to);
    NoOverlapMeansDisjoint(fold, to.entries[t].lease.scope, to.entries[u].lease.scope, path);
  }

  /** A reservation left half made by a crash stops every later admission until it is inspected. */
  lemma HalfMadeReservationBlocks(fold: string -> string, r: Registry, token: Token, step: Step)
    requires token in r.entries && r.entries[token].Staged? && (r.mutex.Held? ==> r.mutex.work.Free?)
    requires Enabled(fold, r, step)
    ensures !step.Admit?
    ensures var next := Next(r, step);
            token in next.entries && next.entries[token].Staged? && (next.mutex.Held? ==> next.mutex.work.Free?)
  {
    hide ScopesOverlap;
  }

  // ---------------------------------------------------------------- the mutex, one file operation at a time

  /** The mutex above is the directory mutex seen from outside. */
  ghost predicate Shows(r: Registry, m: Directory.Mutex) {
    && r.dead == m.dead && Directory.Invariant(m)
    && match m.path
       case None => r.mutex.Open?
       case Some(d) =>
         var maker := m.makers[d];
         if Directory.PhaseOf(m, maker).Made? then r.mutex == Claimed(maker)
         else r.mutex.Held? && r.mutex.pid == maker
  }

  /** Operations on the directory, and what a process that holds it does with the leases. */
  datatype Action = OnMutex(operation: Directory.Step) | OnLeases(step: Step)

  predicate LeaseStep(step: Step) {
    step.Admit? || step.Stage? || step.Commit? || step.Update? || step.Remove?
  }

  datatype System = System(registry: Registry, directory: Directory.Mutex)

  /** One step of the system; a step on the mutex may show as one step of the registry or as none. */
  ghost predicate Acts(fold: string -> string, s: System, action: Action, s': System) {
    match action
    case OnMutex(step) =>
      && Directory.Enabled(s.directory, step) && s'.directory == Directory.Next(s.directory, step)
      && s'.registry == ShownAfter(s.registry, s.directory, step)
    case OnLeases(step) =>
      && LeaseStep(step) && Directory.Holds(s.directory, step.pid) && Enabled(fold, s.registry, step)
      && s' == System(Next(s.registry, step), s.directory)
  }

  /** How a step on the directory shows in the registry. */
  function ShownStep(m: Directory.Mutex, step: Directory.Step): Option<Step> {
    match step
    case MakeDirectory(a, _) => Some(Claim(a))
    case NameOwner(a) => Some(NameOwner(a))
    case RemoveDirectory(a) =>
      if m.path.Some? && m.path.value in m.makers && m.makers[m.path.value] == a then Some(Release(a))
      else Some(RecoverMutex(a))
    case Die(a) => Some(Die(a))
    case _ => None
  }

  function ShownAfter(r: Registry, m: Directory.Mutex, step: Directory.Step): Registry {
    match ShownStep(m, step)
    case None => r
    case Some(shown) => Next(r, shown)
  }

  /** A removal shows as the holder's release, or as the rescue of a dead holder's mutex. */
  lemma RemovalShows(fold: string -> string, r: Registry, m: Directory.Mutex, a: Pid)
    requires Shows(r, m) && Directory.Enabled(m, Directory.RemoveDirectory(a))
    ensures var shown := ShownStep(m, Directory.RemoveDirectory(a)).value;
            && Enabled(fold, r, shown) && Next(r, shown) == r.(mutex := Open)
            && Directory.Next(m, Directory.RemoveDirectory(a)).path.None?
            && Directory.Next(m, Directory.RemoveDirectory(a)).dead == m.dead
  {
    hide Refused;
    Directory.RemovesWhatWasChecked(m, a);
  }

  lemma OtherShows(fold: string -> string, r: Registry, m: Directory.Mutex, step: Directory.Step)
    requires Shows(r, m) && Directory.Enabled(m, step) && Directory.Invariant(Directory.Next(m, step))
    requires !step.RemoveDirectory?
    ensures ShownStep(m, step).Some? ==> Enabled(fold, r, ShownStep(m, step).value)
    ensures Shows(ShownAfter(r, m, step), Directory.Next(m, step))
  {
    hide Refused;
  }

  lemma MutexStepShows(fold: string -> string, r: Registry, m: Directory.Mutex, step: Directory.Step)
    requires Shows(r, m) && Directory.Enabled(m, step)
    ensures ShownStep(m, step).Some? ==> Enabled(fold, r, ShownStep(m, step).value)
    ensures Shows(ShownAfter(r, m, step), Directory.Next(m, step))
  {
    hide Directory.Invariant, Directory.Enabled, Directory.Next, Enabled, Next;
    Directory.StepKeeps(m, step);
    if step.RemoveDirectory? {
      RemovalShows(fold, r, m, step.attempt);
    } else {
      OtherShows(fold, r, m, step);
    }
  }

  /** Who holds the directory is who the registry lets change the leases. */
  lemma HolderIsHolder(r: Registry, m: Directory.Mutex, pid: Pid)
    requires Shows(r, m) && Directory.Holds(m, pid)
    ensures Holds(r, pid)
  {
  }

  ghost predicate Runs(fold: string -> string, from: System, actions: seq<Action>, to: System)
    decreases |actions|
  {
    if actions == [] then from == to
    else exists middle :: Acts(fold, from, actions[0], middle) && Runs(fold, middle, actions[1..], to)
  }

  lemma ActionKeeps(fold: string -> string, s: System, action: Action, s': System)
    requires Shows(s.registry, s.directory) && Invariant(fold, s.registry) && Acts(fold, s, action, s')
    ensures Shows(s'.registry, s'.directory) && Invariant(fold, s'.registry)
  {
    hide Invariant, Enabled, Refused;
    match action
    case OnMutex(step) =>
      MutexStepShows(fold, s.registry, s.directory, step);
      if ShownStep(s.directory, step).Some? {
        StepKeeps(fold, s.registry, ShownStep(s.directory, step).value);
      }
    case OnLeases(step) =>
      StepKeeps(fold, s.registry, step);
      LeaseStepShows(fold, s.registry, s.directory, step);
  }

  lemma LeaseStepShows(fold: string -> string, r: Registry, m: Directory.Mutex, step: Step)
    requires Shows(r, m) && LeaseStep(step) && Directory.Holds(m, step.pid) && Enabled(fold, r, step)
    ensures Shows(Next(r, step), m)
  {
    hide Refused;
    HolderIsHolder(r, m, step.pid);
  }

  /**
   * The registry invariant with the mutex taken apart: checks and removals of the mutex are
   * separate operations, rescuers may race each other and later holders, and still the live
   * leases share one baseline, are at most three and do not overlap.
   */
  lemma {:induction false} SystemInvariantHolds(fold: string -> string, from: System, actions: seq<Action>, to: System)
    requires Shows(from.registry, from.directory) && Invariant(fold, from.registry) && Runs(fold, from, actions, to)
    ensures Shows(to.registry, to.directory) && Invariant(fold, to.registry)
    decreases |actions|
  {
    hide Shows, Invariant, Acts;
    if actions != [] {
      var middle :| Acts(fold, from, actions[0], middle) && Runs(fold, middle, actions[1..], to);
      ActionKeeps(fold, from, actions[0], middle);
      SystemInvariantHolds(fold, middle, actions[1..], to);
    }
  }

  // ---------------------------------------------------------------- updates come from the journal

  /** What every read demands of the owner and of the scope. */
  predicate Registrable(record: Journal.Record) {
    && record.ownerPid > 0 && NormalizeScope(record.scope).Ok?
    && Journal.Joined(NormalizeScope(record.scope).value) == Journal.Joined(record.scope)
  }

  /** What the registry compares, in a record of the journal. */
  function LeaseOf(record: Journal.Record): Lease
    requires Registrable(record)
  {
    Lease(record.ownerPid, record.baselineHead, record.scope)
  }

  predicate NoSeparator(scope: seq<string>) {
    forall i | 0 <= i < |scope| :: '\0' !in scope[i]
  }

  /** Entries that are accepted have no control characters in them. */
  lemma {:induction false} AcceptedHasNoSeparator(scope: seq<string>)
    requires NormalizeAll(scope).Ok?
    ensures NoSeparator(scope)
    decreases |scope|
  {
    hide Normalize, Split;
    if scope != [] {
      AcceptedHasNoSeparator(scope[1..]);
      assert forall i | 1 <= i < |scope| :: scope[i] == scope[1..][i - 1];
      assert '\0' in scope[0] ==> !PlainChar('\0');
    }
  }

  /** The first entry ends at the first separator, and there is one unless it is the only entry. */
  lemma {:induction false} JoinedParts(scope: seq<string>)
    requires scope != [] && NoSeparator(scope)
    ensures var (joined, n) := (Journal.Joined(scope), |scope[0]|);
            && n <= |joined| && joined[..n] == scope[0] && (forall i | 0 <= i < n :: joined[i] != '\0')
            && (|scope| == 1 <==> n == |joined|)
            && (|scope| > 1 ==> joined[n] == '\0' && joined[n + 1..] == Journal.Joined(scope[1..]))
  {
    assert forall i | 0 <= i < |scope[0]| :: scope[0][i] in scope[0];
  }

  /** Comparing scopes as joined strings is comparing scopes. */
  lemma {:induction false} JoinedDistinguishes(left: seq<string>, right: seq<string>)
    requires left != [] && right != [] && NoSeparator(left) && NoSeparator(right)
    requires Journal.Joined(left) == Journal.Joined(right)
    ensures left == right
    decreases |left|
  {
    JoinedParts(left);
    JoinedParts(right);
    assert left[0] == right[0];
    if |left| > 1 {
      JoinedDistinguishes(left[1..], right[1..]);
    }
    assert left == [left[0]] + left[1..] && right == [right[0]] + right[1..];
  }

  lemma SameImmutableSameLease(left: Journal.Record, right: Journal.Record)
    requires Registrable(left) && Registrable(right) && Journal.SameImmutable(left, right)
    ensures LeaseOf(left) == LeaseOf(right)
  {
    hide NormalizeAll;
    AcceptedHasNoSeparator(left.scope);
    AcceptedHasNoSeparator(right.scope);
    JoinedDistinguishes(left.scope, right.scope);
  }

  /**
   * Every update of a live lease through its journal is one the protocol has: it keeps owner,
   * baseline and scope, because the journal keeps its immutable fields.
   */
  lemma JournalWriteIsUpdate(fold: string -> string, r: Registry, pid: Pid, token: Token, c: Journal.Codec,
                             at: Journal.Place, h: seq<Journal.Record>, h': seq<Journal.Record>)
    requires Holds(r, pid) && r.mutex.work.Free? && token in r.entries
    requires Journal.History(c, at, h') && h != [] && h <= h'
    requires forall i | 0 <= i < |h'| :: Registrable(h'[i])
    requires Registrable(h[|h| - 1]) && r.entries[token] == Live(LeaseOf(h[|h| - 1]))
    ensures Registrable(h'[|h'| - 1]) && Enabled(fold, r, Update(pid, token, LeaseOf(h'[|h'| - 1])))
  {
    hide Registrable, Journal.SameImmutable, LeaseOf;
    Journal.RevisionsCount(c, at, h');
    assert h[|h| - 1] == h'[|h| - 1];
    SameLease(h'[0], h'[|h| - 1], h'[|h'| - 1]);
  }

  lemma SameLease(first: Journal.Record, left: Journal.Record, right: Journal.Record)
    requires Registrable(first) && Registrable(left) && Registrable(right)
    requires Journal.SameImmutable(first, left) && Journal.SameImmutable(first, right)
    ensures LeaseOf(left) == LeaseOf(right)
  {
    SameImmutableSameLease(first, left);
    SameImmutableSameLease(first, right);
  }

  // ---------------------------------------------------------------- the reservation

  class LeaseRegistry {
    var mutex: Mutex
    var entries: map<Token, Entry>
    var dead: set<Pid>

    ghost function View(): Registry
      reads this
    {
      Registry(mutex, entries, dead)
    }

    constructor ()
      ensures Empty(View()) && dead == {}
    {
      mutex, entries, dead := Open, map[], {};
    }

    /** Looks for a lease in the way, one directory entry at a time. */
    method CheckAdmission(fold: string -> string, lease: Lease) returns (refusal: Option<Refusal>)
      ensures refusal == Refused(fold, entries, lease)
    {
      hide ScopesOverlap;
      var pending := entries.Keys;
      while pending != {}
        invariant pending <= entries.Keys
        invariant forall t <- entries :: t in pending || entries[t].Live?
        decreases pending
      {
        var token :| token in pending;
        if entries[token].Staged? {
          return Some(Unreadable);
        }
        pending := pending - {token};
      }
      pending := entries.Keys;
      while pending != {}
        invariant pending <= entries.Keys
        invariant forall t <- entries :: t in pending || entries[t].lease.baseline == lease.baseline
        decreases pending
      {
        var token :| token in pending;
        if entries[token].lease.baseline != lease.baseline {
          return Some(BaselineChanged);
        }
        pending := pending - {token};
      }
      pending := entries.Keys;
      while pending != {}
        invariant pending <= entries.Keys
        invariant forall t <- entries :: t in pending || !ScopesOverlap(fold, lease.scope, entries[t].lease.scope)
        decreases pending
      {
        var token :| token in pending;
        if ScopesOverlap(fold, lease.scope, entries[token].lease.scope) {
          return Some(ScopeOverlaps);
        }
        pending := pending - {token};
      }
      return if |entries| >= MAX_PARALLEL_IMPLEMENTERS then Some(CapReached) else None;
    }

    /** One whole reservation by a live process that finds the mutex open, without a crash. */
    method Reserve(fold: string -> string, pid: Pid, token: Token, lease: Lease) returns (refusal: Option<Refusal>)
      requires mutex.Open? && pid !in dead && lease.owner == pid && token !in entries
      modifies this
      ensures refusal == Refused(fold, old(entries), lease)
      ensures View() == old(View()).(entries := if refusal.None? then old(entries)[token := Live(lease)]
                                     else old(entries))
    {
      mutex := Claimed(pid);
      mutex := Held(pid, Free);
      refusal := CheckAdmission(fold, lease);
      if refusal.None? {
        mutex := Held(pid, Admitted(token, lease));
        entries := entries[token := Staged];
        mutex := Held(pid, Staging(token, lease));
        entries := entries[token := Live(lease)];
        assert entries == old(entries)[token := Live(lease)];
      }
      mutex := Open;
    }
  }

  /** The method above is a run of the protocol's steps, so everything proved of runs covers it. */
  lemma ReserveIsARun(fold: string -> string, r: Registry, pid: Pid, token: Token, lease: Lease)
    requires r.mutex.Open? && pid !in r.dead && lease.owner == pid && token !in r.entries
    requires Refused(fold, r.entries, lease).None?
    ensures Reaches(fold, r, [Claim(pid), NameOwner(pid), Admit(pid, token, lease), Stage(pid), Commit(pid),
                              Release(pid)],
                    r.(entries := r.entries[token := Live(lease)]))
  {
    hide Refused;
    var r1 := Next(r, Claim(pid));
    var r2 := Next(r1, NameOwner(pid));
    var r3 := Next(r2, Admit(pid, token, lease));
    var r4 := Next(r3, Stage(pid));
    var r5 := Next(r4, Commit(pid));
    var r6 := Next(r5, Release(pid));
    assert r6 == r.(entries := r.entries[token := Live(lease)]) by {
      assert r5.entries == r.entries[token := Live(lease)];
    }
    assert Reaches(fold, r6, [], r6);
    assert Reaches(fold, r5, [Release(pid)], r6);
    assert Reaches(fold, r4, [Commit(pid), Release(pid)], r6);
    assert Reaches(fold, r3, [Stage(pid), Commit(pid), Release(pid)], r6);
    assert Reaches(fold, r2, [Admit(pid, token, lease), Stage(pid), Commit(pid), Release(pid)], r6);
    assert Reaches(fold, r1, [NameOwner(pid), Admit(pid, token, lease), Stage(pid), Commit(pid), Release(pid)], r6);
  }
}
