/**
 * No-clobber publication (atomic-file.ts, atomicCreateFile): the content is written to a
 * fresh temporary file, linked to the target name, and the temporary name is removed again.
 * Between any two operations other processes may replace the whole namespace and every file;
 * only the temporary's last identity check and its unlink are one step.
 */
module AtomicFile {
  import opened ByteStrings
  import opened Wrappers

  type Name = string

  type Inode = nat

  datatype File = File(content: Bytes, mode: nat, owner: nat)

  /** Which inode each name denotes, and what each inode holds. */
  datatype Disk = Disk(names: map<Name, Inode>, files: map<Inode, File>)

  datatype Stage =
    | Create
    | CheckNew
    | Write(offset: nat)
    | CheckWritten
    | CheckBeforeLink
    | Link
    | CheckBoth
    | CheckTarget
    | Retire
    | CheckFinal
    | CleanUp
    | Published
    | Failed

  /** One publication: what it wants, its held inode once created, and where it stands. */
  datatype Job = Job(target: Name, temporary: Name, content: Bytes, mode: nat, owner: nat, own: Inode, stage: Stage)

  datatype World = World(disk: Disk, job: Job)

  // ---------------------------------------------------------------- single operations

  function NamesOf(disk: Disk, inode: Inode): set<Name> {
    set n | n in disk.names && disk.names[n] == inode
  }

  /** The name denotes the inode, which is private and has exactly that many names. */
  predicate NamesIdentity(disk: Disk, name: Name, job: Job, links: nat) {
    && name in disk.names && disk.names[name] == job.own && job.own in disk.files
    && disk.files[job.own].mode == job.mode && disk.files[job.own].owner == job.owner
    && |NamesOf(disk, job.own)| == links
  }

  function Zeros(n: nat): Bytes {
    seq(n, _ => 0)
  }

  /** A positional write, which pads a file that was cut short. */
  function WrittenAt(content: Bytes, offset: nat, bytes: Bytes): Bytes {
    var base := if |content| < offset then content + Zeros(offset - |content|) else content;
    base[..offset] + bytes + if |base| > offset + |bytes| then base[offset + |bytes|..] else []
  }

  function At(w: World, stage: Stage): World {
    w.(job := w.job.(stage := stage))
  }

  /** After link the names are left as they are; before it the temporary may be retired. */
  function Give(w: World, published: bool): World {
    At(w, if published then Failed else CleanUp)
  }

  /** The program's next operation.  `count` is how many bytes a write manages; zero fails. */
  function Advance(w: World, count: nat): World {
    var (disk, job) := (w.disk, w.job);
    match job.stage
    case Create =>
      if job.temporary in disk.names || job.own in disk.files then At(w, Failed)
      else
        At(w.(disk := Disk(disk.names[job.temporary := job.own], disk.files[job.own := File([], job.mode, job.owner)])),
           CheckNew)
    case CheckNew =>
      if job.own in disk.files && |NamesOf(disk, job.own)| == 1 then At(w, Write(0)) else Give(w, false)
    case Write(offset) =>
      if offset >= |job.content| then At(w, CheckWritten)
      else if count == 0 || job.own !in disk.files then Give(w, false)
      else
        var end := if offset + count > |job.content| then |job.content| else offset + count;
        var file := disk.files[job.own];
        var after := file.(content := WrittenAt(file.content, offset, job.content[offset..end]));
        At(w.(disk := disk.(files := disk.files[job.own := after])), Write(end))
    case CheckWritten => if NamesIdentity(disk, job.temporary, job, 1) then At(w, CheckBeforeLink) else Give(w, false)
    case CheckBeforeLink => if NamesIdentity(disk, job.temporary, job, 1) then At(w, Link) else Give(w, false)
    case Link =>
      if job.target in disk.names || job.temporary !in disk.names then Give(w, false)
      else At(w.(disk := disk.(names := disk.names[job.target := disk.names[job.temporary]])), CheckBoth)
    case CheckBoth =>
      if NamesIdentity(disk, job.temporary, job, 2) && NamesIdentity(disk, job.target, job, 2) then At(w, CheckTarget)
      else Give(w, true)
    case CheckTarget => if NamesIdentity(disk, job.target, job, 2) then At(w, Retire) else Give(w, true)
    case Retire =>
      if NamesIdentity(disk, job.temporary, job, 2)
      then At(w.(disk := disk.(names := disk.names - {job.temporary})), CheckFinal)
      else Give(w, true)
    case CheckFinal => if NamesIdentity(disk, job.target, job, 1) then At(w, Published) else Give(w, true)
    case CleanUp =>
      if NamesIdentity(disk, job.temporary, job, 1)
      then At(w.(disk := disk.(names := disk.names - {job.temporary})), Failed)
      else At(w, Failed)
    case Published => w
    case Failed => w
  }

  // ---------------------------------------------------------------- interference

  /** Operations of this program, and whatever others do in between. */
  datatype Event = Operate(count: nat) | Others(disk: Disk) | Fault

  predicate Holding(job: Job) {
    !job.stage.Create? && !job.stage.Failed? && !job.stage.Published?
  }

  /** Others may do anything, but an inode that is held open is not reused. */
  predicate Possible(w: World, event: Event) {
    event.Others? && Holding(w.job) && w.job.own in w.disk.files ==> w.job.own in event.disk.files
  }

  /** A system call fails; what comes next depends on whether the target may already be visible. */
  function Faulted(w: World): World {
    match w.job.stage
    case Create => At(w, Failed)
    case CleanUp => At(w, Failed)
    case Published => w
    case Failed => w
    case CheckBoth => Give(w, true)
    case CheckTarget => Give(w, true)
    case Retire => Give(w, true)
    case CheckFinal => Give(w, true)
    case _ => Give(w, false)
  }

  function Next(w: World, event: Event): World {
    match event
    case Operate(count) => Advance(w, count)
    case Fault => Faulted(w)
    case Others(disk) => w.(disk := disk)
  }

  ghost predicate Reaches(from: World, events: seq<Event>, to: World)
    decreases |events|
  {
    if events == [] then from == to
    else Possible(from, events[0]) && Reaches(Next(from, events[0]), events[1..], to)
  }

  predicate Ready(w: World) {
    w.job.stage.Create? && w.job.target != w.job.temporary
  }

  // ---------------------------------------------------------------- what one operation may touch

  /**
   * Whatever others have done, an operation changes no existing name but its own temporary's,
   * which it removes only while that name denotes the held inode; it adds no name but its
   * temporary and an absent target; and it changes no file but the held one.
   */
  lemma OperationsClobberNothing(w: World, count: nat)
    ensures var (before, after, job) := (w.disk, Advance(w, count).disk, w.job);
            && (forall n | n in before.names && n != job.temporary ::
                  n in after.names && after.names[n] == before.names[n])
            && (job.temporary in before.names ==>
                  (job.temporary in after.names && after.names[job.temporary] == before.names[job.temporary])
                  || (job.temporary !in after.names && before.names[job.temporary] == job.own))
            && (forall n | n in after.names && n !in before.names :: n == job.temporary || n == job.target)
            && (forall i | i in before.files && i != job.own :: i in after.files && after.files[i] == before.files[i])
  {
  }

  // ---------------------------------------------------------------- what the held file contains

  /** How many bytes the program has written. */
  function Progress(job: Job): nat {
    match job.stage
    case Create => 0
    case CheckNew => 0
    case Write(offset) => offset
    case _ => |job.content|
  }

  /** A moment at which the held file's content was set: how far the program was, and the content. */
  datatype Change = Change(offset: nat, content: Bytes)

  /** What the program's later writes make of that content once it has come as far as `progress`. */
  function Landed(content: Bytes, change: Change, progress: nat): Bytes
    requires progress <= |content|
  {
    if progress <= change.offset then change.content
    else WrittenAt(change.content, change.offset, content[change.offset..progress])
  }

  /** Someone else changes what the held inode contains. */
  predicate Disturbs(w: World, event: Event) {
    && event.Others? && Holding(w.job) && w.job.own in w.disk.files && w.job.own in event.disk.files
    && event.disk.files[w.job.own].content != w.disk.files[w.job.own].content
  }

  /** The last change so far, once this event has happened. */
  function ChangeAfter(w: World, event: Event, change: Change): Change {
    if Disturbs(w, event) then Change(Progress(w.job), event.disk.files[w.job.own].content) else change
  }

  /** The last foreign change of the held content; `change` is what there was before these events. */
  function LastChange(w: World, events: seq<Event>, change: Change): Change
    decreases |events|
  {
    if events == [] then change
    else LastChange(Next(w, events[0]), events[1..], ChangeAfter(w, events[0], change))
  }

  /** A new file is empty. */
  const CREATED := Change(0, [])

  /** What the rest of the program's writes set right again, said without the writes. */
  predicate Harmless(content: Bytes, change: Change) {
    if change.offset < |content| then
      && |change.content| <= |content|
      && forall i | 0 <= i < change.offset ::
           content[i] == if i < |change.content| then change.content[i] else 0
    else change.content == content
  }

  /** The held file is what the last foreign change left, with the program's later writes on top. */
  ghost predicate ContentSound(w: World, change: Change) {
    match w.job.stage
    case Create => change == CREATED
    case Failed => true
    case CleanUp => true
    case Published => true
    case stage =>
      && Progress(w.job) <= |w.job.content| && change.offset <= Progress(w.job) && w.job.own in w.disk.files
      && w.disk.files[w.job.own].content == Landed(w.job.content, change, Progress(w.job))
  }

  lemma WriteLands(content: Bytes, change: Change, from: nat, end: nat)
    requires change.offset <= from < end <= |content|
    ensures WrittenAt(Landed(content, change, from), from, content[from..end]) == Landed(content, change, end)
  {
    var (o, c) := (change.offset, change.content);
    if from > o {
      var base := if |c| < o then c + Zeros(o - |c|) else c;
      assert content[o..end] == content[o..from] + content[from..end];
      assert Landed(content, change, from)[..from] == base[..o] + content[o..from];
    }
  }

  lemma AdvanceSound(w: World, change: Change, count: nat)
    requires ContentSound(w, change)
    ensures ContentSound(Advance(w, count), change)
  {
    hide NamesOf, WrittenAt;
    if w.job.stage.Write? && w.job.stage.offset < |w.job.content| && count > 0 {
      var offset := w.job.stage.offset;
      var end := if offset + count > |w.job.content| then |w.job.content| else offset + count;
      WriteLands(w.job.content, change, offset, end);
    }
  }

  lemma OthersSound(w: World, change: Change, disk: Disk)
    requires ContentSound(w, change) && Possible(w, Others(disk))
    ensures ContentSound(Next(w, Others(disk)), ChangeAfter(w, Others(disk), change))
  {
  }

  predicate SameJob(left: Job, right: Job) {
    left == right.(stage := left.stage)
  }

  lemma JobStays(w: World, event: Event)
    ensures SameJob(Next(w, event).job, w.job)
  {
    hide NamesOf, WrittenAt;
  }

  lemma {:induction false} ContentHolds(from: World, events: seq<Event>, to: World, change: Change)
    requires Reaches(from, events, to) && ContentSound(from, change)
    ensures ContentSound(to, LastChange(from, events, change)) && SameJob(to.job, from.job)
    decreases |events|
  {
    hide ContentSound, Advance, Landed, Progress;
    if events != [] {
      var event := events[0];
      match event {
        case Operate(count) => AdvanceSound(from, change, count);
        case Others(disk) => OthersSound(from, change, disk);
        case Fault => FaultSound(from, change);
      }
      JobStays(from, event);
      ContentHolds(Next(from, event), events[1..], to, ChangeAfter(from, event, change));
    }
  }

  lemma FaultSound(w: World, change: Change)
    requires ContentSound(w, change)
    ensures ContentSound(Faulted(w), change)
  {
  }

  /** What was written over a change is the content if and only if the change was harmless. */
  lemma LandedExactly(content: Bytes, change: Change)
    requires change.offset <= |content|
    ensures Landed(content, change, |content|) == content <==> Harmless(content, change)
  {
    var (o, c) := (change.offset, change.content);
    if o < |content| {
      var base := if |c| < o then c + Zeros(o - |c|) else c;
      var landed := Landed(content, change, |content|);
      assert forall i | 0 <= i < o :: landed[i] == base[i];
      assert forall i | o <= i < |content| :: landed[i] == content[i];
      assert |landed| == if |base| > |content| then |base| else |content|;
    }
  }

  // ---------------------------------------------------------------- success

  /** The operation with which a publication reports success. */
  predicate Succeeds(w: World, count: nat) {
    !w.job.stage.Published? && Advance(w, count).job.stage.Published?
  }

  /**
   * When success is reported, the target is the only name of a private file, the one this
   * publication wrote.  It holds the content if and only if the last change anybody else made
   * to it was one that the program's later writes set right: one made before the last write,
   * that agreed with what was written so far, zeros standing for what was cut off, and was not
   * longer than the content.
   */
  lemma SuccessMeansExactContent(from: World, events: seq<Event>, last: World, count: nat)
    requires Ready(from) && Reaches(from, events, last) && Succeeds(last, count)
    ensures var (disk, job, change) := (Advance(last, count).disk, from.job, LastChange(from, events, CREATED));
            && job.target in disk.names && disk.names[job.target] == job.own && NamesOf(disk, job.own) == {job.target}
            && job.own in disk.files && disk.files[job.own].mode == job.mode && disk.files[job.own].owner == job.owner
            && change.offset <= |job.content|
            && disk.files[job.own].content == Landed(job.content, change, |job.content|)
            && (disk.files[job.own].content == job.content <==> Harmless(job.content, change))
  {
    ContentHolds(from, events, last, CREATED);
    hide WrittenAt, LastChange, Harmless, Landed;
    assert last.job.stage.CheckFinal?;
    OnlyName(last.disk, last.job.target, last.job.own);
    LandedExactly(from.job.content, LastChange(from, events, CREATED));
  }

  lemma OnlyName(disk: Disk, name: Name, inode: Inode)
    requires name in NamesOf(disk, inode) && |NamesOf(disk, inode)| == 1
    ensures NamesOf(disk, inode) == {name}
  {
    assert |NamesOf(disk, inode) - {name}| == 0;
  }

  // ---------------------------------------------------------------- nothing is clobbered

  lemma {:induction false} ReachedJob(from: World, events: seq<Event>, to: World)
    requires Reaches(from, events, to)
    ensures SameJob(to.job, from.job)
    decreases |events|
  {
    hide Advance;
    if events != [] {
      JobStays(from, events[0]);
      ReachedJob(Next(from, events[0]), events[1..], to);
    }
  }

  /** The target is given its name only while it has none, so nothing that held the name is replaced. */
  lemma TargetNamedOnlyWhenAbsent(w: World, count: nat)
    requires w.job.target != w.job.temporary
    ensures var after := Advance(w, count).disk;
            w.job.target in after.names
            && !(w.job.target in w.disk.names && after.names[w.job.target] == w.disk.names[w.job.target])
            ==> w.job.stage.Link? && w.job.target !in w.disk.names
  {
  }

  /**
   * In every run, whatever others have done before: the program's next operation changes and
   * removes no name but its temporary's, and that only while it denotes the held inode; it
   * names the target only while the target has no name; and it writes no file but the held one.
   */
  lemma RunClobbersNothing(from: World, events: seq<Event>, w: World, count: nat)
    requires Ready(from) && Reaches(from, events, w)
    ensures var (before, after, job) := (w.disk, Advance(w, count).disk, from.job);
            && (forall n | n in before.names && (n != job.temporary || before.names[n] != job.own) ::
                  n in after.names && after.names[n] == before.names[n])
            && (job.target in after.names && job.target !in before.names ==> w.job.stage.Link?)
            && (forall i | i in before.files && i != job.own :: i in after.files && after.files[i] == before.files[i])
  {
    ReachedJob(from, events, w);
    hide Advance, Reaches;
    OperationsClobberNothing(w, count);
    TargetNamedOnlyWhenAbsent(w, count);
  }

  /** Others leave this name and the file behind it alone. */
  predicate LeavesAlone(event: Event, name: Name, inode: Inode, file: File) {
    event.Others? ==>
      && name in event.disk.names && event.disk.names[name] == inode
      && inode in event.disk.files && event.disk.files[inode] == file
  }

  ghost predicate Stands(w: World, inode: Inode, file: File) {
    && w.job.target in w.disk.names && w.disk.names[w.job.target] == inode
    && inode in w.disk.files && w.disk.files[inode] == file
    && (w.job.stage.Create? || w.job.stage.Failed? || w.job.own != inode)
    && (w.job.stage.Create? || w.job.stage.CheckNew? || w.job.stage.Write? || w.job.stage.CheckWritten?
        || w.job.stage.CheckBeforeLink? || w.job.stage.Link? || w.job.stage.CleanUp? || w.job.stage.Failed?)
  }

  lemma StandsOn(w: World, event: Event, inode: Inode, file: File)
    requires w.job.target != w.job.temporary && Stands(w, inode, file) && LeavesAlone(event, w.job.target, inode, file)
    ensures Stands(Next(w, event), inode, file)
  {
    hide WrittenAt, NamesOf;
  }

  /**
   * A target that exists, and that nobody else touches, is the same file with the same content
   * after any run, whatever others do elsewhere; and the run does not succeed.
   */
  lemma {:induction false} ExistingTargetSurvives(from: World, events: seq<Event>, to: World, inode: Inode, file: File)
    requires from.job.target != from.job.temporary && Stands(from, inode, file) && Reaches(from, events, to)
    requires forall k | 0 <= k < |events| :: LeavesAlone(events[k], from.job.target, inode, file)
    ensures Stands(to, inode, file) && to.job.target == from.job.target && !to.job.stage.Published?
    decreases |events|
  {
    hide Advance;
    if events != [] {
      hide Stands;
      assert LeavesAlone(events[0], from.job.target, inode, file);
      StandsOn(from, events[0], inode, file);
      JobStays(from, events[0]);
      ExistingTargetSurvives(Next(from, events[0]), events[1..], to, inode, file);
      StandsUnpublished(to, inode, file);
    }
  }

  lemma StandsUnpublished(w: World, inode: Inode, file: File)
    requires Stands(w, inode, file)
    ensures !w.job.stage.Published?
  {
  }

  // ---------------------------------------------------------------- with or without a foreign change

  /** Operations in a row; each write manages its own number of bytes. */
  function Operated(w: World, counts: seq<nat>): World
    decreases |counts|
  {
    if counts == [] then w else Operated(Advance(w, counts[0]), counts[1..])
  }

  function Operations(counts: seq<nat>): seq<Event> {
    seq(|counts|, k requires 0 <= k < |counts| => Operate(counts[k]))
  }

  /** Operations alone are a run without a foreign change. */
  lemma {:induction false} OperationsRun(w: World, counts: seq<nat>, change: Change)
    ensures Reaches(w, Operations(counts), Operated(w, counts))
    ensures LastChange(w, Operations(counts), change) == change
    decreases |counts|
  {
    hide Advance;
    if counts != [] {
      assert Operations(counts)[1..] == Operations(counts[1..]);
      OperationsRun(Advance(w, counts[0]), counts[1..], change);
    }
  }

  lemma {:induction false} RunsInParts(from: World, first: seq<Event>, middle: World, second: seq<Event>, to: World,
                                       change: Change)
    requires Reaches(from, first, middle) && Reaches(middle, second, to)
    ensures Reaches(from, first + second, to)
    ensures LastChange(from, first + second, change) == LastChange(middle, second, LastChange(from, first, change))
    decreases |first|
  {
    hide Next;
    if first == [] {
      assert first + second == second;
    } else {
      assert (first + second)[1..] == first[1..] + second;
      RunsInParts(Next(from, first[0]), first[1..], middle, second, to, ChangeAfter(from, first[0], change));
    }
  }

  /** Neither name is taken, and nothing is known under the inode the temporary will get. */
  ghost predicate Clear(start: Disk, job: Job) {
    && job.target != job.temporary && job.temporary !in start.names && job.target !in start.names
    && job.own !in start.files && NamesOf(start, job.own) == {}
  }

  function NamesAt(start: map<Name, Inode>, job: Job): map<Name, Inode> {
    match job.stage
    case Create => start
    case CheckBoth => start[job.temporary := job.own][job.target := job.own]
    case CheckTarget => start[job.temporary := job.own][job.target := job.own]
    case Retire => start[job.temporary := job.own][job.target := job.own]
    case CheckFinal => start[job.target := job.own]
    case Published => start[job.target := job.own]
    case _ => start[job.temporary := job.own]
  }

  /** What the disk looks like at each stage when that was the last foreign change. */
  ghost predicate OnTrack(start: Disk, change: Change, w: World) {
    var job := w.job;
    && !job.stage.CleanUp? && !job.stage.Failed? && w.disk.names == NamesAt(start.names, job)
    && Progress(job) <= |job.content|
    && if job.stage.Create? then w.disk.files == start.files && change == CREATED
       else
         && change.offset <= Progress(job)
         && w.disk.files
            == start.files[job.own := File(Landed(job.content, change, Progress(job)), job.mode, job.owner)]
  }

  /** At most this many operations are left. */
  function StepsLeft(job: Job): int {
    match job.stage
    case Create => 10 + |job.content|
    case CheckNew => 9 + |job.content|
    case Write(offset) => 8 + |job.content| - offset
    case CheckWritten => 7
    case CheckBeforeLink => 6
    case Link => 5
    case CheckBoth => 4
    case CheckTarget => 3
    case Retire => 2
    case CheckFinal => 1
    case _ => 0
  }

  lemma OwnNames(start: Disk, change: Change, w: World)
    requires Clear(start, w.job) && OnTrack(start, change, w)
    ensures NamesOf(w.disk, w.job.own) ==
            match w.job.stage
            case Create => {}
            case CheckBoth => {w.job.temporary, w.job.target}
            case CheckTarget => {w.job.temporary, w.job.target}
            case Retire => {w.job.temporary, w.job.target}
            case CheckFinal => {w.job.target}
            case Published => {w.job.target}
            case _ => {w.job.temporary}
  {
    hide Landed;
    assert forall n | n in start.names :: start.names[n] == w.job.own ==> n in NamesOf(start, w.job.own);
  }

  lemma WritesOn(start: Disk, change: Change, w: World, count: nat)
    requires OnTrack(start, change, w) && count > 0 && w.job.stage.Write?
    ensures var after := Advance(w, count);
            OnTrack(start, change, after) && SameJob(after.job, w.job) && StepsLeft(after.job) < StepsLeft(w.job)
  {
    hide NamesOf, WrittenAt, Landed;
    var (job, offset) := (w.job, w.job.stage.offset);
    if offset < |job.content| {
      var end := if offset + count > |job.content| then |job.content| else offset + count;
      WriteLands(job.content, change, offset, end);
    }
  }

  lemma StaysOnTrack(start: Disk, change: Change, w: World, count: nat)
    requires Clear(start, w.job) && OnTrack(start, change, w) && count > 0
    ensures OnTrack(start, change, Advance(w, count)) && SameJob(Advance(w, count).job, w.job)
    ensures w.job.stage.Published? || StepsLeft(Advance(w, count).job) < StepsLeft(w.job)
  {
    hide NamesOf, WrittenAt, Landed;
    if w.job.stage.Write? {
      WritesOn(start, change, w, count);
    } else {
      OwnNames(start, change, w);
      CreatedLands(w.job.content);
      assert start.names[w.job.temporary := w.job.own][w.job.target := w.job.own] - {w.job.temporary}
             == start.names[w.job.target := w.job.own];
    }
  }

  lemma CreatedLands(content: Bytes)
    ensures Landed(content, CREATED, 0) == []
  {
  }

  lemma {:induction false} ReachesTheEnd(start: Disk, change: Change, w: World, counts: seq<nat>)
    requires Clear(start, w.job) && OnTrack(start, change, w) && |counts| >= StepsLeft(w.job)
    requires forall k | 0 <= k < |counts| :: counts[k] > 0
    ensures var r := Operated(w, counts); r.job.stage.Published? && OnTrack(start, change, r) && SameJob(r.job, w.job)
    decreases |counts|
  {
    hide Advance, Landed;
    if counts != [] {
      StaysOnTrack(start, change, w, counts[0]);
      AfterPublication(w, counts[0]);
      ReachesTheEnd(start, change, Advance(w, counts[0]), counts[1..]);
    }
  }

  lemma AfterPublication(w: World, count: nat)
    ensures w.job.stage.Published? ==> Advance(w, count) == w
  {
  }

  /**
   * Undisturbed, and however short its writes are, publication to an absent target succeeds
   * within ten operations and one for each byte, and leaves nothing but the target behind.
   */
  lemma UndisturbedPublishes(w: World, counts: seq<nat>)
    requires Ready(w) && Clear(w.disk, w.job) && |counts| >= |w.job.content| + 10
    requires forall k | 0 <= k < |counts| :: counts[k] > 0
    ensures var (r, job) := (Operated(w, counts), w.job);
            && r.job.stage.Published? && r.disk.names == w.disk.names[job.target := job.own]
            && r.disk.files == w.disk.files[job.own := File(job.content, job.mode, job.owner)]
  {
    hide Operated, Clear, Landed;
    ReachesTheEnd(w.disk, CREATED, w, counts);
    LandedExactly(w.job.content, CREATED);
  }

  // ---------------------------------------------------------------- what a failure leaves behind

  predicate BeforeLink(stage: Stage) {
    stage.Create? || stage.CheckNew? || stage.Write? || stage.CheckWritten? || stage.CheckBeforeLink? || stage.Link?
  }

  predicate AfterLink(stage: Stage) {
    stage.CheckBoth? || stage.CheckTarget? || stage.Retire? || stage.CheckFinal?
  }

  /** Nobody else touches the disk, and system calls fail, as often as they like, only before the link. */
  predicate FailsBeforeLink(from: World, events: seq<Event>)
    decreases |events|
  {
    events == []
    || (!events[0].Others? && (events[0].Fault? ==> BeforeLink(from.job.stage))
        && FailsBeforeLink(Next(from, events[0]), events[1..]))
  }

  /** The names of a run that nobody disturbs, whether it is still going well, cleaning up, or over. */
  ghost predicate Tidy(start: Disk, w: World) {
    var job := w.job;
    && job.target != job.temporary && job.own !in start.files && NamesOf(start, job.own) == {}
    && (forall i <- start.files :: i in w.disk.files && w.disk.files[i] == start.files[i])
    && (if job.stage.Failed? then w.disk.names == start.names
        else
          && w.disk.names == NamesAt(start.names, job)
          && (job.stage.Create? ==> w.disk.files == start.files)
          && (!job.stage.Create? ==>
                && job.own in w.disk.files && w.disk.files[job.own].mode == job.mode
                && w.disk.files[job.own].owner == job.owner && job.temporary !in start.names)
          && (AfterLink(job.stage) || job.stage.Published? ==> job.target !in start.names))
  }

  lemma TidyNames(start: Disk, w: World)
    requires Tidy(start, w) && !w.job.stage.Failed? && !w.job.stage.Create?
    ensures NamesOf(w.disk, w.job.own) ==
            match w.job.stage
            case CheckBoth => {w.job.temporary, w.job.target}
            case CheckTarget => {w.job.temporary, w.job.target}
            case Retire => {w.job.temporary, w.job.target}
            case CheckFinal => {w.job.target}
            case Published => {w.job.target}
            case _ => {w.job.temporary}
  {
    assert forall n | n in start.names :: start.names[n] == w.job.own ==> n in NamesOf(start, w.job.own);
  }

  lemma WithoutTemporary(start: map<Name, Inode>, job: Job)
    requires job.temporary !in start
    ensures start[job.temporary := job.own] - {job.temporary} == start
    ensures job.target != job.temporary ==>
              start[job.temporary := job.own][job.target := job.own] - {job.temporary} == start[job.target := job.own]
  {
  }

  lemma OperatesTidily(start: Disk, w: World, count: nat)
    requires Tidy(start, w)
    ensures Tidy(start, Advance(w, count)) && SameJob(Advance(w, count).job, w.job)
  {
    hide NamesOf, WrittenAt;
    if w.job.stage.Write? {
      WritesTidily(start, w, count);
    } else if AfterLink(w.job.stage) {
      LinkedTidily(start, w, count);
    } else if !w.job.stage.Create? && !w.job.stage.Failed? {
      TidyNames(start, w);
      WithoutTemporary(start.names, w.job);
    }
  }

  lemma LinkedTidily(start: Disk, w: World, count: nat)
    requires Tidy(start, w) && AfterLink(w.job.stage)
    ensures Tidy(start, Advance(w, count)) && SameJob(Advance(w, count).job, w.job)
  {
    TidyNames(start, w);
    WithoutTemporary(start.names, w.job);
    hide NamesOf, WrittenAt;
  }

  lemma WritesTidily(start: Disk, w: World, count: nat)
    requires Tidy(start, w) && w.job.stage.Write?
    ensures Tidy(start, Advance(w, count)) && SameJob(Advance(w, count).job, w.job)
  {
    hide NamesOf, WrittenAt;
  }

  lemma FailsTidily(start: Disk, w: World)
    requires Tidy(start, w) && BeforeLink(w.job.stage)
    ensures Tidy(start, Faulted(w)) && SameJob(Faulted(w).job, w.job)
  {
    hide NamesOf;
  }

  lemma {:induction false} StaysTidy(start: Disk, from: World, events: seq<Event>, to: World)
    requires Tidy(start, from) && FailsBeforeLink(from, events) && Reaches(from, events, to)
    ensures Tidy(start, to)
    decreases |events|
  {
    hide Tidy, Advance, Faulted;
    if events != [] {
      if events[0].Fault? {
        FailsTidily(start, from);
      } else {
        OperatesTidily(start, from, events[0].count);
      }
      StaysTidy(start, Next(from, events[0]), events[1..], to);
    }
  }

  /**
   * Whatever goes wrong before the target is linked, the target being taken included, a
   * publication nobody disturbs leaves exactly the names it found, and every other file.
   */
  lemma FailureLeavesNothing(from: World, events: seq<Event>, to: World)
    requires Ready(from) && from.job.own !in from.disk.files && NamesOf(from.disk, from.job.own) == {}
    requires FailsBeforeLink(from, events) && Reaches(from, events, to)
    ensures to.job.stage.Failed? ==> to.disk.names == from.disk.names
    ensures forall i <- from.disk.files :: i in to.disk.files && to.disk.files[i] == from.disk.files[i]
  {
    hide FailsBeforeLink, Reaches, NamesOf;
    StaysTidy(from.disk, from, events, to);
  }

  /**
   * Whatever others did: until the target is linked a failure always goes to cleaning up, which
   * removes the temporary name exactly when it is still the program's private file and its only
   * name, and once the target is linked a failure leaves every name as it is.
   */
  lemma FailuresAreCleanedUp(w: World, event: Event)
    requires !event.Others?
    ensures var next := Next(w, event);
            && (BeforeLink(w.job.stage) && !w.job.stage.Create? ==> !next.job.stage.Failed?)
            && (event.Fault? && BeforeLink(w.job.stage) && !w.job.stage.Create? ==>
                  next.job.stage.CleanUp? && next.disk == w.disk)
            && (AfterLink(w.job.stage) ==>
                  && !next.job.stage.CleanUp? && (event.Fault? ==> next.job.stage.Failed?)
                  && (next.job.stage.Failed? ==> next.disk == w.disk))
            && (w.job.stage.CleanUp? ==>
                  && next.job.stage.Failed? && next.disk.files == w.disk.files
                  && next.disk.names == w.disk.names - (if RemovesTemporary(w, event) then {w.job.temporary} else {}))
  {
    assert w.disk.names - {} == w.disk.names;
    SingleName(w.disk, w.job.temporary, w.job.own);
  }

  predicate RemovesTemporary(w: World, event: Event) {
    && event.Operate? && w.job.own in w.disk.files && NamesOf(w.disk, w.job.own) == {w.job.temporary}
    && w.disk.files[w.job.own].mode == w.job.mode && w.disk.files[w.job.own].owner == w.job.owner
  }

  lemma SingleName(disk: Disk, name: Name, inode: Inode)
    ensures NamesOf(disk, inode) == {name} <==>
            name in disk.names && disk.names[name] == inode && |NamesOf(disk, inode)| == 1
  {
    if name in disk.names && disk.names[name] == inode && |NamesOf(disk, inode)| == 1 {
      OnlyName(disk, name, inode);
    }
    if NamesOf(disk, inode) == {name} {
      assert name in NamesOf(disk, inode);
    }
  }

  /** The held file is there and as private as it was created. */
  predicate HeldPrivate(disk: Disk, job: Job) {
    job.own in disk.files && disk.files[job.own].mode == job.mode && disk.files[job.own].owner == job.owner
  }

  lemma TwoNames(disk: Disk, left: Name, right: Name, inode: Inode)
    requires left != right
    ensures NamesOf(disk, inode) == {left, right}
            <==> left in NamesOf(disk, inode) && right in NamesOf(disk, inode) && |NamesOf(disk, inode)| == 2
  {
    if left in NamesOf(disk, inode) && right in NamesOf(disk, inode) && |NamesOf(disk, inode)| == 2 {
      assert |NamesOf(disk, inode) - {left, right}| == 0;
    }
  }

  /** What each check lets pass, in terms of every name the held file has at that moment. */
  lemma ChecksPassExactly(w: World, count: nat)
    requires w.job.target != w.job.temporary
    ensures var (disk, job, next) := (w.disk, w.job, Advance(w, count).job.stage);
            var names := NamesOf(disk, job.own);
            match job.stage
            case CheckNew => next == Write(0) <==> job.own in disk.files && |names| == 1
            case CheckWritten => next == CheckBeforeLink <==> HeldPrivate(disk, job) && names == {job.temporary}
            case CheckBeforeLink => next == Link <==> HeldPrivate(disk, job) && names == {job.temporary}
            case CheckBoth => next == CheckTarget <==> HeldPrivate(disk, job) && names == {job.temporary, job.target}
            case CheckTarget => next == Retire <==> HeldPrivate(disk, job) && job.target in names && |names| == 2
            case Retire => next == CheckFinal <==> HeldPrivate(disk, job) && job.temporary in names && |names| == 2
            case CheckFinal => next == Published <==> HeldPrivate(disk, job) && names == {job.target}
            case _ => true
  {
    SingleName(w.disk, w.job.temporary, w.job.own);
    SingleName(w.disk, w.job.target, w.job.own);
    TwoNames(w.disk, w.job.temporary, w.job.target, w.job.own);
  }

  // ---------------------------------------------------------------- every change is possible

  /** The operations up to the last one before success. */
  lemma {:induction false} ReachesCheckFinal(start: Disk, change: Change, w: World) returns (counts: seq<nat>)
    requires Clear(start, w.job) && OnTrack(start, change, w) && !w.job.stage.Published?
    ensures var r := Operated(w, counts); r.job.stage.CheckFinal? && OnTrack(start, change, r) && SameJob(r.job, w.job)
    decreases StepsLeft(w.job)
  {
    hide Advance, Landed, NamesAt;
    if w.job.stage.CheckFinal? {
      counts := [];
    } else {
      StaysOnTrack(start, change, w, 1);
      NotYetPublished(w, 1);
      var rest := ReachesCheckFinal(start, change, Advance(w, 1));
      counts := [1] + rest;
      assert counts[1..] == rest;
    }
  }

  lemma NotYetPublished(w: World, count: nat)
    requires !w.job.stage.Published? && !w.job.stage.CheckFinal?
    ensures !Advance(w, count).job.stage.Published?
  {
  }

  lemma ClearStays(start: Disk, job: Job, other: Job)
    requires Clear(start, job) && SameJob(other, job)
    ensures Clear(start, other)
  {
  }

  /** The operations up to the moment when `offset` bytes are written. */
  lemma ReachesOffset(w: World, offset: nat) returns (counts: seq<nat>)
    requires Ready(w) && Clear(w.disk, w.job) && offset <= |w.job.content|
    ensures var r := Operated(w, counts);
            && r.job == w.job.(stage := Write(offset)) && OnTrack(w.disk, CREATED, r)
            && r.disk.files[w.job.own].content == w.job.content[..offset]
  {
    hide WrittenAt, NamesOf, Landed;
    var w1, w2 := Advance(w, 1), Advance(Advance(w, 1), 1);
    CreatedOnTrack(w);
    OwnNames(w.disk, CREATED, w1);
    StaysOnTrack(w.disk, CREATED, w1, 1);
    LandedIsPrefix(w.job.content, offset);
    if offset == 0 {
      counts := [1, 1];
      OperatedTwice(w);
    } else {
      StaysOnTrack(w.disk, CREATED, w2, offset);
      counts := [1, 1, offset];
      OperatedThrice(w, offset);
    }
  }

  lemma CreatedOnTrack(w: World)
    requires Ready(w) && Clear(w.disk, w.job)
    ensures OnTrack(w.disk, CREATED, w)
    ensures Advance(w, 1).job == w.job.(stage := CheckNew) && OnTrack(w.disk, CREATED, Advance(w, 1))
  {
    hide NamesOf;
  }

  lemma LandedIsPrefix(content: Bytes, offset: nat)
    requires offset <= |content|
    ensures Landed(content, CREATED, offset) == content[..offset]
  {
  }

  lemma OperatedTwice(w: World)
    ensures Operated(w, [1, 1]) == Advance(Advance(w, 1), 1)
  {
    hide Advance;
    assert [1, 1][1..] == [1];
    assert Operated(Advance(w, 1), [1]) == Advance(Advance(w, 1), 1);
  }

  lemma OperatedThrice(w: World, n: nat)
    ensures Operated(w, [1, 1, n]) == Advance(Advance(Advance(w, 1), 1), n)
  {
    hide Advance;
    assert [1, 1, n][1..] == [1, n] && [1, n][1..] == [n];
    assert Operated(Advance(Advance(w, 1), 1), [n]) == Advance(Advance(Advance(w, 1), 1), n);
    assert Operated(Advance(w, 1), [1, n]) == Operated(Advance(Advance(w, 1), 1), [n]);
  }

  /** Someone sets the held file's content to that of the change. */
  function Disturbance(w: World, content: Bytes): Event
    requires w.job.own in w.disk.files
  {
    Others(w.disk.(files := w.disk.files[w.job.own := w.disk.files[w.job.own].(content := content)]))
  }

  lemma DisturbedOnTrack(start: Disk, w: World, content: Bytes)
    requires OnTrack(start, CREATED, w) && w.job.stage.Write? && w.disk.files[w.job.own].content != content
    ensures var (event, change) := (Disturbance(w, content), Change(w.job.stage.offset, content));
            && Possible(w, event) && OnTrack(start, change, Next(w, event)) && Next(w, event).job == w.job
            && Reaches(w, [event], Next(w, event)) && LastChange(w, [event], CREATED) == change
  {
    var event := Disturbance(w, content);
    assert [event][1..] == [];
  }

  /**
   * From a fresh start, every change at every moment can be the last one before a publication
   * that succeeds.
   */
  lemma AnyChangeCanHappen(w: World, change: Change) returns (events: seq<Event>, last: World)
    requires Ready(w) && Clear(w.disk, w.job) && change.offset <= |w.job.content|
    requires change.content != w.job.content[..change.offset]
    ensures Reaches(w, events, last) && LastChange(w, events, CREATED) == change && Succeeds(last, 1)
    ensures forall permitted: Change -> bool :: permitted(change) ==> Permits(w, events, permitted)
  {
    hide Reaches, LastChange, Permits, OnTrack, Clear, Advance, Operated;
    var counts := ReachesOffset(w, change.offset);
    var w1 := Operated(w, counts);
    TrackHasFile(w.disk, CREATED, w1);
    var event := Disturbance(w1, change.content);
    DisturbedOnTrack(w.disk, w1, change.content);
    var w2 := Next(w1, event);
    ClearStays(w.disk, w.job, w2.job);
    var more := ReachesCheckFinal(w.disk, change, w2);
    last := Operated(w2, more);
    ClearStays(w.disk, w.job, last.job);
    OperationsRun(w, counts, CREATED);
    OperationsRun(w2, more, change);
    RunsInParts(w1, [event], w2, Operations(more), last, CREATED);
    RunsInParts(w, Operations(counts), w1, [event] + Operations(more), last, CREATED);
    events := Operations(counts) + ([event] + Operations(more));
    FinalSucceeds(w.disk, change, last);
    forall permitted: Change -> bool | permitted(change) ensures Permits(w, events, permitted) {
      OperationsPermitted(w2, more, permitted);
      OperationsPermitted(w, counts, permitted);
      DisturbancePermitted(w1, change, permitted);
      PermitsInParts(w1, [event], w2, Operations(more), permitted);
      PermitsInParts(w, Operations(counts), w1, [event] + Operations(more), permitted);
    }
  }

  lemma TrackHasFile(start: Disk, change: Change, w: World)
    requires OnTrack(start, change, w) && !w.job.stage.Create?
    ensures w.job.own in w.disk.files
  {
  }

  lemma FinalSucceeds(start: Disk, change: Change, w: World)
    requires Clear(start, w.job) && OnTrack(start, change, w) && w.job.stage.CheckFinal?
    ensures Succeeds(w, 1)
  {
    hide Landed;
    StaysOnTrack(start, change, w, 1);
  }

  /** Once anything different can be put there in time, it is published. */
  lemma TamperedContentIsPublished(w: World, other: Bytes) returns (events: seq<Event>, last: World)
    requires Ready(w) && Clear(w.disk, w.job) && other != w.job.content
    ensures Reaches(w, events, last) && Succeeds(last, 1)
    ensures var disk := Advance(last, 1).disk;
            && w.job.target in disk.names && disk.names[w.job.target] == w.job.own
            && w.job.own in disk.files && disk.files[w.job.own].content == other
  {
    hide Reaches, LastChange, Clear, Advance, Harmless, Permits;
    var change := Change(|w.job.content|, other);
    assert w.job.content[..|w.job.content|] == w.job.content;
    events, last := AnyChangeCanHappen(w, change);
    SuccessMeansExactContent(w, events, last, 1);
  }

  // ---------------------------------------------------------------- which interference can be borne

  /** Every foreign change of the held content is one of the permitted ones. */
  predicate Permits(w: World, events: seq<Event>, permitted: Change -> bool)
    decreases |events|
  {
    events == []
    || ((Disturbs(w, events[0]) ==> permitted(Change(Progress(w.job), events[0].disk.files[w.job.own].content)))
        && Permits(Next(w, events[0]), events[1..], permitted))
  }

  lemma {:induction false} OperationsPermitted(w: World, counts: seq<nat>, permitted: Change -> bool)
    ensures Permits(w, Operations(counts), permitted)
    decreases |counts|
  {
    hide Advance;
    if counts != [] {
      assert Operations(counts)[1..] == Operations(counts[1..]);
      OperationsPermitted(Advance(w, counts[0]), counts[1..], permitted);
    }
  }

  lemma DisturbancePermitted(w: World, change: Change, permitted: Change -> bool)
    requires w.job.own in w.disk.files && Progress(w.job) == change.offset && permitted(change)
    ensures Permits(w, [Disturbance(w, change.content)], permitted)
  {
    assert [Disturbance(w, change.content)][1..] == [];
  }

  lemma {:induction false} PermitsInParts(from: World, first: seq<Event>, middle: World, second: seq<Event>,
                                         permitted: Change -> bool)
    requires Reaches(from, first, middle) && Permits(from, first, permitted) && Permits(middle, second, permitted)
    ensures Permits(from, first + second, permitted)
    decreases |first|
  {
    hide Next, Disturbs;
    if first == [] {
      assert first + second == second;
    } else {
      assert (first + second)[1..] == first[1..] + second;
      PermitsInParts(Next(from, first[0]), first[1..], middle, second, permitted);
    }
  }

  lemma {:induction false} LastIsPermitted(w: World, events: seq<Event>, change: Change, permitted: Change -> bool)
    requires Permits(w, events, permitted)
    ensures LastChange(w, events, change) == change || permitted(LastChange(w, events, change))
    decreases |events|
  {
    hide Next;
    if events != [] {
      LastIsPermitted(Next(w, events[0]), events[1..], ChangeAfter(w, events[0], change), permitted);
    }
  }

  predicate HasContent(disk: Disk, job: Job) {
    job.own in disk.files && disk.files[job.own].content == job.content
  }

  /** A publication under permitted interference that succeeds has published its content. */
  ghost predicate Trustworthy(w: World, permitted: Change -> bool) {
    forall events, last, count: nat |
      Reaches(w, events, last) && Permits(w, events, permitted) && Succeeds(last, count) ::
      HasContent(Advance(last, count).disk, w.job)
  }

  /**
   * Success can be trusted if and only if none of the changes others may make is harmful.  In
   * particular it can be when they leave the held file alone.
   */
  lemma PublicationTrustworthyExactly(w: World, permitted: Change -> bool)
    requires Ready(w) && Clear(w.disk, w.job)
    ensures Trustworthy(w, permitted) <==>
            forall change: Change | change.offset <= |w.job.content| && permitted(change) ::
              Harmless(w.job.content, change)
  {
    hide Reaches, LastChange, Clear, Advance, Harmless, Permits, Succeeds, NamesOf, Landed;
    if change: Change :|
      change.offset <= |w.job.content| && permitted(change) && !Harmless(w.job.content, change)
    {
      PrefixIsHarmless(w.job.content, change);
      var events, last := AnyChangeCanHappen(w, change);
      SuccessMeansExactContent(w, events, last, 1);
    } else {
      forall events, last, count: nat |
        Reaches(w, events, last) && Permits(w, events, permitted) && Succeeds(last, count)
        ensures HasContent(Advance(last, count).disk, w.job)
      {
        SuccessMeansExactContent(w, events, last, count);
        LastIsPermitted(w, events, CREATED, permitted);
        CreatedIsHarmless(w.job.content);
      }
    }
  }

  lemma PrefixIsHarmless(content: Bytes, change: Change)
    requires change.offset <= |content|
    ensures change.content == content[..change.offset] ==> Harmless(content, change)
  {
  }

  lemma CreatedIsHarmless(content: Bytes)
    ensures Harmless(content, CREATED)
  {
  }

  // ---------------------------------------------------------------- the write loop

  lemma WriteExtends(content: Bytes, offset: nat, end: nat)
    requires offset <= end <= |content|
    ensures WrittenAt(content[..offset], offset, content[offset..end]) == content[..end]
  {
    assert content[..offset][..offset] == content[..offset];
    assert content[..offset] + content[offset..end] == content[..end];
    assert content[..end] + [] == content[..end];
  }

  class Descriptor {
    var content: Bytes

    constructor ()
      ensures content == []
    {
      content := [];
    }

    /** One positional write of at most what is offered; zero means no progress. */
    method WriteSync(bytes: Bytes, from: nat, position: nat) returns (written: nat)
      requires from < |bytes| && position == from
      modifies this
      ensures written <= |bytes| - from
      ensures content == if written == 0 then old(content)
          else WrittenAt(old(content), position, bytes[from..from + written])
    {
      written :| 0 <= written <= |bytes| - from;
      if written > 0 {
        content := WrittenAt(content, position, bytes[from..from + written]);
      }
    }

    /** Writes everything or reports that a write made no progress. */
    method WriteAll(bytes: Bytes) returns (ok: bool)
      requires content == []
      modifies this
      ensures ok ==> content == bytes
      ensures !ok ==> content < bytes
    {
      hide WrittenAt;
      var offset: nat := 0;
      while offset < |bytes|
        invariant offset <= |bytes| && content == bytes[..offset]
      {
        var written := WriteSync(bytes, offset, offset);
        if written == 0 {
          return false;
        }
        WriteExtends(bytes, offset, offset + written);
        offset := offset + written;
      }
      return true;
    }
  }
}
