/**
 * The root-owned slot coordinator (extensions/ypi/internal/tree-coordinator.ts).
 *
 * `State` is one coordinator generation as a value, and the functions over it say
 * what each event does.  `LocalCoordinator` is the object the program updates in
 * place; every method is proved to perform exactly the corresponding function.
 */
module TreeCoordinator {
  import opened Wrappers

  /** A pid together with its start identity: never reused, so death is final. */
  type Process = nat

  /** A client connection, numbered in the order its request reaches the coordinator. */
  type Socket = nat

  type Token = nat

  type Path = string

  const MAX_SAFE_INTEGER: int := 9007199254740991

  datatype Status = Starting | Active | Terminal

  /** `id` is the identity of the slot object, which rollback compares. */
  datatype Slot = Slot(id: nat, owner: Process, child: Option<Process>)

  /** Whether the counter file could be written, and what a failed write left there. */
  datatype Projection = Projection(writable: bool, residue: Option<int>)

  datatype Operation =
    | Check
    | AllocateCall(limit: int, seed: int, counterFile: Option<Path>, projection: Projection)
    | AcquireSlot(token: Option<Token>, maximum: int)
    | ResumeSlot(token: Option<Token>, maximum: int)
    | ReleaseSlot(token: Option<Token>)
    | SuspendSlot(token: Option<Token>)
    | RegisterLaunch(token: Option<Token>, child: Option<Process>)
    | UnknownOperation

  /** Malformed: over-long, no JSON, or no object.  Foreign: schema, generation, secret or a field is wrong. */
  datatype Form = Malformed | Foreign | Authentic

  /** A token is None when it is malformed. */
  datatype Request = Request(form: Form, pid: Process, operation: Operation)

  datatype Body =
    | Done
    | CallNumber(number: int)
    | Granted
    | Confirmed
    | Failed(exitCode: int)

  datatype Message = Message(socket: Socket, body: Body)

  datatype Queued = Queued(socket: Socket, pid: Process, token: Option<Token>, resume: bool)

  /** What the closures created by one grant remember. */
  datatype PendingGrant = PendingGrant(token: Token, slotId: nat, resume: bool, saved: Option<Slot>, acknowledged: bool)

  datatype Ledger = Ledger(
    maxCalls: Option<int>,
    callCount: int,
    counterFile: Option<Path>,
    counterRaw: Option<int>)

  datatype State = State(
    status: Status,
    rootProcess: Process,
    active: map<Token, Slot>,
    suspended: map<Token, Slot>,
    queue: seq<Queued>,
    maximum: Option<int>,
    ledger: Ledger,
    disk: map<Path, int>,
    grants: map<Socket, PendingGrant>,
    destroyed: set<Socket>,
    dead: set<Process>,
    sent: seq<Message>,
    nextSocket: nat,
    nextSlot: nat)

  datatype Event =
    | StartupSucceeded
    | StartupFailed
    | Receive(request: Request)
    | Acknowledge(socket: Socket, valid: bool)
    | AckTimeout(socket: Socket)
    | Close(socket: Socket)
    | SocketError(socket: Socket)
    | ServerError
    | Terminate(manifestWritten: bool)
    | Die(process: Process)

  // ---------------------------------------------------------------- liveness

  predicate ProcessAlive(dead: set<Process>, process: Option<Process>) {
    process.Some? && process.value !in dead
  }

  predicate SlotAlive(dead: set<Process>, slot: Slot) {
    ProcessAlive(dead, Some(slot.owner)) || ProcessAlive(dead, slot.child)
  }

  function LiveSlots(dead: set<Process>, slots: map<Token, Slot>): map<Token, Slot> {
    map token | token in slots && SlotAlive(dead, slots[token]) :: slots[token]
  }

  function PruneDeadSlots(s: State): State {
    s.(active := LiveSlots(s.dead, s.active), suspended := LiveSlots(s.dead, s.suspended))
  }

  // ---------------------------------------------------------------- replies

  function Respond(s: State, socket: Socket, body: Body): State {
    if socket in s.destroyed then s else s.(sent := s.sent + [Message(socket, body)])
  }

  // ---------------------------------------------------------------- grants

  /** Err carries the exit code of the thrown error; nothing has changed then. */
  function GrantSlot(s: State, socket: Socket, pid: Process, token: Option<Token>, resume: bool): Result<State, int> {
    if token.None? then Err(1)
    else if token.value in s.active then Err(1)
    else if resume && token.value !in s.suspended then Err(1)
    else
      var t := token.value;
      var saved := if resume then Some(s.suspended[t]) else None;
      var slot := Slot(s.nextSlot, pid, if resume then Some(pid) else None);
      var granted := s.(
        active := s.active[t := slot],
        suspended := if resume then s.suspended - {t} else s.suspended,
        grants := s.grants[socket := PendingGrant(t, s.nextSlot, resume, saved, false)],
        nextSlot := s.nextSlot + 1);
      Ok(Respond(granted, socket, Granted))
  }

  /** The loop of drainQueue, once dead slots are gone. */
  function DrainLoop(s: State): State
    requires s.maximum.Some?
    decreases |s.queue|
  {
    if |s.active| < s.maximum.value && s.queue != [] then
      var head := s.queue[0];
      var rest := s.(queue := s.queue[1..]);
      if head.socket in rest.destroyed then DrainLoop(rest)
      else
        match GrantSlot(rest, head.socket, head.pid, head.token, head.resume)
        case Ok(granted) => DrainLoop(granted)
        case Err(code) => DrainLoop(Respond(rest, head.socket, Failed(code)))
    else s
  }

  function DrainQueue(s: State): State {
    if !s.status.Active? || s.maximum.None? then s else DrainLoop(PruneDeadSlots(s))
  }

  /** Takes an unanswered grant back, and restores the suspension it had consumed. */
  function Undone(s: State, g: PendingGrant): State {
    var removed :=
      if g.token in s.active && s.active[g.token].id == g.slotId then s.(active := s.active - {g.token}) else s;
    if g.resume && g.saved.Some? && g.token !in removed.suspended
    then removed.(suspended := removed.suspended[g.token := g.saved.value])
    else removed
  }

  function Rollback(s: State, socket: Socket): State {
    if socket !in s.grants || s.grants[socket].acknowledged then s else DrainQueue(Undone(s, s.grants[socket]))
  }

  function Destroy(s: State, socket: Socket): State {
    s.(destroyed := s.destroyed + {socket})
  }

  /** Data on a granted connection; after destruction no data arrives. */
  function AcknowledgeGrant(s: State, socket: Socket, valid: bool): State {
    if socket !in s.grants || socket in s.destroyed then s
    else if valid then
      Respond(s.(grants := s.grants[socket := s.grants[socket].(acknowledged := true)]), socket, Confirmed)
    else Destroy(Rollback(s, socket), socket)
  }

  /** The five-second timer, which an acknowledgement or a close has cleared. */
  function ExpireGrant(s: State, socket: Socket): State {
    if socket !in s.grants || s.grants[socket].acknowledged || socket in s.destroyed then s
    else Destroy(Rollback(s, socket), socket)
  }

  function WithoutSocket(queue: seq<Queued>, socket: Socket): seq<Queued>
    decreases |queue|
  {
    if queue == [] then []
    else if queue[0].socket == socket then WithoutSocket(queue[1..], socket)
    else [queue[0]] + WithoutSocket(queue[1..], socket)
  }

  function RemoveQueuedSocket(s: State, socket: Socket): State {
    s.(queue := WithoutSocket(s.queue, socket))
  }

  function CloseSocket(s: State, socket: Socket): State {
    Rollback(RemoveQueuedSocket(Destroy(s, socket), socket), socket)
  }

  // ---------------------------------------------------------------- requests

  predicate ExactPositive(n: int) {
    1 <= n <= MAX_SAFE_INTEGER
  }

  predicate ExactNonNegative(n: int) {
    0 <= n <= MAX_SAFE_INTEGER
  }

  /** The bound maximum stays bound even when the request fails later. */
  function BindMaximum(s: State, maximum: int): (State, bool) {
    if !ExactPositive(maximum) then (s, false)
    else if s.maximum.None? then (s.(maximum := Some(maximum)), true)
    else (s, s.maximum.value == maximum)
  }

  datatype Allocation = Allocation(ledger: Ledger, disk: map<Path, int>, number: Option<int>)

  function CounterWritten(ledger: Ledger, disk: map<Path, int>, file: Path, projection: Projection): bool {
    projection.writable
    && if ledger.counterRaw.Some? then file in disk && disk[file] == ledger.counterRaw.value else file !in disk
  }

  function AfterFailedWrite(disk: map<Path, int>, file: Path, projection: Projection): map<Path, int> {
    if projection.writable then disk
    else if projection.residue.Some? then disk[file := projection.residue.value]
    else disk - {file}
  }

  /** The configuration step of allocateCall: None when it throws, with what it already stored. */
  function ConfigureLedger(l: Ledger, disk: map<Path, int>, limit: int, seed: int, file: Path): (Ledger, bool) {
    if l.maxCalls.Some? then (l, l.maxCalls.value == limit && l.counterFile == Some(file))
    else
      var adopting := l.counterRaw.None? && file in disk;
      if adopting && disk[file] != seed then (l, false)
      else
        var stored := l.(maxCalls := Some(limit), callCount := seed);
        if l.counterFile.Some? && l.counterFile.value != file then (stored, false)
        else (stored.(counterFile := Some(file), counterRaw := if adopting then Some(seed) else l.counterRaw), true)
  }

  function Allocate(l: Ledger, disk: map<Path, int>, limit: int, seed: int, file: Option<Path>,
                    projection: Projection): Allocation
  {
    if !ExactNonNegative(limit) || !ExactNonNegative(seed) || file.None? then Allocation(l, disk, None)
    else
      var (configured, accepted) := ConfigureLedger(l, disk, limit, seed, file.value);
      if !accepted || configured.callCount >= limit then Allocation(configured, disk, None)
      else if CounterWritten(configured, disk, file.value, projection) then
        var next := configured.callCount + 1;
        Allocation(configured.(callCount := next, counterRaw := Some(next)), disk[file.value := next], Some(next))
      else Allocation(configured, AfterFailedWrite(disk, file.value, projection), None)
  }

  function Admit(s: State, socket: Socket, pid: Process, token: Option<Token>, maximum: int, resume: bool): State {
    var (bound, accepted) := BindMaximum(s, maximum);
    if !accepted then Respond(bound, socket, Failed(1))
    else
      AdmitBound(PruneDeadSlots(bound), socket, pid, token, maximum, resume)
  }

  function AdmitBound(s: State, socket: Socket, pid: Process, token: Option<Token>, maximum: int, resume: bool): State {
    if |s.active| < maximum then
      match GrantSlot(s, socket, pid, token, resume)
      case Ok(granted) => granted
      case Err(code) => Respond(s, socket, Failed(code))
    else s.(queue := s.queue + [Queued(socket, pid, token, resume)])
  }

  function Release(s: State, socket: Socket, token: Option<Token>): State {
    if token.None? then Respond(s, socket, Failed(1))
    else
      var freed := s.(active := s.active - {token.value}, suspended := s.suspended - {token.value});
      DrainQueue(Respond(freed, socket, Done))
  }

  function Suspend(s: State, socket: Socket, pid: Process, token: Option<Token>): State {
    if token.None? || token.value !in s.active then Respond(s, socket, Failed(1))
    else
      var slot := s.active[token.value];
      if slot.owner != pid && slot.child != Some(pid) then Respond(s, socket, Failed(1))
      else
        var yielded := s.(active := s.active - {token.value}, suspended := s.suspended[token.value := slot]);
        DrainQueue(Respond(yielded, socket, Done))
  }

  function Register(s: State, socket: Socket, token: Option<Token>, child: Option<Process>): State {
    if token.None? then Respond(s, socket, Failed(1))
    else if token.value !in s.active || !ProcessAlive(s.dead, child) then Respond(s, socket, Failed(130))
    else
      var slot := s.active[token.value].(child := child);
      Respond(s.(active := s.active[token.value := slot]), socket, Done)
  }

  function NumberCall(s: State, socket: Socket, limit: int, seed: int, file: Option<Path>,
                      projection: Projection): State {
    var outcome := Allocate(s.ledger, s.disk, limit, seed, file, projection);
    Respond(s.(ledger := outcome.ledger, disk := outcome.disk), socket,
            if outcome.number.Some? then CallNumber(outcome.number.value) else Failed(1))
  }

  function Perform(s: State, socket: Socket, pid: Process, operation: Operation): State {
    match operation
    case Check => Respond(s, socket, Done)
    case AllocateCall(limit, seed, file, projection) => NumberCall(s, socket, limit, seed, file, projection)
    case AcquireSlot(token, maximum) => Admit(s, socket, pid, token, maximum, false)
    case ResumeSlot(token, maximum) => Admit(s, socket, pid, token, maximum, true)
    case ReleaseSlot(token) => Release(s, socket, token)
    case SuspendSlot(token) => Suspend(s, socket, pid, token)
    case RegisterLaunch(token, child) => Register(s, socket, token, child)
    case UnknownOperation => Respond(s, socket, Failed(1))
  }

  predicate Authenticated(s: State, request: Request) {
    request.form.Authentic? && ProcessAlive(s.dead, Some(request.pid)) && s.status.Active?
  }

  function HandleRequest(s: State, request: Request): State {
    var accepted := s.(nextSocket := s.nextSocket + 1);
    if Authenticated(s, request) then Perform(accepted, s.nextSocket, request.pid, request.operation)
    else Respond(accepted, s.nextSocket, Failed(if request.form.Malformed? then 1 else 130))
  }

  // ---------------------------------------------------------------- termination

  function RefuseAll(s: State): State
    decreases |s.queue|
  {
    if s.queue == [] then s
    else RefuseAll(Respond(s.(queue := s.queue[1..]), s.queue[0].socket, Failed(130)))
  }

  /** The child processes the termination signal goes to. */
  function Signalled(s: State): set<Process> {
    set slot | slot in s.active.Values + s.suspended.Values
               && slot.child != Some(s.rootProcess) && ProcessAlive(s.dead, slot.child)
    :: slot.child.value
  }

  /** When the manifest cannot be replaced the error escapes before anything is signalled. */
  function MarkTerminal(s: State, manifestWritten: bool): (State, set<Process>) {
    if s.status.Terminal? then (s, {})
    else if !manifestWritten then (s.(status := Terminal), {})
    else
      var refused := RefuseAll(s.(status := Terminal));
      (refused, Signalled(refused))
  }

  function FailServer(s: State): State {
    if s.status.Terminal? then s else RefuseAll(s.(status := Terminal))
  }

  function Start(s: State, succeeded: bool): State {
    if !s.status.Starting? then s
    else s.(status := if succeeded then Active else Terminal)
  }

  function Apply(s: State, event: Event): State {
    match event
    case StartupSucceeded => Start(s, true)
    case StartupFailed => Start(s, false)
    case Receive(request) => HandleRequest(s, request)
    case Acknowledge(socket, valid) => AcknowledgeGrant(s, socket, valid)
    case AckTimeout(socket) => ExpireGrant(s, socket)
    case Close(socket) => CloseSocket(s, socket)
    case SocketError(socket) => RemoveQueuedSocket(s, socket)
    case ServerError => FailServer(s)
    case Terminate(manifestWritten) => MarkTerminal(s, manifestWritten).0
    case Die(process) => s.(dead := s.dead + {process})
  }

  /** A fresh generation; the counter may be carried over from the previous one. */
  function Initial(rootProcess: Process, counterFile: Option<Path>, counterRaw: Option<int>, disk: map<Path,
                   int>): State {
    State(Starting, rootProcess, map[], map[], [], None, Ledger(None, 0, counterFile, counterRaw), disk,
          map[], {}, {}, [], 0, 0)
  }

  function Run(s: State, events: seq<Event>): State
    decreases |events|
  {
    if events == [] then s else Apply(Run(s, events[..|events| - 1]), events[|events| - 1])
  }

  // ---------------------------------------------------------------- the object

  class LocalCoordinator {
    var status: Status
    const rootProcess: Process
    var activeSlots: map<Token, Slot>
    var suspendedSlots: map<Token, Slot>
    var queue: seq<Queued>
    var maximum: Option<int>
    var maxCalls: Option<int>
    var callCount: int
    var counterFile: Option<Path>
    var counterRaw: Option<int>
    var disk: map<Path, int>
    var grants: map<Socket, PendingGrant>
    var destroyed: set<Socket>
    var dead: set<Process>
    var sent: seq<Message>
    var nextSocket: nat
    var nextSlot: nat

    ghost function View(): State
      reads this
    {
      State(status, rootProcess, activeSlots, suspendedSlots, queue, maximum,
            Ledger(maxCalls, callCount, counterFile, counterRaw), disk,
            grants, destroyed, dead, sent, nextSocket, nextSlot)
    }

    constructor (rootProcess: Process, counterFile: Option<Path>, counterRaw: Option<int>, disk: map<Path, int>)
      ensures View() == Initial(rootProcess, counterFile, counterRaw, disk)
    {
      this.rootProcess := rootProcess;
      status, maximum, maxCalls, callCount := Starting, None, None, 0;
      activeSlots, suspendedSlots, queue, grants := map[], map[], [], map[];
      this.counterFile, this.counterRaw, this.disk := counterFile, counterRaw, disk;
      destroyed, dead, sent, nextSocket, nextSlot := {}, {}, [], 0, 0;
    }

    method Prune()
      modifies `activeSlots, `suspendedSlots
      ensures View() == PruneDeadSlots(old(View()))
    {
      var before := activeSlots;
      var pending := activeSlots.Keys;
      while pending != {}
        invariant pending <= before.Keys
        invariant suspendedSlots == old(suspendedSlots)
        invariant activeSlots == map t | t in before && (t in pending || SlotAlive(dead, before[t])) :: before[t]
        decreases pending
      {
        var token :| token in pending;
        pending := pending - {token};
        if !SlotAlive(dead, activeSlots[token]) {
          activeSlots := activeSlots - {token};
        }
      }
      var yielded := suspendedSlots;
      pending := suspendedSlots.Keys;
      while pending != {}
        invariant pending <= yielded.Keys
        invariant activeSlots == LiveSlots(dead, before)
        invariant suspendedSlots == map t | t in yielded && (t in pending || SlotAlive(dead, yielded[t])) :: yielded[t]
        decreases pending
      {
        var token :| token in pending;
        pending := pending - {token};
        if !SlotAlive(dead, suspendedSlots[token]) {
          suspendedSlots := suspendedSlots - {token};
        }
      }
    }

    method Reply(socket: Socket, body: Body)
      modifies this
      ensures View() == Respond(old(View()), socket, body)
    {
      if socket !in destroyed {
        sent := sent + [Message(socket, body)];
      }
    }

    method Grant(socket: Socket, pid: Process, token: Option<Token>, resume: bool) returns (failure: Option<int>)
      modifies this
      ensures match GrantSlot(old(View()), socket, pid, token, resume)
              case Ok(granted) => failure.None? && View() == granted
              case Err(code) => failure == Some(code) && View() == old(View())
    {
      if token.None? || token.value in activeSlots || (resume && token.value !in suspendedSlots) {
        return Some(1);
      }
      var t := token.value;
      var saved := if resume then Some(suspendedSlots[t]) else None;
      if resume {
        suspendedSlots := suspendedSlots - {t};
      }
      activeSlots := activeSlots[t := Slot(nextSlot, pid, if resume then Some(pid) else None)];
      grants := grants[socket := PendingGrant(t, nextSlot, resume, saved, false)];
      nextSlot := nextSlot + 1;
      assert GrantSlot(old(View()), socket, pid, token, resume) == Ok(Respond(View(), socket, Granted));
      Reply(socket, Granted);
      return None;
    }

    method Drain()
      modifies this
      ensures View() == DrainQueue(old(View()))
    {
      if status != Active || maximum.None? {
        return;
      }
      Prune();
      while |activeSlots| < maximum.value && |queue| > 0
        invariant maximum.Some?
        invariant DrainLoop(View()) == DrainLoop(PruneDeadSlots(old(View())))
        decreases |queue|
      {
        var head := queue[0];
        queue := queue[1..];
        if head.socket in destroyed {
          continue;
        }
        var failure := Grant(head.socket, head.pid, head.token, head.resume);
        if failure.Some? {
          Reply(head.socket, Failed(failure.value));
        }
      }
    }

    method RollBack(socket: Socket)
      modifies this
      ensures View() == Rollback(old(View()), socket)
    {
      if socket !in grants || grants[socket].acknowledged {
        return;
      }
      var g := grants[socket];
      if g.token in activeSlots && activeSlots[g.token].id == g.slotId {
        activeSlots := activeSlots - {g.token};
      }
      if g.resume && g.saved.Some? && g.token !in suspendedSlots {
        suspendedSlots := suspendedSlots[g.token := g.saved.value];
      }
      Drain();
    }

    method OnAcknowledgement(socket: Socket, valid: bool)
      modifies this
      ensures View() == AcknowledgeGrant(old(View()), socket, valid)
    {
      if socket !in grants || socket in destroyed {
        return;
      }
      if valid {
        grants := grants[socket := grants[socket].(acknowledged := true)];
        Reply(socket, Confirmed);
      } else {
        RollBack(socket);
        destroyed := destroyed + {socket};
      }
    }

    method OnAckTimeout(socket: Socket)
      modifies this
      ensures View() == ExpireGrant(old(View()), socket)
    {
      if socket in grants && !grants[socket].acknowledged && socket !in destroyed {
        RollBack(socket);
        destroyed := destroyed + {socket};
      }
    }

    method RemoveQueued(socket: Socket)
      modifies this
      ensures View() == RemoveQueuedSocket(old(View()), socket)
    {
      var kept: seq<Queued> := [];
      var index := 0;
      while index < |queue|
        invariant 0 <= index <= |queue|
        invariant View() == old(View())
        invariant WithoutSocket(queue, socket) == kept + WithoutSocket(queue[index..], socket)
      {
        if queue[index].socket != socket {
          kept := kept + [queue[index]];
        }
        index := index + 1;
      }
      queue := kept;
    }

    method OnClose(socket: Socket)
      modifies this
      ensures View() == CloseSocket(old(View()), socket)
    {
      destroyed := destroyed + {socket};
      RemoveQueued(socket);
      RollBack(socket);
    }

    method Bind(requested: int) returns (accepted: bool)
      modifies this
      ensures (View(), accepted) == BindMaximum(old(View()), requested)
    {
      if !ExactPositive(requested) {
        return false;
      }
      if maximum.None? {
        maximum := Some(requested);
      }
      return maximum.value == requested;
    }

    /** Binds the call limits on first use; what it stored before refusing stays stored. */
    method Configure(limit: int, seed: int, path: Path) returns (accepted: bool)
      modifies this`maxCalls, this`callCount, this`counterFile, this`counterRaw
      ensures (Ledger(maxCalls, callCount, counterFile, counterRaw), accepted)
              == ConfigureLedger(old(View()).ledger, disk, limit, seed, path)
    {
      if maxCalls.None? {
        var adopted := None;
        if counterRaw.None? && path in disk {
          if disk[path] != seed {
            return false;
          }
          adopted := Some(seed);
        }
        maxCalls := Some(limit);
        callCount := seed;
        if counterFile.Some? && counterFile.value != path {
          return false;
        }
        counterFile := Some(path);
        if adopted.Some? {
          counterRaw := adopted;
        }
      }
      return maxCalls.value == limit && counterFile == Some(path);
    }

    /** Numbers one call; the counter file is replaced before the count moves. */
    method AllocateNext(limit: int, seed: int, file: Option<Path>, projection: Projection) returns (number: Option<int>)
      modifies this`maxCalls, this`callCount, this`counterFile, this`counterRaw, this`disk
      ensures Allocation(Ledger(maxCalls, callCount, counterFile, counterRaw), disk, number)
              == Allocate(old(View()).ledger, old(disk), limit, seed, file, projection)
    {
      if !ExactNonNegative(limit) || !ExactNonNegative(seed) || file.None? {
        return None;
      }
      var accepted := Configure(limit, seed, file.value);
      if !accepted || callCount >= limit {
        return None;
      }
      var next := callCount + 1;
      if !CounterWritten(Ledger(maxCalls, callCount, counterFile, counterRaw), disk, file.value, projection) {
        disk := AfterFailedWrite(disk, file.value, projection);
        return None;
      }
      disk := disk[file.value := next];
      counterRaw := Some(next);
      callCount := next;
      return Some(next);
    }

    method AdmitOrQueue(socket: Socket, pid: Process, token: Option<Token>, requested: int, resume: bool)
      modifies this
      ensures View() == Admit(old(View()), socket, pid, token, requested, resume)
    {
      var accepted := Bind(requested);
      if !accepted {
        Reply(socket, Failed(1));
        return;
      }
      Prune();
      if |activeSlots| < requested {
        var failure := Grant(socket, pid, token, resume);
        if failure.Some? {
          Reply(socket, Failed(failure.value));
        }
        return;
      }
      queue := queue + [Queued(socket, pid, token, resume)];
    }

    method ReleaseToken(socket: Socket, token: Option<Token>)
      modifies this
      ensures View() == Release(old(View()), socket, token)
    {
      if token.None? {
        Reply(socket, Failed(1));
        return;
      }
      activeSlots := activeSlots - {token.value};
      suspendedSlots := suspendedSlots - {token.value};
      Reply(socket, Done);
      Drain();
    }

    method SuspendToken(socket: Socket, pid: Process, token: Option<Token>)
      modifies this
      ensures View() == Suspend(old(View()), socket, pid, token)
    {
      if token.None? || token.value !in activeSlots {
        Reply(socket, Failed(1));
        return;
      }
      var slot := activeSlots[token.value];
      if slot.owner != pid && slot.child != Some(pid) {
        Reply(socket, Failed(1));
        return;
      }
      activeSlots := activeSlots - {token.value};
      suspendedSlots := suspendedSlots[token.value := slot];
      Reply(socket, Done);
      Drain();
    }

    method RegisterChild(socket: Socket, token: Option<Token>, child: Option<Process>)
      modifies this
      ensures View() == Register(old(View()), socket, token, child)
    {
      if token.None? {
        Reply(socket, Failed(1));
        return;
      }
      if token.value !in activeSlots || child.None? || child.value in dead {
        Reply(socket, Failed(130));
        return;
      }
      activeSlots := activeSlots[token.value := activeSlots[token.value].(child := child)];
      Reply(socket, Done);
    }

    method NumberNextCall(socket: Socket, limit: int, seed: int, file: Option<Path>, projection: Projection)
      modifies this
      ensures View() == NumberCall(old(View()), socket, limit, seed, file, projection)
    {
      var number := AllocateNext(limit, seed, file, projection);
      Reply(socket, if number.Some? then CallNumber(number.value) else Failed(1));
    }

    method PerformOperation(socket: Socket, pid: Process, operation: Operation)
      modifies this
      ensures View() == Perform(old(View()), socket, pid, operation)
    {
      match operation
      case Check => Reply(socket, Done);
      case AllocateCall(limit, seed, file, projection) => NumberNextCall(socket, limit, seed, file, projection);
      case AcquireSlot(token, requested) => AdmitOrQueue(socket, pid, token, requested, false);
      case ResumeSlot(token, requested) => AdmitOrQueue(socket, pid, token, requested, true);
      case ReleaseSlot(token) => ReleaseToken(socket, token);
      case SuspendSlot(token) => SuspendToken(socket, pid, token);
      case RegisterLaunch(token, child) => RegisterChild(socket, token, child);
      case UnknownOperation => Reply(socket, Failed(1));
    }

    method Handle(request: Request)
      modifies this
      ensures View() == HandleRequest(old(View()), request)
    {
      var socket := nextSocket;
      hide Perform;
      nextSocket := nextSocket + 1;
      if request.form.Malformed? {
        Reply(socket, Failed(1));
      } else if request.form.Authentic? && request.pid !in dead && status == Active {
        PerformOperation(socket, request.pid, request.operation);
      } else {
        Reply(socket, Failed(130));
      }
    }

    method Refuse()
      modifies this
      ensures View() == RefuseAll(old(View()))
    {
      while queue != []
        invariant RefuseAll(View()) == RefuseAll(old(View()))
        decreases |queue|
      {
        var head := queue[0];
        queue := queue[1..];
        Reply(head.socket, Failed(130));
      }
    }

    method MarkLocalCoordinatorTerminal(manifestWritten: bool) returns (groups: set<Process>)
      modifies this
      ensures (View(), groups) == MarkTerminal(old(View()), manifestWritten)
    {
      if status == Terminal {
        return {};
      }
      status := Terminal;
      if !manifestWritten {
        return {};
      }
      Refuse();
      groups := {};
      var pending := activeSlots.Values + suspendedSlots.Values;
      while pending != {}
        invariant pending <= activeSlots.Values + suspendedSlots.Values
        invariant View() == RefuseAll(old(View()).(status := Terminal))
        invariant groups == set slot | slot in activeSlots.Values + suspendedSlots.Values - pending
                                       && slot.child != Some(rootProcess) && ProcessAlive(dead, slot.child)
                            :: slot.child.value
        decreases pending
      {
        var slot :| slot in pending;
        pending := pending - {slot};
        if slot.child.Some? && slot.child.value != rootProcess && slot.child.value !in dead {
          groups := groups + {slot.child.value};
        }
      }
      assert groups == Signalled(View());
    }
  }
}
