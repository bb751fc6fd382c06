/**
 * What every run of the coordinator keeps: the concurrency cap, the bound maximum,
 * arrival order, and the finality of termination.
 */
module SlotAdmission {
  import opened Wrappers
  import opened TreeCoordinator

  lemma SubsetSize<T>(small: set<T>, large: set<T>)
    requires small <= large
    ensures |small| <= |large|
  {
    if small != {} {
      var x :| x in small;
      SubsetSize(small - {x}, large - {x});
    }
  }

  lemma SubmapSize<K, V>(small: map<K, V>, large: map<K, V>)
    requires small.Keys <= large.Keys
    ensures |small| <= |large|
  {
    SubsetSize(small.Keys, large.Keys);
    assert |small| == |small.Keys| && |large| == |large.Keys|;
  }

  // ---------------------------------------------------------------- the cap

  /** Never more active slots than the bound maximum; before it is bound nothing was granted. */
  ghost predicate WithinCap(s: State) {
    if s.maximum.None? then s.active == map[] && s.queue == [] && s.grants == map[]
    else |s.active| <= s.maximum.value
  }

  lemma PruneWithinCap(s: State)
    requires WithinCap(s)
    ensures WithinCap(PruneDeadSlots(s))
    ensures |PruneDeadSlots(s).active| <= |s.active|
  {
    SubmapSize(PruneDeadSlots(s).active, s.active);
  }

  lemma InsertSize<K, V>(m: map<K, V>, k: K, v: V)
    requires k !in m
    ensures |m[k := v]| == |m| + 1
  {
    assert m[k := v].Keys == m.Keys + {k};
    assert |m[k := v]| == |m[k := v].Keys| && |m| == |m.Keys|;
  }

  lemma GrantGrowsByOne(s: State, socket: Socket, pid: Process, token: Option<Token>, resume: bool)
    ensures var r := GrantSlot(s, socket, pid, token, resume);
            r.Ok? ==> |r.value.active| == |s.active| + 1 && r.value.queue == s.queue && r.value.maximum == s.maximum
  {
    var r := GrantSlot(s, socket, pid, token, resume);
    if r.Ok? {
      InsertSize(s.active, token.value, r.value.active[token.value]);
    }
  }

  lemma {:induction false} DrainLoopWithinCap(s: State)
    requires s.maximum.Some? && WithinCap(s)
    ensures WithinCap(DrainLoop(s)) && DrainLoop(s).maximum == s.maximum && DrainLoop(s).status == s.status
    ensures |s.active| <= |DrainLoop(s).active|
    ensures DrainLoop(s).queue != [] ==> |DrainLoop(s).active| == s.maximum.value
    decreases |s.queue|
  {
    if |s.active| < s.maximum.value && s.queue != [] {
      var head := s.queue[0];
      var rest := s.(queue := s.queue[1..]);
      GrantGrowsByOne(rest, head.socket, head.pid, head.token, head.resume);
      if head.socket in rest.destroyed {
        DrainLoopWithinCap(rest);
      } else {
        match GrantSlot(rest, head.socket, head.pid, head.token, head.resume)
        case Ok(granted) => DrainLoopWithinCap(granted);
        case Err(code) => DrainLoopWithinCap(Respond(rest, head.socket, Failed(code)));
      }
    }
  }

  lemma DrainWithinCap(s: State)
    requires WithinCap(s)
    ensures WithinCap(DrainQueue(s)) && DrainQueue(s).maximum == s.maximum && DrainQueue(s).status == s.status
    ensures NeverIdle(DrainQueue(s))
  {
    hide GrantSlot;
    PruneWithinCap(s);
    if s.status.Active? && s.maximum.Some? {
      DrainLoopWithinCap(PruneDeadSlots(s));
    }
  }

  lemma RollbackWithinCap(s: State, socket: Socket)
    requires WithinCap(s)
    ensures WithinCap(Rollback(s, socket)) && Rollback(s, socket).maximum == s.maximum
    ensures Rollback(s, socket).status == s.status
    ensures NeverIdle(s) ==> NeverIdle(Rollback(s, socket))
  {
    if socket in s.grants && !s.grants[socket].acknowledged {
      var undone := Undone(s, s.grants[socket]);
      SubmapSize(undone.active, s.active);
      DrainWithinCap(undone);
    }
  }

  lemma AdmitWithinCap(s: State, socket: Socket, pid: Process, token: Option<Token>, maximum: int, resume: bool)
    requires WithinCap(s)
    ensures var after := Admit(s, socket, pid, token, maximum, resume);
            && WithinCap(after)
            && (s.maximum.Some? ==> after.maximum == s.maximum)
            && after.status == s.status
  {
    var bound := BindMaximum(s, maximum).0;
    if BindMaximum(s, maximum).1 {
      PruneWithinCap(bound);
      GrantGrowsByOne(PruneDeadSlots(bound), socket, pid, token, resume);
    }
  }

  lemma FreeWithinCap(s: State, tokens: set<Token>)
    requires WithinCap(s)
    ensures WithinCap(s.(active := s.active - tokens))
  {
    SubmapSize(s.active - tokens, s.active);
  }

  lemma ReleaseWithinCap(s: State, socket: Socket, token: Option<Token>)
    requires WithinCap(s)
    ensures WithinCap(Release(s, socket, token)) && Release(s, socket, token).maximum == s.maximum
    ensures Release(s, socket, token).status == s.status
    ensures NeverIdle(s) ==> NeverIdle(Release(s, socket, token))
  {
    hide DrainQueue;
    if token.Some? {
      FreeWithinCap(s, {token.value});
      var freed := s.(active := s.active - {token.value}, suspended := s.suspended - {token.value});
      DrainWithinCap(Respond(freed, socket, Done));
    }
  }

  lemma SuspendWithinCap(s: State, socket: Socket, pid: Process, token: Option<Token>)
    requires WithinCap(s)
    ensures WithinCap(Suspend(s, socket, pid, token)) && Suspend(s, socket, pid, token).maximum == s.maximum
    ensures Suspend(s, socket, pid, token).status == s.status
    ensures NeverIdle(s) ==> NeverIdle(Suspend(s, socket, pid, token))
  {
    hide DrainQueue;
    if token.Some? && token.value in s.active {
      FreeWithinCap(s, {token.value});
      var yielded := s.(active := s.active - {token.value},
                        suspended := s.suspended[token.value := s.active[token.value]]);
      DrainWithinCap(Respond(yielded, socket, Done));
    }
  }

  lemma RegisterWithinCap(s: State, socket: Socket, token: Option<Token>, child: Option<Process>)
    requires WithinCap(s)
    ensures WithinCap(Register(s, socket, token, child)) && Register(s, socket, token, child).maximum == s.maximum
    ensures Register(s, socket, token, child).status == s.status
    ensures NeverIdle(s) ==> NeverIdle(Register(s, socket, token, child))
  {
    if token.Some? && token.value in s.active {
      var registered := s.active[token.value := s.active[token.value].(child := child)];
      assert registered.Keys == s.active.Keys;
      assert |registered| == |registered.Keys| && |s.active| == |s.active.Keys|;
    }
  }

  lemma PerformWithinCap(s: State, socket: Socket, pid: Process, operation: Operation)
    requires WithinCap(s)
    ensures WithinCap(Perform(s, socket, pid, operation))
    ensures s.maximum.Some? ==> Perform(s, socket, pid, operation).maximum == s.maximum
  {
    hide Admit, Release, Suspend, Register, Allocate;
    match operation
    case AcquireSlot(token, maximum) => AdmitWithinCap(s, socket, pid, token, maximum, false);
    case ResumeSlot(token, maximum) => AdmitWithinCap(s, socket, pid, token, maximum, true);
    case ReleaseSlot(token) => ReleaseWithinCap(s, socket, token);
    case SuspendSlot(token) => SuspendWithinCap(s, socket, pid, token);
    case RegisterLaunch(token, child) => RegisterWithinCap(s, socket, token, child);
    case _ =>
  }

  lemma {:induction false} RefuseAllEmpties(s: State)
    ensures RefuseAll(s) == s.(queue := [], sent := RefuseAll(s).sent)
    decreases |s.queue|
  {
    if s.queue != [] {
      RefuseAllEmpties(Respond(s.(queue := s.queue[1..]), s.queue[0].socket, Failed(130)));
    }
  }

  lemma ApplyWithinCap(s: State, event: Event)
    requires WithinCap(s)
    ensures WithinCap(Apply(s, event))
    ensures s.maximum.Some? ==> Apply(s, event).maximum == s.maximum
  {
    hide Perform, Rollback, RefuseAll, WithoutSocket;
    match event
    case Receive(request) =>
      PerformWithinCap(s.(nextSocket := s.nextSocket + 1), s.nextSocket, request.pid, request.operation);
    case Acknowledge(socket, valid) => RollbackWithinCap(s, socket);
    case AckTimeout(socket) => RollbackWithinCap(s, socket);
    case Close(socket) =>
      WithoutEmpty(socket);
      RollbackWithinCap(RemoveQueuedSocket(Destroy(s, socket), socket), socket);
    case SocketError(socket) => WithoutEmpty(socket);
    case ServerError => RefuseAllEmpties(s.(status := Terminal));
    case Terminate(written) => RefuseAllEmpties(s.(status := Terminal));
    case _ =>
  }

  lemma WithoutEmpty(socket: Socket)
    ensures WithoutSocket([], socket) == []
  {
  }

  /**
   * In every interleaving, including repeated rollbacks, deaths and pruning, the active
   * slots stay within the cap, and the cap never changes once it is bound.
   */
  lemma {:induction false} CapHolds(s: State, events: seq<Event>)
    requires WithinCap(s)
    ensures WithinCap(Run(s, events))
    ensures s.maximum.Some? ==> Run(s, events).maximum == s.maximum
    decreases |events|
  {
    if events != [] {
      CapHolds(s, events[..|events| - 1]);
      ApplyWithinCap(Run(s, events[..|events| - 1]), events[|events| - 1]);
    }
  }

  // ---------------------------------------------------------------- arrival order

  /** No slot is idle while a request waits. */
  ghost predicate NeverIdle(s: State) {
    s.status.Active? && s.maximum.Some? && s.queue != [] ==> |s.active| == s.maximum.value
  }

  /** No active slot belongs to processes that are all dead. */
  ghost predicate ActiveSlotsLive(s: State) {
    forall token <- s.active :: SlotAlive(s.dead, s.active[token])
  }

  ghost predicate QueueInOrder(queue: seq<Queued>, next: Socket) {
    && (forall i | 0 <= i < |queue| :: queue[i].socket < next)
    && (forall i, j | 0 <= i < j < |queue| :: queue[i].socket < queue[j].socket)
  }

  /** Grants went out in the order the requests arrived, and before everything still waiting. */
  ghost predicate GrantsInOrder(sent: seq<Message>, next: Socket) {
    && (forall i | 0 <= i < |sent| && sent[i].body.Granted? :: sent[i].socket < next)
    && (forall i, j | 0 <= i < j < |sent| && sent[i].body.Granted? && sent[j].body.Granted? ::
          sent[i].socket < sent[j].socket)
  }

  ghost predicate GrantedBeforeQueue(sent: seq<Message>, queue: seq<Queued>) {
    forall i, j | 0 <= i < |sent| && sent[i].body.Granted? && 0 <= j < |queue| :: sent[i].socket < queue[j].socket
  }

  ghost predicate FirstComeFirstServed(s: State) {
    QueueInOrder(s.queue, s.nextSocket) && GrantsInOrder(s.sent, s.nextSocket) && GrantedBeforeQueue(s.sent, s.queue)
  }

  lemma RespondInOrder(s: State, socket: Socket, body: Body)
    requires FirstComeFirstServed(s) && !body.Granted?
    ensures FirstComeFirstServed(Respond(s, socket, body))
  {
  }

  lemma GrantInOrder(s: State, socket: Socket, pid: Process, token: Option<Token>, resume: bool)
    requires FirstComeFirstServed(s) && socket < s.nextSocket
    requires forall i | 0 <= i < |s.sent| && s.sent[i].body.Granted? :: s.sent[i].socket < socket
    requires forall i | 0 <= i < |s.queue| :: socket < s.queue[i].socket
    ensures var r := GrantSlot(s, socket, pid, token, resume);
            r.Ok? ==> FirstComeFirstServed(r.value)
  {
    var r := GrantSlot(s, socket, pid, token, resume);
    if r.Ok? {
      assert r.value.queue == s.queue && r.value.nextSocket == s.nextSocket;
      assert r.value.sent == s.sent || r.value.sent == s.sent + [Message(socket, Granted)];
    }
  }

  lemma {:induction false} DrainLoopInOrder(s: State)
    requires s.maximum.Some? && FirstComeFirstServed(s)
    ensures FirstComeFirstServed(DrainLoop(s))
    decreases |s.queue|
  {
    hide GrantSlot;
    if |s.active| < s.maximum.value && s.queue != [] {
      var head := s.queue[0];
      var rest := s.(queue := s.queue[1..]);
      assert forall i | 0 <= i < |rest.queue| :: rest.queue[i] == s.queue[i + 1];
      assert FirstComeFirstServed(rest);
      GrantInOrder(rest, head.socket, head.pid, head.token, head.resume);
      GrantGrowsByOne(rest, head.socket, head.pid, head.token, head.resume);
      if head.socket in rest.destroyed {
        DrainLoopInOrder(rest);
      } else {
        match GrantSlot(rest, head.socket, head.pid, head.token, head.resume)
        case Ok(granted) => DrainLoopInOrder(granted);
        case Err(code) =>
          RespondInOrder(rest, head.socket, Failed(code));
          DrainLoopInOrder(Respond(rest, head.socket, Failed(code)));
      }
    }
  }

  lemma DrainInOrder(s: State)
    requires FirstComeFirstServed(s)
    ensures FirstComeFirstServed(DrainQueue(s))
  {
    if s.status.Active? && s.maximum.Some? {
      DrainLoopInOrder(PruneDeadSlots(s));
    }
  }

  lemma RollbackInOrder(s: State, socket: Socket)
    requires FirstComeFirstServed(s)
    ensures FirstComeFirstServed(Rollback(s, socket))
  {
    if socket in s.grants && !s.grants[socket].acknowledged {
      DrainInOrder(Undone(s, s.grants[socket]));
    }
  }

  /** What holds between requests of a run without dead slots. */
  ghost predicate Fair(s: State) {
    WithinCap(s) && NeverIdle(s) && FirstComeFirstServed(s) && (s.status.Starting? ==> s.maximum.None?)
  }

  lemma PruneKeepsLive(s: State)
    requires ActiveSlotsLive(s)
    ensures PruneDeadSlots(s).active == s.active
  {
  }

  lemma NextSocketInOrder(s: State)
    requires FirstComeFirstServed(s)
    ensures FirstComeFirstServed(s.(nextSocket := s.nextSocket + 1))
  {
  }

  lemma AdmitServes(s: State, socket: Socket, pid: Process, token: Option<Token>, maximum: int, resume: bool)
    requires Fair(s) && ActiveSlotsLive(s) && s.status.Active? && socket == s.nextSocket
    ensures FirstComeFirstServed(Admit(s.(nextSocket := socket + 1), socket, pid, token, maximum, resume))
  {
    hide GrantSlot, QueueInOrder, GrantsInOrder, GrantedBeforeQueue;
    var next := s.(nextSocket := socket + 1);
    var (bound, accepted) := BindMaximum(next, maximum);
    NextSocketInOrder(s);
    if !accepted {
      RespondInOrder(bound, socket, Failed(1));
    } else {
      PruneKeepsLive(bound);
      AdmitBoundInOrder(PruneDeadSlots(bound), socket, pid, token, maximum, resume);
    }
  }

  lemma AdmitNeverIdle(s: State, socket: Socket, pid: Process, token: Option<Token>, maximum: int, resume: bool)
    requires NeverIdle(s) && WithinCap(s) && ActiveSlotsLive(s) && s.status.Active?
    ensures NeverIdle(Admit(s, socket, pid, token, maximum, resume))
  {
    hide GrantSlot;
    var (bound, accepted) := BindMaximum(s, maximum);
    if accepted {
      PruneKeepsLive(bound);
      GrantGrowsByOne(PruneDeadSlots(bound), socket, pid, token, resume);
    }
  }

  lemma AdmitFair(s: State, socket: Socket, pid: Process, token: Option<Token>, maximum: int, resume: bool)
    requires Fair(s) && ActiveSlotsLive(s) && s.status.Active?
    requires socket == s.nextSocket
    ensures Fair(Admit(s.(nextSocket := socket + 1), socket, pid, token, maximum, resume))
  {
    var next := s.(nextSocket := socket + 1);
    AdmitWithinCap(next, socket, pid, token, maximum, resume);
    AdmitServes(s, socket, pid, token, maximum, resume);
    AdmitNeverIdle(next, socket, pid, token, maximum, resume);
    hide Admit, FirstComeFirstServed;
  }

  lemma AdmitBoundInOrder(s: State, socket: Socket, pid: Process, token: Option<Token>, maximum: int, resume: bool)
    requires QueueInOrder(s.queue, socket) && GrantsInOrder(s.sent, socket) && GrantedBeforeQueue(s.sent, s.queue)
    requires s.nextSocket == socket + 1
    requires |s.active| < maximum ==> s.queue == []
    ensures FirstComeFirstServed(AdmitBound(s, socket, pid, token, maximum, resume))
  {
    hide GrantSlot, FirstComeFirstServed;
    if |s.active| < maximum {
      ServedSoFar(s, socket);
      GrantInOrder(s, socket, pid, token, resume);
      match GrantSlot(s, socket, pid, token, resume)
      case Ok(_) =>
      case Err(code) => RespondInOrder(s, socket, Failed(code));
    } else {
      EnqueueInOrder(s, Queued(socket, pid, token, resume));
    }
  }

  lemma ServedSoFar(s: State, socket: Socket)
    requires QueueInOrder(s.queue, socket) && GrantsInOrder(s.sent, socket) && GrantedBeforeQueue(s.sent, s.queue)
    requires s.nextSocket == socket + 1
    ensures FirstComeFirstServed(s)
  {
  }

  lemma EnqueueInOrder(s: State, q: Queued)
    requires QueueInOrder(s.queue, q.socket) && GrantsInOrder(s.sent, q.socket) && GrantedBeforeQueue(s.sent, s.queue)
    requires s.nextSocket == q.socket + 1
    ensures FirstComeFirstServed(s.(queue := s.queue + [q]))
  {
  }

  lemma ReleaseFair(s: State, socket: Socket, token: Option<Token>)
    requires Fair(s) && s.status.Active?
    ensures Fair(Release(s, socket, token))
  {
    hide DrainQueue, QueueInOrder, GrantsInOrder, GrantedBeforeQueue;
    ReleaseWithinCap(s, socket, token);
    if token.Some? {
      var freed := s.(active := s.active - {token.value}, suspended := s.suspended - {token.value});
      RespondInOrder(freed, socket, Done);
      DrainInOrder(Respond(freed, socket, Done));
    } else {
      RespondInOrder(s, socket, Failed(1));
    }
  }

  lemma SuspendFair(s: State, socket: Socket, pid: Process, token: Option<Token>)
    requires Fair(s) && s.status.Active?
    ensures Fair(Suspend(s, socket, pid, token))
  {
    hide DrainQueue, QueueInOrder, GrantsInOrder, GrantedBeforeQueue;
    SuspendWithinCap(s, socket, pid, token);
    RespondInOrder(s, socket, Failed(1));
    if token.Some? && token.value in s.active {
      var yielded := s.(active := s.active - {token.value},
                        suspended := s.suspended[token.value := s.active[token.value]]);
      RespondInOrder(yielded, socket, Done);
      DrainInOrder(Respond(yielded, socket, Done));
    }
  }

  lemma OtherFair(s: State, socket: Socket, pid: Process, operation: Operation)
    requires Fair(s) && s.status.Active?
    requires operation.Check? || operation.AllocateCall? || operation.RegisterLaunch? || operation.UnknownOperation?
    ensures Fair(Perform(s, socket, pid, operation))
  {
    hide Admit, Release, Suspend, Allocate, QueueInOrder, GrantsInOrder, GrantedBeforeQueue;
    match operation
    case RegisterLaunch(token, child) =>
      RegisterWithinCap(s, socket, token, child);
      RespondInOrder(s, socket, Failed(1));
      RespondInOrder(s, socket, Failed(130));
      if token.Some? && token.value in s.active {
        RespondInOrder(s.(active := s.active[token.value := s.active[token.value].(child := child)]), socket, Done);
      }
    case AllocateCall(limit, seed, file, projection) =>
      var outcome := Allocate(s.ledger, s.disk, limit, seed, file, projection);
      RespondInOrder(s.(ledger := outcome.ledger, disk := outcome.disk), socket,
                     if outcome.number.Some? then CallNumber(outcome.number.value) else Failed(1));
    case _ =>
      RespondInOrder(s, socket, Done);
      RespondInOrder(s, socket, Failed(1));
  }

  lemma NextSocketFair(s: State)
    requires Fair(s)
    ensures Fair(s.(nextSocket := s.nextSocket + 1))
  {
    NextSocketInOrder(s);
    hide FirstComeFirstServed;
  }

  lemma PerformFair(s: State, pid: Process, operation: Operation)
    requires Fair(s) && ActiveSlotsLive(s) && s.status.Active?
    ensures Fair(Perform(s.(nextSocket := s.nextSocket + 1), s.nextSocket, pid, operation))
  {
    hide Admit, Release, Suspend, NumberCall, Register, Respond, Fair, ActiveSlotsLive;
    var socket := s.nextSocket;
    var next := s.(nextSocket := socket + 1);
    NextSocketFair(s);
    match operation
    case AcquireSlot(token, maximum) => AdmitFair(s, socket, pid, token, maximum, false);
    case ResumeSlot(token, maximum) => AdmitFair(s, socket, pid, token, maximum, true);
    case ReleaseSlot(token) => ReleaseFair(next, socket, token);
    case SuspendSlot(token) => SuspendFair(next, socket, pid, token);
    case _ => OtherFair(next, socket, pid, operation);
  }

  lemma {:induction false} WithoutSocketKeepsOrder(queue: seq<Queued>, socket: Socket, next: Socket)
    requires QueueInOrder(queue, next)
    ensures var kept := WithoutSocket(queue, socket);
            && QueueInOrder(kept, next)
            && (forall q <- kept :: q in queue)
            && (kept != [] ==> queue != [])
  {
    if queue != [] {
      var (rest, kept) := (queue[1..], WithoutSocket(queue[1..], socket));
      assert forall i | 0 <= i < |rest| :: rest[i] == queue[i + 1];
      WithoutSocketKeepsOrder(rest, socket, next);
      forall q <- kept ensures q in queue && queue[0].socket < q.socket {
        assert q in rest;
      }
      PrependInOrder(queue[0], kept, next);
    }
  }

  lemma PrependInOrder(q: Queued, kept: seq<Queued>, next: Socket)
    requires QueueInOrder(kept, next) && q.socket < next && forall r <- kept :: q.socket < r.socket
    ensures QueueInOrder([q] + kept, next)
  {
  }

  lemma RemoveFair(s: State, socket: Socket)
    requires Fair(s)
    ensures Fair(RemoveQueuedSocket(s, socket))
  {
    WithoutSocketKeepsOrder(s.queue, socket, s.nextSocket);
    var kept := WithoutSocket(s.queue, socket);
    forall i, j | 0 <= i < |s.sent| && s.sent[i].body.Granted? && 0 <= j < |kept|
      ensures s.sent[i].socket < kept[j].socket
    {
      assert kept[j] in s.queue;
    }
  }

  lemma {:induction false} RefuseAllInOrder(s: State)
    requires FirstComeFirstServed(s)
    ensures FirstComeFirstServed(RefuseAll(s))
    decreases |s.queue|
  {
    if s.queue != [] {
      var rest := s.(queue := s.queue[1..]);
      assert forall i | 0 <= i < |rest.queue| :: rest.queue[i] == s.queue[i + 1];
      RespondInOrder(rest, s.queue[0].socket, Failed(130));
      RefuseAllInOrder(Respond(rest, s.queue[0].socket, Failed(130)));
    }
  }

  lemma RollbackFair(s: State, socket: Socket)
    requires Fair(s)
    ensures Fair(Rollback(s, socket))
  {
    hide Rollback;
    RollbackWithinCap(s, socket);
    RollbackInOrder(s, socket);
  }

  lemma RefuseAllFair(s: State)
    requires Fair(s)
    ensures Fair(s.(status := Terminal)) && Fair(RefuseAll(s.(status := Terminal)))
  {
    hide RefuseAll;
    RefuseAllEmpties(s.(status := Terminal));
    RefuseAllInOrder(s.(status := Terminal));
  }

  lemma ReceiveFair(s: State, request: Request)
    requires Fair(s) && ActiveSlotsLive(s)
    ensures Fair(HandleRequest(s, request))
  {
    hide Perform;
    if Authenticated(s, request) {
      PerformFair(s, request.pid, request.operation);
    }
  }

  lemma ApplyFair(s: State, event: Event)
    requires Fair(s) && ActiveSlotsLive(s)
    ensures Fair(Apply(s, event))
  {
    hide Rollback, RefuseAll, WithoutSocket, HandleRequest;
    match event
    case Receive(request) => ReceiveFair(s, request);
    case Acknowledge(socket, valid) => RollbackFair(s, socket);
    case AckTimeout(socket) => RollbackFair(s, socket);
    case Close(socket) =>
      RemoveFair(Destroy(s, socket), socket);
      RollbackFair(RemoveQueuedSocket(Destroy(s, socket), socket), socket);
    case SocketError(socket) => RemoveFair(s, socket);
    case ServerError => RefuseAllFair(s);
    case Terminate(written) => RefuseAllFair(s);
    case _ =>
  }

  /** At no point of the run is an active slot left over from dead processes. */
  ghost predicate StaysLive(s: State, events: seq<Event>) {
    forall k | 0 <= k <= |events| :: ActiveSlotsLive(Run(s, events[..k]))
  }

  /**
   * While no slot outlives its processes, a waiting request means the cap is full, and
   * slots are granted in the order their requests arrived.
   */
  lemma {:induction false} FairnessHolds(s: State, events: seq<Event>)
    requires Fair(s) && StaysLive(s, events)
    ensures Fair(Run(s, events))
    decreases |events|
  {
    if events != [] {
      var before := events[..|events| - 1];
      forall k | 0 <= k <= |before| ensures ActiveSlotsLive(Run(s, before[..k])) {
        assert before[..k] == events[..k];
      }
      FairnessHolds(s, before);
      assert before == events[..|before|];
      ApplyFair(Run(s, before), events[|events| - 1]);
    }
  }

  /** Pruning makes room when some slot has outlived its processes. */
  lemma PruneShrinks(s: State)
    requires !ActiveSlotsLive(s)
    ensures |PruneDeadSlots(s).active| < |s.active|
  {
    var gone :| gone in s.active && !SlotAlive(s.dead, s.active[gone]);
    SubmapSize(PruneDeadSlots(s).active, s.active - {gone});
    assert (s.active - {gone}).Keys == s.active.Keys - {gone};
    assert |s.active - {gone}| == |(s.active - {gone}).Keys| && |s.active| == |s.active.Keys|;
  }

  /**
   * With requests waiting, a request that arrives now, a resume included, is granted ahead of
   * them exactly when some active slot has outlived its processes.
   */
  lemma NewcomerPassesQueueExactly(s: State, socket: Socket, pid: Process, token: Token, maximum: int, resume: bool)
    requires s.status.Active? && WithinCap(s) && NeverIdle(s) && s.queue != []
    requires s.maximum == Some(maximum) && ExactPositive(maximum) && token !in s.active
    requires resume ==> token in s.suspended && SlotAlive(s.dead, s.suspended[token])
    ensures token in Admit(s, socket, pid, Some(token), maximum, resume).active <==> !ActiveSlotsLive(s)
  {
    if ActiveSlotsLive(s) {
      PruneKeepsLive(s);
    } else {
      PruneShrinks(s);
    }
    assert resume ==> token in PruneDeadSlots(s).suspended;
    hide ActiveSlotsLive, LiveSlots;
  }

  lemma RunStep(s: State, events: seq<Event>, k: nat)
    requires k < |events|
    ensures Run(s, events[..k + 1]) == Apply(Run(s, events[..k]), events[k])
  {
    assert events[..k + 1][..k] == events[..k];
  }

  // ---------------------------------------------------------------- termination

  /** Nothing was admitted between the two states. */
  ghost predicate NothingAdmitted(before: State, after: State) {
    && after.status.Terminal?
    && after.active.Keys <= before.active.Keys
    && (forall token <- after.active :: after.active[token] == before.active[token])
    && after.ledger == before.ledger
    && before.sent <= after.sent
    && (forall i | |before.sent| <= i < |after.sent| ::
          !after.sent[i].body.Granted? && !after.sent[i].body.CallNumber?)
  }

  lemma RollbackTerminal(s: State, socket: Socket)
    requires s.status.Terminal?
    ensures var after := Rollback(s, socket);
            && NothingAdmitted(s, after) && after.sent == s.sent && after.destroyed == s.destroyed
  {
    hide DrainLoop;
  }

  lemma ApplyTerminal(s: State, event: Event)
    requires s.status.Terminal?
    ensures NothingAdmitted(s, Apply(s, event))
  {
    hide Perform, Rollback, DrainLoop, RefuseAll, WithoutSocket;
    match event
    case Acknowledge(socket, valid) => RollbackTerminal(s, socket);
    case AckTimeout(socket) => RollbackTerminal(s, socket);
    case Close(socket) => RollbackTerminal(RemoveQueuedSocket(Destroy(s, socket), socket), socket);
    case _ =>
  }

  /** Termination is one-way: no later event grants a token or numbers a call. */
  lemma {:induction false} TerminalIsFinal(s: State, events: seq<Event>)
    requires s.status.Terminal?
    ensures NothingAdmitted(s, Run(s, events))
    decreases |events|
  {
    if events != [] {
      TerminalIsFinal(s, events[..|events| - 1]);
      ApplyTerminal(Run(s, events[..|events| - 1]), events[|events| - 1]);
    }
  }
}
