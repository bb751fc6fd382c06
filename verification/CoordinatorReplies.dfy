/**
 * What the coordinator answers (tree-coordinator.ts): every request once and only once, and
 * what each operation answers and does, written out field by field.
 */
module CoordinatorReplies {
  import opened Wrappers
  import opened TreeCoordinator

  // ---------------------------------------------------------------- every request is answered once

  /** Answers to a connection; the confirmation of a grant is no answer of its own. */
  function AnswersTo(sent: seq<Message>, x: Socket): nat
    decreases |sent|
  {
    if sent == [] then 0
    else
      var last := sent[|sent| - 1];
      AnswersTo(sent[..|sent| - 1], x) + if last.socket == x && !last.body.Confirmed? then 1 else 0
  }

  predicate Waits(queue: seq<Queued>, x: Socket) {
    exists i | 0 <= i < |queue| :: queue[i].socket == x
  }

  /** Known connections, each once. */
  predicate InLine(queue: seq<Queued>, next: Socket) {
    && (forall i | 0 <= i < |queue| :: queue[i].socket < next)
    && (forall i, j | 0 <= i < j < |queue| :: queue[i].socket != queue[j].socket)
  }

  /**
   * Every connection so far is answered once, or waits in the queue, or is one of `open`, the
   * connections being dealt with at the moment; those the client cut off may be none of these.
   */
  ghost predicate Tidy(s: State, cut: set<Socket>, open: set<Socket>) {
    && InLine(s.queue, s.nextSocket)
    && (forall x: Socket :: AnswersTo(s.sent, x) <= 1)
    && (forall x: Socket | x >= s.nextSocket || x in open || Waits(s.queue, x) :: AnswersTo(s.sent, x) == 0)
    && (forall x <- open :: x < s.nextSocket && !Waits(s.queue, x))
    && (forall x: Socket | x < s.nextSocket && x !in cut && AnswersTo(s.sent, x) == 0 :: x in open || Waits(s.queue, x))
    && (forall x <- s.destroyed :: x in cut || AnswersTo(s.sent, x) == 1)
    && (forall x <- s.grants :: x in cut || AnswersTo(s.sent, x) == 1)
  }

  lemma OneMoreMessage(sent: seq<Message>, m: Message)
    ensures forall x :: AnswersTo(sent + [m], x)
                        == AnswersTo(sent, x) + if m.socket == x && !m.body.Confirmed? then 1 else 0
  {
    assert (sent + [m])[..|sent|] == sent;
  }

  /** What does not touch connections keeps them tidy. */
  lemma Framed(s: State, t: State, cut: set<Socket>, open: set<Socket>)
    requires Tidy(s, cut, open) && t.queue == s.queue && t.sent == s.sent && t.nextSocket == s.nextSocket
    requires t.destroyed == s.destroyed && t.grants.Keys <= s.grants.Keys
    ensures Tidy(t, cut, open)
  {
    hide AnswersTo, Waits;
  }

  lemma RespondTidy(s: State, x: Socket, body: Body, cut: set<Socket>, open: set<Socket>)
    requires Tidy(s, cut, open) && x in open && !body.Confirmed?
    ensures Tidy(Respond(s, x, body), cut, open - {x})
  {
    OneMoreMessage(s.sent, Message(x, body));
    hide AnswersTo, Waits;
  }

  lemma ConfirmTidy(s: State, x: Socket, cut: set<Socket>, open: set<Socket>)
    requires Tidy(s, cut, open)
    ensures Tidy(Respond(s, x, Confirmed), cut, open)
  {
    OneMoreMessage(s.sent, Message(x, Confirmed));
    hide AnswersTo, Waits;
  }

  lemma GrantTidy(s: State, x: Socket, pid: Process, token: Option<Token>, resume: bool, cut: set<Socket>,
                  open: set<Socket>)
    requires Tidy(s, cut, open) && x in open
    ensures var r := GrantSlot(s, x, pid, token, resume);
            match r
            case Ok(granted) => Tidy(granted, cut, open - {x})
            case Err(code) => Tidy(Respond(s, x, Failed(code)), cut, open - {x})
  {
    RespondTidy(s, x, Granted, cut, open);
    var r := GrantSlot(s, x, pid, token, resume);
    if r.Ok? {
      GrantKeys(s, r.value, x, cut, open);
    } else {
      RespondTidy(s, x, Failed(r.error), cut, open);
    }
  }

  lemma GrantKeys(s: State, t: State, x: Socket, cut: set<Socket>, open: set<Socket>)
    requires Tidy(s, cut, open) && x in open && Tidy(Respond(s, x, Granted), cut, open - {x})
    requires var r := Respond(s, x, Granted);
             && t.queue == r.queue && t.sent == r.sent && t.nextSocket == r.nextSocket && t.destroyed == r.destroyed
             && t.grants.Keys == s.grants.Keys + {x}
    ensures Tidy(t, cut, open - {x})
  {
    hide AnswersTo, Waits;
    var r := Respond(s, x, Granted);
    assert x in s.destroyed ==> x in cut;
    assert x !in s.destroyed ==> AnswersTo(r.sent, x) == 1 by {
      OneMoreMessage(s.sent, Message(x, Granted));
    }
  }

  /** The head leaves the queue and is dealt with. */
  lemma HeadTidy(s: State, cut: set<Socket>)
    requires Tidy(s, cut, {}) && s.queue != []
    ensures Tidy(s.(queue := s.queue[1..]), cut, {s.queue[0].socket})
  {
    hide AnswersTo;
    var (head, rest) := (s.queue[0].socket, s.queue[1..]);
    assert forall i | 0 <= i < |rest| :: rest[i] == s.queue[i + 1];
    forall x | x != head ensures Waits(s.queue, x) <==> Waits(rest, x) {
      if Waits(s.queue, x) {
        var i :| 0 <= i < |s.queue| && s.queue[i].socket == x;
        assert rest[i - 1].socket == x;
      }
    }
    assert Waits(s.queue, head);
  }

  lemma DropTidy(s: State, x: Socket, cut: set<Socket>)
    requires Tidy(s, cut, {x}) && x in s.destroyed
    ensures Tidy(s, cut, {})
  {
    hide AnswersTo, Waits;
  }

  lemma {:induction false} DrainLoopTidy(s: State, cut: set<Socket>)
    requires Tidy(s, cut, {}) && s.maximum.Some?
    ensures Tidy(DrainLoop(s), cut, {})
    decreases |s.queue|
  {
    hide Tidy, GrantSlot, Respond;
    if |s.active| < s.maximum.value && s.queue != [] {
      var head := s.queue[0];
      var rest := s.(queue := s.queue[1..]);
      HeadTidy(s, cut);
      if head.socket in rest.destroyed {
        DropTidy(rest, head.socket, cut);
        DrainLoopTidy(rest, cut);
      } else {
        GrantTidy(rest, head.socket, head.pid, head.token, head.resume, cut, {head.socket});
        assert {head.socket} - {head.socket} == {};
        GrantFrame(rest, head.socket, head.pid, head.token, head.resume);
        match GrantSlot(rest, head.socket, head.pid, head.token, head.resume)
        case Ok(granted) => DrainLoopTidy(granted, cut);
        case Err(code) => DrainLoopTidy(Respond(rest, head.socket, Failed(code)), cut);
      }
    }
  }

  lemma GrantFrame(s: State, x: Socket, pid: Process, token: Option<Token>, resume: bool)
    ensures match GrantSlot(s, x, pid, token, resume)
            case Ok(granted) => granted.queue == s.queue && granted.maximum == s.maximum
            case Err(code) =>
              Respond(s, x, Failed(code)).queue == s.queue && Respond(s, x, Failed(code)).maximum == s.maximum
  {
  }

  lemma DrainTidy(s: State, cut: set<Socket>)
    requires Tidy(s, cut, {})
    ensures Tidy(DrainQueue(s), cut, {})
  {
    hide Tidy, DrainLoop, LiveSlots;
    if s.status.Active? && s.maximum.Some? {
      Framed(s, PruneDeadSlots(s), cut, {});
      DrainLoopTidy(PruneDeadSlots(s), cut);
    }
  }

  lemma RollbackTidy(s: State, x: Socket, cut: set<Socket>)
    requires Tidy(s, cut, {})
    ensures Tidy(Rollback(s, x), cut, {})
  {
    hide Tidy, DrainQueue;
    if x in s.grants && !s.grants[x].acknowledged {
      Framed(s, Undone(s, s.grants[x]), cut, {});
      DrainTidy(Undone(s, s.grants[x]), cut);
    }
  }

  lemma {:induction false} DrainKeepsGrants(s: State)
    requires s.maximum.Some?
    ensures s.grants.Keys <= DrainLoop(s).grants.Keys
    decreases |s.queue|
  {
    if |s.active| < s.maximum.value && s.queue != [] {
      var head := s.queue[0];
      var rest := s.(queue := s.queue[1..]);
      if head.socket in rest.destroyed {
        DrainKeepsGrants(rest);
      } else {
        match GrantSlot(rest, head.socket, head.pid, head.token, head.resume)
        case Ok(granted) => DrainKeepsGrants(granted);
        case Err(code) => DrainKeepsGrants(Respond(rest, head.socket, Failed(code)));
      }
    }
  }

  lemma RollbackKeepsGrants(s: State, x: Socket)
    ensures s.grants.Keys <= Rollback(s, x).grants.Keys
  {
    hide DrainLoop, LiveSlots;
    if x in s.grants && !s.grants[x].acknowledged {
      var undone := Undone(s, s.grants[x]);
      if undone.status.Active? && undone.maximum.Some? {
        DrainKeepsGrants(PruneDeadSlots(undone));
      }
    }
  }

  lemma DestroyTidy(s: State, x: Socket, cut: set<Socket>)
    requires Tidy(s, cut, {}) && (x in cut || x in s.grants)
    ensures Tidy(Destroy(s, x), cut, {})
  {
    hide AnswersTo, Waits;
  }

  lemma AcknowledgeTidy(s: State, x: Socket, valid: bool, cut: set<Socket>)
    requires Tidy(s, cut, {})
    ensures Tidy(AcknowledgeGrant(s, x, valid), cut, {})
  {
    hide Tidy, Rollback;
    if x in s.grants && x !in s.destroyed {
      if valid {
        var marked := s.(grants := s.grants[x := s.grants[x].(acknowledged := true)]);
        Framed(s, marked, cut, {});
        ConfirmTidy(marked, x, cut, {});
      } else {
        RollbackTidy(s, x, cut);
        RollbackKeepsGrants(s, x);
        DestroyTidy(Rollback(s, x), x, cut);
      }
    }
  }

  lemma ExpireTidy(s: State, x: Socket, cut: set<Socket>)
    requires Tidy(s, cut, {})
    ensures Tidy(ExpireGrant(s, x), cut, {})
  {
    hide Tidy, Rollback;
    if x in s.grants {
      RollbackTidy(s, x, cut);
      RollbackKeepsGrants(s, x);
      DestroyTidy(Rollback(s, x), x, cut);
    }
  }

  lemma InLineFirst(q: Queued, rest: seq<Queued>, next: Socket)
    requires InLine(rest, next) && q.socket < next && !Waits(rest, q.socket)
    ensures InLine([q] + rest, next)
  {
    var queue := [q] + rest;
    forall i, j | 0 <= i < j < |queue| ensures queue[i].socket != queue[j].socket {
      assert queue[j] == rest[j - 1];
      assert i > 0 ==> queue[i] == rest[i - 1];
    }
  }

  lemma {:induction false} WithoutSocketKeeps(queue: seq<Queued>, x: Socket, next: Socket)
    requires InLine(queue, next)
    ensures InLine(WithoutSocket(queue, x), next)
    ensures forall y :: Waits(WithoutSocket(queue, x), y) <==> Waits(queue, y) && y != x
    decreases |queue|
  {
    hide Waits;
    if queue == [] {
      NobodyWaits();
    } else {
      var (rest, left) := (WithoutSocket(queue[1..], x), WithoutSocket(queue, x));
      assert forall i | 0 <= i < |queue[1..]| :: queue[1..][i] == queue[i + 1];
      hide InLine;
      WithoutSocketKeeps(queue[1..], x, next);
      NotAgain(queue, queue[0].socket, next);
      forall y ensures Waits(left, y) <==> Waits(queue, y) && y != x {
        WaitsFirst(queue, y);
        if queue[0].socket != x {
          WaitsFirst(left, y);
          assert left[1..] == rest;
        }
      }
      if queue[0].socket != x {
        InLineFirst(queue[0], rest, next);
      }
    }
  }

  lemma NobodyWaits()
    ensures forall y :: !Waits([], y)
  {
  }

  lemma WaitsFirst(queue: seq<Queued>, y: Socket)
    requires queue != []
    ensures Waits(queue, y) <==> queue[0].socket == y || Waits(queue[1..], y)
  {
    if Waits(queue, y) {
      var i :| 0 <= i < |queue| && queue[i].socket == y;
      assert i > 0 ==> queue[1..][i - 1].socket == y;
    }
    if Waits(queue[1..], y) {
      var i :| 0 <= i < |queue| - 1 && queue[1..][i].socket == y;
      assert queue[i + 1].socket == y;
    }
  }

  lemma NotAgain(queue: seq<Queued>, y: Socket, next: Socket)
    requires queue != [] && InLine(queue, next)
    ensures Waits(queue[1..], y) ==> queue[0].socket != y
    ensures queue[0].socket < next
  {
    if Waits(queue[1..], y) {
      var i :| 0 <= i < |queue| - 1 && queue[1..][i].socket == y;
      assert queue[i + 1].socket == y;
    }
  }

  lemma RemoveTidy(s: State, x: Socket, cut: set<Socket>)
    requires Tidy(s, cut, {})
    ensures Tidy(RemoveQueuedSocket(s, x), cut + {x}, {})
  {
    hide AnswersTo, Waits, WithoutSocket;
    WithoutSocketKeeps(s.queue, x, s.nextSocket);
    var left := WithoutSocket(s.queue, x);
    forall y: Socket | y < s.nextSocket && y !in cut + {x} && AnswersTo(s.sent, y) == 0 ensures Waits(left, y) {
      assert Waits(s.queue, y);
    }
    forall y: Socket | Waits(left, y) ensures AnswersTo(s.sent, y) == 0 {
      assert Waits(s.queue, y);
    }
  }

  lemma MoreCut(s: State, cut: set<Socket>, more: set<Socket>)
    requires Tidy(s, cut, {})
    ensures Tidy(s, cut + more, {})
  {
    hide AnswersTo, Waits;
  }

  lemma CloseTidy(s: State, x: Socket, cut: set<Socket>)
    requires Tidy(s, cut, {})
    ensures Tidy(CloseSocket(s, x), cut + {x}, {})
  {
    hide Tidy, Rollback, WithoutSocket;
    MoreCut(s, cut, {x});
    DestroyTidy(s, x, cut + {x});
    RemoveTidy(Destroy(s, x), x, cut + {x});
    assert cut + {x} + {x} == cut + {x};
    RollbackTidy(RemoveQueuedSocket(Destroy(s, x), x), x, cut + {x});
  }

  lemma AcceptTidy(s: State, cut: set<Socket>)
    requires Tidy(s, cut, {})
    ensures Tidy(s.(nextSocket := s.nextSocket + 1), cut, {s.nextSocket})
  {
    hide AnswersTo;
  }

  lemma PushTidy(s: State, q: Queued, cut: set<Socket>)
    requires Tidy(s, cut, {q.socket})
    ensures Tidy(s.(queue := s.queue + [q]), cut, {})
  {
    hide AnswersTo;
    var more := s.queue + [q];
    assert forall i | 0 <= i < |s.queue| :: more[i] == s.queue[i];
    assert more[|s.queue|] == q;
    forall x ensures Waits(more, x) <==> Waits(s.queue, x) || x == q.socket {
      if Waits(s.queue, x) {
        var i :| 0 <= i < |s.queue| && s.queue[i].socket == x;
        assert more[i].socket == x;
      }
    }
    assert forall i | 0 <= i < |s.queue| :: Waits(s.queue, s.queue[i].socket);
  }

  lemma AdmitTidy(s: State, x: Socket, pid: Process, token: Option<Token>, maximum: int, resume: bool, cut: set<Socket>)
    requires Tidy(s, cut, {x})
    ensures Tidy(Admit(s, x, pid, token, maximum, resume), cut, {})
  {
    hide Tidy, LiveSlots, GrantSlot, Respond;
    var (bound, accepted) := BindMaximum(s, maximum);
    Framed(s, bound, cut, {x});
    assert {x} - {x} == {};
    if accepted {
      var pruned := PruneDeadSlots(bound);
      Framed(bound, pruned, cut, {x});
      if |pruned.active| < maximum {
        GrantTidy(pruned, x, pid, token, resume, cut, {x});
      } else {
        PushTidy(pruned, Queued(x, pid, token, resume), cut);
      }
    } else {
      RespondTidy(bound, x, Failed(1), cut, {x});
    }
  }

  /** Some fields other than the connections change, an answer goes out, and perhaps the queue is drained. */
  lemma AnswerTidy(s: State, t: State, x: Socket, body: Body, cut: set<Socket>)
    requires Tidy(s, cut, {x}) && !body.Confirmed?
    requires t.queue == s.queue && t.sent == s.sent && t.nextSocket == s.nextSocket && t.destroyed == s.destroyed
    requires t.grants == s.grants
    ensures Tidy(Respond(t, x, body), cut, {}) && Tidy(DrainQueue(Respond(t, x, body)), cut, {})
  {
    hide Tidy, DrainQueue, Respond;
    Framed(s, t, cut, {x});
    RespondTidy(t, x, body, cut, {x});
    assert {x} - {x} == {};
    DrainTidy(Respond(t, x, body), cut);
  }

  lemma PerformTidy(s: State, x: Socket, pid: Process, operation: Operation, cut: set<Socket>)
    requires Tidy(s, cut, {x})
    ensures Tidy(Perform(s, x, pid, operation), cut, {})
  {
    hide Tidy, DrainQueue, Respond, Allocate, Admit;
    match operation
    case Check => AnswerTidy(s, s, x, Done, cut);
    case AllocateCall(limit, seed, file, projection) =>
      var outcome := Allocate(s.ledger, s.disk, limit, seed, file, projection);
      AnswerTidy(s, s.(ledger := outcome.ledger, disk := outcome.disk), x,
                 if outcome.number.Some? then CallNumber(outcome.number.value) else Failed(1), cut);
    case AcquireSlot(token, maximum) => AdmitTidy(s, x, pid, token, maximum, false, cut);
    case ResumeSlot(token, maximum) => AdmitTidy(s, x, pid, token, maximum, true, cut);
    case ReleaseSlot(token) =>
      AnswerTidy(s, s, x, Failed(1), cut);
      if token.Some? {
        AnswerTidy(s, s.(active := s.active - {token.value}, suspended := s.suspended - {token.value}), x, Done, cut);
      }
    case SuspendSlot(token) =>
      AnswerTidy(s, s, x, Failed(1), cut);
      if token.Some? && token.value in s.active {
        AnswerTidy(s, s.(active := s.active - {token.value},
                         suspended := s.suspended[token.value := s.active[token.value]]), x, Done, cut);
      }
    case RegisterLaunch(token, child) =>
      AnswerTidy(s, s, x, Failed(1), cut);
      AnswerTidy(s, s, x, Failed(130), cut);
      if token.Some? && token.value in s.active {
        AnswerTidy(s, s.(active := s.active[token.value := s.active[token.value].(child := child)]), x, Done, cut);
      }
    case UnknownOperation => AnswerTidy(s, s, x, Failed(1), cut);
  }

  lemma HandleTidy(s: State, request: Request, cut: set<Socket>)
    requires Tidy(s, cut, {})
    ensures Tidy(HandleRequest(s, request), cut, {})
  {
    hide Tidy, Perform, DrainQueue, Respond;
    var accepted := s.(nextSocket := s.nextSocket + 1);
    AcceptTidy(s, cut);
    PerformTidy(accepted, s.nextSocket, request.pid, request.operation, cut);
    AnswerTidy(accepted, accepted, s.nextSocket, Failed(if request.form.Malformed? then 1 else 130), cut);
  }

  lemma {:induction false} RefuseTidy(s: State, cut: set<Socket>)
    requires Tidy(s, cut, {})
    ensures Tidy(RefuseAll(s), cut, {}) && RefuseAll(s).queue == []
    decreases |s.queue|
  {
    hide Tidy, Respond;
    if s.queue != [] {
      var (head, rest) := (s.queue[0], s.(queue := s.queue[1..]));
      HeadTidy(s, cut);
      RespondTidy(rest, head.socket, Failed(130), cut, {head.socket});
      assert {head.socket} - {head.socket} == {};
      RespondFrame(rest, head.socket, Failed(130));
      RefuseTidy(Respond(rest, head.socket, Failed(130)), cut);
    }
  }

  lemma RespondFrame(s: State, x: Socket, body: Body)
    ensures Respond(s, x, body).queue == s.queue
  {
  }

  function CutBy(cut: set<Socket>, event: Event): set<Socket> {
    if event.Close? || event.SocketError? then cut + {event.socket} else cut
  }

  lemma ApplyTidy(s: State, event: Event, cut: set<Socket>)
    requires Tidy(s, cut, {})
    ensures Tidy(Apply(s, event), CutBy(cut, event), {})
  {
    hide Tidy, HandleRequest, AcknowledgeGrant, ExpireGrant, CloseSocket, RemoveQueuedSocket, RefuseAll, Signalled;
    match event
    case StartupSucceeded => Framed(s, Start(s, true), cut, {});
    case StartupFailed => Framed(s, Start(s, false), cut, {});
    case Receive(request) => HandleTidy(s, request, cut);
    case Acknowledge(socket, valid) => AcknowledgeTidy(s, socket, valid, cut);
    case AckTimeout(socket) => ExpireTidy(s, socket, cut);
    case Close(socket) => CloseTidy(s, socket, cut);
    case SocketError(socket) => RemoveTidy(s, socket, cut);
    case ServerError => EndTidy(s, cut);
    case Terminate(manifestWritten) => EndTidy(s, cut);
    case Die(process) => Framed(s, s.(dead := s.dead + {process}), cut, {});
  }

  lemma EndTidy(s: State, cut: set<Socket>)
    requires Tidy(s, cut, {})
    ensures Tidy(s.(status := Terminal), cut, {}) && Tidy(RefuseAll(s.(status := Terminal)), cut, {})
  {
    hide Tidy, RefuseAll;
    Framed(s, s.(status := Terminal), cut, {});
    RefuseTidy(s.(status := Terminal), cut);
  }

  /** The connections the run closed or reported an error on. */
  function Cut(events: seq<Event>): set<Socket>
    decreases |events|
  {
    if events == [] then {} else CutBy(Cut(events[..|events| - 1]), events[|events| - 1])
  }

  lemma {:induction false} CutExactly(events: seq<Event>, x: Socket)
    ensures x in Cut(events)
            <==> exists i | 0 <= i < |events| :: events[i] == Close(x) || events[i] == SocketError(x)
    decreases |events|
  {
    if events != [] {
      var front := events[..|events| - 1];
      CutExactly(front, x);
      assert forall i | 0 <= i < |front| :: front[i] == events[i];
    }
  }

  lemma {:induction false} RunTidy(rootProcess: Process, counterFile: Option<Path>, counterRaw: Option<int>,
                                   disk: map<Path, int>, events: seq<Event>)
    ensures Tidy(Run(Initial(rootProcess, counterFile, counterRaw, disk), events), Cut(events), {})
    decreases |events|
  {
    var start := Initial(rootProcess, counterFile, counterRaw, disk);
    if events != [] {
      var front := events[..|events| - 1];
      RunTidy(rootProcess, counterFile, counterRaw, disk, front);
      hide Tidy, Apply;
      ApplyTidy(Run(start, front), events[|events| - 1], Cut(front));
    }
  }

  /**
   * Over any run, no request is ever answered twice, and a request whose connection was not cut
   * off is answered exactly when it does not wait in the queue, where it stands once.
   */
  lemma EveryRequestIsAnsweredOnce(rootProcess: Process, counterFile: Option<Path>, counterRaw: Option<int>,
                                   disk: map<Path, int>, events: seq<Event>, x: Socket)
    ensures var s := Run(Initial(rootProcess, counterFile, counterRaw, disk), events);
            && AnswersTo(s.sent, x) <= 1 && (AnswersTo(s.sent, x) == 1 ==> x < s.nextSocket)
            && (Waits(s.queue, x) ==> AnswersTo(s.sent, x) == 0)
            && (forall i, j | 0 <= i < j < |s.queue| :: s.queue[i].socket != s.queue[j].socket)
            && (x < s.nextSocket && Close(x) !in events && SocketError(x) !in events ==>
                  (AnswersTo(s.sent, x) == 1 <==> !Waits(s.queue, x)))
  {
    RunTidy(rootProcess, counterFile, counterRaw, disk, events);
    CutExactly(events, x);
    hide Run, AnswersTo, Waits, Cut;
  }
}
