/**
 * What each operation of the coordinator answers and what it changes (tree-coordinator.ts),
 * in terms of the processes, tokens and slots concerned: for every request, when it is refused
 * and with which exit code, and exactly which slots move.
 */
module CoordinatorOperations {
  import opened Wrappers
  import opened TreeCoordinator

  /** Somebody still lives for whom the slot was taken. */
  predicate Occupied(dead: set<Process>, slot: Slot) {
    slot.owner !in dead || (slot.child.Some? && slot.child.value !in dead)
  }

  /** Exactly the occupied slots are left. */
  predicate Swept(dead: set<Process>, before: map<Token, Slot>, after: map<Token, Slot>) {
    && (forall t <- after :: t in before && after[t] == before[t] && Occupied(dead, before[t]))
    && (forall t <- before :: Occupied(dead, before[t]) ==> t in after)
  }

  /** Nothing changed but the slots, and this answer went out. */
  predicate Answered(s: State, r: State, x: Socket, body: Body) {
    r == s.(active := r.active, suspended := r.suspended, sent := s.sent + [Message(x, body)])
  }

  // ---------------------------------------------------------------- strangers

  /** A request that is not authentic, or of a dead process, or to a tree that is not active, changes nothing. */
  lemma StrangersAreRefused(s: State, request: Request)
    requires s.nextSocket !in s.destroyed
    requires !(request.form == Authentic && request.pid !in s.dead && s.status == Active)
    ensures HandleRequest(s, request)
            == s.(nextSocket := s.nextSocket + 1,
                  sent := s.sent + [Message(s.nextSocket, Failed(if request.form == Malformed then 1 else 130))])
  {
  }

  /** The other requests are dealt with, each as its operation says. */
  lemma AuthenticIsPerformed(s: State, request: Request)
    requires request.form == Authentic && request.pid !in s.dead && s.status == Active
    ensures HandleRequest(s, request)
            == Perform(s.(nextSocket := s.nextSocket + 1), s.nextSocket, request.pid, request.operation)
  {
    hide Perform;
  }

  lemma CheckExactly(s: State, x: Socket, pid: Process)
    requires x !in s.destroyed
    ensures Answered(s, Perform(s, x, pid, Check), x, Done) && Perform(s, x, pid, Check).active == s.active
    ensures Perform(s, x, pid, Check).suspended == s.suspended
    ensures Perform(s, x, pid, UnknownOperation) == s.(sent := s.sent + [Message(x, Failed(1))])
  {
  }

  // ---------------------------------------------------------------- binding a child

  /** A child is bound to an active slot exactly when it lives; a malformed token is told apart. */
  lemma RegisterExactly(s: State, x: Socket, pid: Process, token: Option<Token>, child: Option<Process>)
    requires x !in s.destroyed
    ensures var r := Perform(s, x, pid, RegisterLaunch(token, child));
            var ok := token.Some? && token.value in s.active && child.Some? && child.value !in s.dead;
            && Answered(s, r, x, if ok then Done else if token == None then Failed(1) else Failed(130))
            && r.suspended == s.suspended
            && (ok ==> r.active == s.active[token.value :=
                                            Slot(s.active[token.value].id, s.active[token.value].owner, child)])
            && (!ok ==> r.active == s.active)
  {
  }

  // ---------------------------------------------------------------- giving slots back

  lemma SweptExactly(s: State)
    ensures Swept(s.dead, s.active, PruneDeadSlots(s).active)
    ensures Swept(s.dead, s.suspended, PruneDeadSlots(s).suspended)
    ensures PruneDeadSlots(s) == s.(active := PruneDeadSlots(s).active, suspended := PruneDeadSlots(s).suspended)
  {
  }

  /** With nobody waiting, draining only sweeps. */
  lemma NothingToDrain(s: State)
    requires s.queue == []
    ensures var r := DrainQueue(s);
            && r == s.(active := r.active, suspended := r.suspended)
            && (if s.status == Active && s.maximum.Some?
                then Swept(s.dead, s.active, r.active) && Swept(s.dead, s.suspended, r.suspended) else r == s)
  {
    SweptExactly(s);
    hide LiveSlots;
  }

  /** With nobody waiting, a release takes the token out of both maps, and a malformed token is refused. */
  lemma ReleaseExactly(s: State, x: Socket, pid: Process, token: Option<Token>)
    requires x !in s.destroyed && s.queue == []
    ensures var r := Perform(s, x, pid, ReleaseSlot(token));
            && Answered(s, r, x, if token.Some? then Done else Failed(1))
            && (token.None? ==> r.active == s.active && r.suspended == s.suspended)
            && (token.Some? ==>
                  var (active, suspended) := (s.active - {token.value}, s.suspended - {token.value});
                  if s.status == Active && s.maximum.Some?
                  then Swept(s.dead, active, r.active) && Swept(s.dead, suspended, r.suspended)
                  else r.active == active && r.suspended == suspended)
  {
    hide DrainQueue, Swept;
    if token.Some? {
      var freed := s.(active := s.active - {token.value}, suspended := s.suspended - {token.value});
      NothingToDrain(Respond(freed, x, Done));
    }
  }

  /** A slot is suspended exactly at the request of its owner or of its child, and moves as it is. */
  lemma SuspendExactly(s: State, x: Socket, pid: Process, token: Option<Token>)
    requires x !in s.destroyed && s.queue == []
    ensures var r := Perform(s, x, pid, SuspendSlot(token));
            var ok := token.Some? && token.value in s.active
                      && (s.active[token.value].owner == pid || s.active[token.value].child == Some(pid));
            && Answered(s, r, x, if ok then Done else Failed(1))
            && (!ok ==> r.active == s.active && r.suspended == s.suspended)
            && (ok ==>
                  var (active, suspended) :=
                  (s.active - {token.value}, s.suspended[token.value := s.active[token.value]]);
                  if s.status == Active && s.maximum.Some?
                  then Swept(s.dead, active, r.active) && Swept(s.dead, suspended, r.suspended)
                  else r.active == active && r.suspended == suspended)
  {
    hide DrainQueue, Swept;
    if token.Some? && token.value in s.active {
      NothingToDrain(Respond(s.(active := s.active - {token.value},
                                suspended := s.suspended[token.value := s.active[token.value]]), x, Done));
    }
  }

  // ---------------------------------------------------------------- asking for slots

  /** The token can be given out: it is well formed and free, and suspended if it is to be resumed. */
  predicate Grantable(s: State, token: Option<Token>, resume: bool) {
    token.Some? && token.value !in s.active && (resume ==> token.value in s.suspended)
  }

  /** The token is now the process's: in a slot of its own, taken out of the suspended ones on a resume. */
  predicate Gives(s: State, r: State, x: Socket, pid: Process, t: Token, resume: bool) {
    && (resume ==> t in s.suspended)
    && r.active == s.active[t := Slot(s.nextSlot, pid, if resume then Some(pid) else None)]
    && r.suspended == (if resume then s.suspended - {t} else s.suspended)
    && r.grants == s.grants[x := PendingGrant(t, s.nextSlot, resume,
                                              if resume then Some(s.suspended[t]) else None, false)]
    && r == s.(active := r.active, suspended := r.suspended, grants := r.grants, nextSlot := s.nextSlot + 1,
               sent := s.sent + [Message(x, Granted)])
  }

  lemma GrantExactly(s: State, x: Socket, pid: Process, token: Option<Token>, resume: bool)
    requires x !in s.destroyed
    ensures match GrantSlot(s, x, pid, token, resume)
            case Ok(r) => Grantable(s, token, resume) && Gives(s, r, x, pid, token.value, resume)
            case Err(code) => code == 1 && !Grantable(s, token, resume)
  {
  }

  /** What an admission makes of the swept state: waiting is for full trees only, whatever the token. */
  predicate Admits(s: State, r: State, x: Socket, pid: Process, token: Option<Token>, maximum: int, resume: bool) {
    if |s.active| >= maximum then r == s.(queue := s.queue + [Queued(x, pid, token, resume)])
    else if Grantable(s, token, resume) then Gives(s, r, x, pid, token.value, resume)
    else r == s.(sent := s.sent + [Message(x, Failed(1))])
  }

  lemma AdmitBoundExactly(s: State, x: Socket, pid: Process, token: Option<Token>, maximum: int, resume: bool)
    requires x !in s.destroyed
    ensures Admits(s, AdmitBound(s, x, pid, token, maximum, resume), x, pid, token, maximum, resume)
  {
    GrantExactly(s, x, pid, token, resume);
    hide GrantSlot, Gives, Grantable;
  }

  /**
   * A request for a slot: refused when its maximum is no positive safe integer or not the one
   * bound before; otherwise that maximum is bound, dead slots go, and it is admitted.
   */
  lemma AdmitExactly(s: State, x: Socket, pid: Process, token: Option<Token>, maximum: int, resume: bool)
    returns (swept: State)
    requires x !in s.destroyed
    ensures swept == s.(active := swept.active, suspended := swept.suspended, maximum := Some(maximum))
    ensures Swept(s.dead, s.active, swept.active) && Swept(s.dead, s.suspended, swept.suspended)
    ensures var r := Admit(s, x, pid, token, maximum, resume);
            if !(1 <= maximum <= 9007199254740991) || (s.maximum.Some? && s.maximum != Some(maximum))
            then r == s.(sent := s.sent + [Message(x, Failed(1))])
            else Admits(swept, r, x, pid, token, maximum, resume)
  {
    var bound := s.(maximum := Some(maximum));
    swept := PruneDeadSlots(bound);
    SweptExactly(bound);
    BoundExactly(s, maximum);
    AdmitBoundExactly(swept, x, pid, token, maximum, resume);
    hide AdmitBound, Admits, Swept, PruneDeadSlots, BindMaximum;
  }

  lemma BoundExactly(s: State, maximum: int)
    ensures BindMaximum(s, maximum)
            == if !(1 <= maximum <= 9007199254740991) || (s.maximum.Some? && s.maximum != Some(maximum))
               then (s, false) else (s.(maximum := Some(maximum)), true)
  {
  }

  /** Taking an unanswered grant back leaves the slots as they were before it, on a resume too. */
  lemma UndoingRestores(s: State, x: Socket, pid: Process, token: Option<Token>, resume: bool)
    requires Grantable(s, token, resume)
    ensures var granted := GrantSlot(s, x, pid, token, resume).value;
            var undone := Undone(granted, granted.grants[x]);
            undone.active == s.active && undone.suspended == s.suspended && undone.queue == s.queue
  {
    var t := token.value;
    assert s.active[t := Slot(s.nextSlot, pid, if resume then Some(pid) else None)] - {t} == s.active;
    if resume {
      assert (s.suspended - {t})[t := s.suspended[t]] == s.suspended;
    }
  }

  /**
   * What is taken back later: the token, if the slot is still the one granted, and what a resume
   * had consumed comes back unless the token was suspended again in the meantime.
   */
  lemma UndoesExactly(s: State, g: PendingGrant)
    ensures var r := Undone(s, g);
            && r == s.(active := r.active, suspended := r.suspended)
            && (forall t :: t in r.active
                            <==> t in s.active && !(t == g.token && s.active[t].id == g.slotId))
            && (forall t <- r.active :: r.active[t] == s.active[t])
            && (forall t <- s.suspended :: t in r.suspended && r.suspended[t] == s.suspended[t])
            && (forall t <- r.suspended :: t in s.suspended
                                           || (t == g.token && g.resume && g.saved == Some(r.suspended[t])))
            && (g.resume && g.saved.Some? ==> g.token in r.suspended)
  {
  }

  // ---------------------------------------------------------------- the queue

  /** Draining stops when all slots are taken or nobody waits; else the first in the queue is dealt with. */
  lemma DrainExactly(s: State)
    requires s.maximum.Some?
    ensures s.queue == [] || |s.active| >= s.maximum.value ==> DrainLoop(s) == s
    ensures s.queue != [] && |s.active| < s.maximum.value ==>
              var q := s.queue[0];
              var rest := s.(queue := s.queue[1..]);
              if q.socket in s.destroyed then DrainLoop(s) == DrainLoop(rest)
              else if Grantable(s, q.token, q.resume)
              then exists r: State :: r.maximum.Some? && Gives(rest, r, q.socket, q.pid, q.token.value, q.resume)
                                      && DrainLoop(s) == DrainLoop(r)
              else DrainLoop(s) == DrainLoop(rest.(sent := s.sent + [Message(q.socket, Failed(1))]))
  {
    if s.queue != [] {
      var q := s.queue[0];
      var rest := s.(queue := s.queue[1..]);
      if q.socket !in s.destroyed {
        GrantExactly(rest, q.socket, q.pid, q.token, q.resume);
        hide GrantSlot, Gives;
        var granted := GrantSlot(rest, q.socket, q.pid, q.token, q.resume);
        assert granted.Ok? ==> Gives(rest, granted.value, q.socket, q.pid, q.token.value, q.resume);
        GivesMaximum(rest, q, granted);
      }
    }
  }

  lemma GivesMaximum(s: State, q: Queued, r: Result<State, int>)
    ensures r.Ok? && q.token.Some? && Gives(s, r.value, q.socket, q.pid, q.token.value, q.resume) ==>
              r.value.maximum == s.maximum
  {
  }

  // ---------------------------------------------------------------- connections

  /**
   * Data on a granted connection: a valid acknowledgement is confirmed and makes the grant
   * final; anything else, and five seconds without data, takes the grant back and closes.
   */
  lemma AcknowledgeExactly(s: State, x: Socket)
    ensures x !in s.grants || x in s.destroyed ==>
              AcknowledgeGrant(s, x, true) == s && AcknowledgeGrant(s, x, false) == s && ExpireGrant(s, x) == s
    ensures x in s.grants && x !in s.destroyed ==>
              && AcknowledgeGrant(s, x, true)
                 == s.(grants := s.grants[x := s.grants[x].(acknowledged := true)],
                       sent := s.sent + [Message(x, Confirmed)])
              && var back := if s.grants[x].acknowledged then s else DrainQueue(Undone(s, s.grants[x]));
              && AcknowledgeGrant(s, x, false) == back.(destroyed := back.destroyed + {x})
              && ExpireGrant(s, x)
                 == if s.grants[x].acknowledged then s else back.(destroyed := back.destroyed + {x})
  {
    hide DrainQueue, Undone;
  }

  /** A connection that closes leaves the queue, where the others keep their order, and loses an unconfirmed grant. */
  lemma CloseExactly(s: State, x: Socket)
    ensures var left := s.(destroyed := s.destroyed + {x}, queue := Others(s.queue, x));
            CloseSocket(s, x)
            == if x in s.grants && !s.grants[x].acknowledged then DrainQueue(Undone(left, s.grants[x])) else left
  {
    OthersAreKept(s.queue, x);
    hide DrainQueue, Undone;
  }

  /** Everybody else in the queue, in order. */
  function Others(queue: seq<Queued>, x: Socket): seq<Queued>
    decreases |queue|
  {
    if queue == [] then []
    else
      var last := queue[|queue| - 1];
      Others(queue[..|queue| - 1], x) + if last.socket != x then [last] else []
  }

  lemma {:induction false} OthersFirst(queue: seq<Queued>, x: Socket)
    requires queue != []
    ensures Others(queue, x) == (if queue[0].socket != x then [queue[0]] else []) + Others(queue[1..], x)
    decreases |queue|
  {
    if |queue| == 1 {
      assert queue[..0] == [] && queue[1..] == [];
    } else {
      var n := |queue| - 1;
      assert queue[..n][1..] == queue[1..][..n - 1];
      OthersFirst(queue[..n], x);
    }
  }

  lemma {:induction false} OthersAreKept(queue: seq<Queued>, x: Socket)
    ensures WithoutSocket(queue, x) == Others(queue, x)
    decreases |queue|
  {
    if queue != [] {
      OthersAreKept(queue[1..], x);
      OthersFirst(queue, x);
    }
  }

  // ---------------------------------------------------------------- the end

  /** The refusals of those who wait and are still connected, in their order. */
  function Refusals(queue: seq<Queued>, gone: set<Socket>): seq<Message>
    decreases |queue|
  {
    if queue == [] then []
    else
      var last := queue[|queue| - 1];
      Refusals(queue[..|queue| - 1], gone) + if last.socket in gone then [] else [Message(last.socket, Failed(130))]
  }

  lemma {:induction false} RefusalsFirst(queue: seq<Queued>, gone: set<Socket>)
    requires queue != []
    ensures Refusals(queue, gone)
            == (if queue[0].socket in gone then [] else [Message(queue[0].socket, Failed(130))])
               + Refusals(queue[1..], gone)
    decreases |queue|
  {
    if |queue| == 1 {
      assert queue[..0] == [] && queue[1..] == [];
    } else {
      var n := |queue| - 1;
      assert queue[..n][1..] == queue[1..][..n - 1];
      RefusalsFirst(queue[..n], gone);
    }
  }

  lemma {:induction false} RefusesInOrder(s: State)
    ensures RefuseAll(s) == s.(queue := [], sent := s.sent + Refusals(s.queue, s.destroyed))
    decreases |s.queue|
  {
    if s.queue == [] {
      assert s.sent + [] == s.sent;
    } else {
      RefusalsFirst(s.queue, s.destroyed);
      var next := Respond(s.(queue := s.queue[1..]), s.queue[0].socket, Failed(130));
      RefusesInOrder(next);
      var first := if s.queue[0].socket in s.destroyed then [] else [Message(s.queue[0].socket, Failed(130))];
      assert next.sent == s.sent + first;
      assert s.sent + first + Refusals(s.queue[1..], s.destroyed) == s.sent + Refusals(s.queue, s.destroyed);
    }
  }

  /** How a tree starts and ends; nothing else ever changes its status. */
  lemma EndsExactly(s: State, event: Event)
    ensures var r := Apply(s, event);
            && (event == StartupSucceeded && s.status == Starting ==> r == s.(status := Active))
            && (event == StartupFailed && s.status == Starting ==> r == s.(status := Terminal))
            && ((event.StartupSucceeded? || event.StartupFailed?) && s.status != Starting ==> r == s)
            && ((event == ServerError || event == Terminate(true)) && s.status != Terminal ==>
                  r == s.(status := Terminal, queue := [], sent := s.sent + Refusals(s.queue, s.destroyed)))
            && (event == Terminate(false) ==> r == s.(status := Terminal))
            && ((event.ServerError? || event.Terminate?) && s.status == Terminal ==> r == s)
  {
    RefusesInOrder(s.(status := Terminal));
    hide RefuseAll, Refusals, HandleRequest, AcknowledgeGrant, ExpireGrant, CloseSocket, RemoveQueuedSocket, Signalled;
  }
}
