/**
 * Slot conservation and cancellation coverage over every interleaving of the tree's
 * clients with late acknowledgements, timeouts, repeated closes, deaths and pruning.
 *
 * The clients follow the order the program gives them (concurrency.ts, launch-gate.ts,
 * runtime-core.ts): a token is random, so never acquired twice; only a confirmed token is
 * released or handed to a launch gate; one gate registers per token; and only the process
 * that occupies a token asks to resume it.
 */
module SlotCustody {
  import opened Wrappers
  import opened TreeCoordinator

  /** The connection and the process that asked for a token. */
  datatype Origin = Origin(socket: Socket, owner: Process)

  /** What the clients have done with each token. */
  datatype Book = Book(origin: map<Token, Origin>, occupant: map<Token, Process>, released: set<Token>)

  datatype Tree = Tree(coordinator: State, book: Book)

  // ---------------------------------------------------------------- the clients

  predicate Confirmed(s: State, b: Book, t: Token) {
    && t in b.origin && b.origin[t].socket in s.grants
    && var g := s.grants[b.origin[t].socket];
       g.token == t && !g.resume && g.acknowledged
  }

  predicate Allowed(tree: Tree, operation: Operation, pid: Process) {
    var (s, b) := (tree.coordinator, tree.book);
    match operation
    case AcquireSlot(Some(t), _) => t !in b.origin
    case ResumeSlot(Some(t), _) => t in b.occupant && b.occupant[t] == pid
    case ReleaseSlot(Some(t)) => Confirmed(s, b, t)
    case RegisterLaunch(Some(t), child) =>
      Confirmed(s, b, t) && t !in b.released && t !in b.occupant && child == Some(pid) && pid != s.rootProcess
    case _ => true
  }

  predicate Disciplined(tree: Tree, event: Event) {
    event.Receive? && Authenticated(tree.coordinator, event.request) ==>
      Allowed(tree, event.request.operation, event.request.pid)
  }

  /** All that clients never do; every other event, of requests in particular, is possible at any time. */
  lemma NeverDoneExactly(tree: Tree, event: Event)
    ensures var b := tree.book;
            !Disciplined(tree, event)
            <==> && event.Receive? && Authenticated(tree.coordinator, event.request)
                 && var (operation, pid) := (event.request.operation, event.request.pid);
                 && (operation.AcquireSlot? || operation.ResumeSlot? || operation.ReleaseSlot?
                     || operation.RegisterLaunch?)
                 && operation.token.Some?
                 && var t := operation.token.value;
                 && (operation.AcquireSlot? ==> t in b.origin)
                 && (operation.ResumeSlot? ==> t !in b.occupant || b.occupant[t] != pid)
                 && (operation.ReleaseSlot? ==> !Confirmed(tree.coordinator, b, t))
                 && (operation.RegisterLaunch? ==>
                       || !Confirmed(tree.coordinator, b, t) || t in b.released || t in b.occupant
                       || operation.child != Some(pid) || pid == tree.coordinator.rootProcess)
  {
    hide Confirmed;
  }

  function Noted(s: State, b: Book, operation: Operation, pid: Process): Book {
    match operation
    case AcquireSlot(Some(t), _) => b.(origin := b.origin[t := Origin(s.nextSocket, pid)])
    case ReleaseSlot(Some(t)) => b.(released := b.released + {t})
    case RegisterLaunch(Some(t), child) => if t in s.active then b.(occupant := b.occupant[t := pid]) else b
    case _ => b
  }

  function Step(tree: Tree, event: Event): Tree {
    var s := tree.coordinator;
    Tree(Apply(s, event),
         if event.Receive? && Authenticated(s, event.request)
         then Noted(s, tree.book, event.request.operation, event.request.pid)
         else tree.book)
  }

  /** A run in which every request is one a client may make. */
  ghost predicate Reaches(from: Tree, events: seq<Event>, to: Tree)
    decreases |events|
  {
    if events == [] then from == to
    else Disciplined(from, events[0]) && Reaches(Step(from, events[0]), events[1..], to)
  }

  // ---------------------------------------------------------------- the invariant

  /** The process that depends on the token: the registered child, or its launcher. */
  function User(b: Book, t: Token): Process
    requires t in b.origin
  {
    if t in b.occupant then b.occupant[t] else b.origin[t].owner
  }

  /** Tokens whose slot has been granted back to their child. */
  function ResumedTokens(grants: map<Socket, PendingGrant>): set<Token> {
    set x | x in grants && grants[x].resume :: grants[x].token
  }

  /** One of the processes that keep the token lives: its child or, until it gets the slot back, its launcher. */
  predicate Needed(s: State, b: Book, t: Token)
    requires t in b.origin
  {
    User(b, t) !in s.dead || (t !in ResumedTokens(s.grants) && b.origin[t].owner !in s.dead)
  }

  /** The slot of a token is alive as long as one of those processes is, and names the registered child. */
  predicate Covers(b: Book, resumed: set<Token>, t: Token, slot: Slot) {
    && t in b.origin
    && (t in b.occupant ==> slot.child == Some(b.occupant[t]))
    && (t !in b.occupant || t !in resumed ==> slot.owner == b.origin[t].owner)
  }

  ghost predicate SocketsApart(s: State) {
    && (forall x <- s.grants :: x < s.nextSocket)
    && (forall i | 0 <= i < |s.queue| :: s.queue[i].socket < s.nextSocket && s.queue[i].socket !in s.grants)
    && (forall i, j | 0 <= i < j < |s.queue| :: s.queue[i].socket != s.queue[j].socket)
  }

  predicate Legitimate(b: Book, q: Queued) {
    q.token.Some? ==>
      if q.resume then q.token.value in b.occupant && b.occupant[q.token.value] == q.pid
      else q.token.value in b.origin && b.origin[q.token.value] == Origin(q.socket, q.pid)
  }

  predicate GrantSound(b: Book, x: Socket, g: PendingGrant) {
    if g.resume then g.token in b.occupant && g.saved.Some? && Covers(b, {g.token}, g.token, g.saved.value)
    else g.token in b.origin && b.origin[g.token].socket == x
  }

  ghost predicate AllSound(s: State, b: Book) {
    && (forall t <- s.active :: Covers(b, ResumedTokens(s.grants), t, s.active[t]))
    && (forall t <- s.suspended :: Covers(b, ResumedTokens(s.grants), t, s.suspended[t]))
    && (forall x <- s.grants :: GrantSound(b, x, s.grants[x]))
    && (forall i | 0 <= i < |s.queue| :: Legitimate(b, s.queue[i]))
  }

  ghost predicate OccupantsConfirmed(s: State, b: Book) {
    && (forall t <- b.occupant :: Confirmed(s, b, t) && b.occupant[t] != s.rootProcess)
    && (forall t | t in s.active && t in s.suspended :: t in b.occupant)
    && (forall t <- b.origin :: b.origin[t].socket < s.nextSocket)
  }

  /** A token is in the maps only once its acquisition was granted. */
  ghost predicate SlotsGranted(s: State, b: Book) {
    forall t | t in s.active || t in s.suspended :: t in b.origin && b.origin[t].socket in s.grants
  }

  /** The coordinator answered the token's acquisition and the answer still stands. */
  predicate Entrusted(s: State, b: Book, lost: set<Socket>, t: Token) {
    && t in b.origin && t !in b.released && b.origin[t].socket in s.grants
    && var g := s.grants[b.origin[t].socket];
       g.token == t && !g.resume && (g.acknowledged || b.origin[t].socket !in s.destroyed + lost)
  }

  ghost predicate AllPresent(s: State, b: Book, lost: set<Socket>) {
    forall t | Entrusted(s, b, lost, t) && Needed(s, b, t) :: t in s.active || t in s.suspended
  }

  ghost predicate Custody(s: State, b: Book, lost: set<Socket>) {
    && SocketsApart(s) && AllSound(s, b) && OccupantsConfirmed(s, b) && SlotsGranted(s, b)
    && AllPresent(s, b, lost)
  }

  // ---------------------------------------------------------------- the queue

  lemma PruneCustody(s: State, b: Book, lost: set<Socket>)
    requires Custody(s, b, lost)
    ensures Custody(PruneDeadSlots(s), b, lost)
  {
    var pruned := PruneDeadSlots(s);
    forall t | Entrusted(pruned, b, lost, t) && Needed(s, b, t)
      ensures t in pruned.active || t in pruned.suspended
    {
      assert Entrusted(s, b, lost, t);
    }
  }

  lemma GrantResumes(grants: map<Socket, PendingGrant>, x: Socket, g: PendingGrant)
    requires x !in grants
    ensures ResumedTokens(grants[x := g]) == ResumedTokens(grants) + if g.resume then {g.token} else {}
  {
    var more := grants[x := g];
    forall t ensures t in ResumedTokens(more) <==> t in ResumedTokens(grants) || (g.resume && t == g.token) {
      if t in ResumedTokens(grants) {
        var y :| y in grants && grants[y].resume && grants[y].token == t;
        assert more[y] == grants[y];
      }
      if g.resume && t == g.token {
        assert more[x] == g;
      }
    }
  }

  lemma ConfirmResumes(grants: map<Socket, PendingGrant>, x: Socket)
    requires x in grants
    ensures ResumedTokens(grants[x := grants[x].(acknowledged := true)]) == ResumedTokens(grants)
  {
    var after := grants[x := grants[x].(acknowledged := true)];
    forall t ensures t in ResumedTokens(after) <==> t in ResumedTokens(grants) {
      if t in ResumedTokens(grants) {
        var y :| y in grants && grants[y].resume && grants[y].token == t;
        assert after[y].resume && after[y].token == t;
      }
    }
  }

  lemma GrantApart(s: State, q: Queued)
    requires SocketsApart(s) && q.socket < s.nextSocket && q.socket !in s.grants
    requires forall i | 0 <= i < |s.queue| :: s.queue[i].socket != q.socket
    ensures var r := GrantSlot(s, q.socket, q.pid, q.token, q.resume); r.Ok? ==> SocketsApart(r.value)
  {
  }

  /** Nobody occupies a token whose acquisition is still waiting. */
  lemma NotYetOccupied(s: State, b: Book, q: Queued)
    requires Legitimate(b, q) && OccupantsConfirmed(s, b) && q.socket !in s.grants && q.token.Some? && !q.resume
    ensures q.token.value !in b.occupant
  {
  }

  lemma GrantSoundly(s: State, b: Book, q: Queued)
    requires AllSound(s, b) && Legitimate(b, q) && OccupantsConfirmed(s, b) && q.socket !in s.grants
    ensures var r := GrantSlot(s, q.socket, q.pid, q.token, q.resume); r.Ok? ==> AllSound(r.value, b)
  {
    hide ResumedTokens, OccupantsConfirmed;
    var r := GrantSlot(s, q.socket, q.pid, q.token, q.resume);
    if r.Ok? {
      if !q.resume {
        NotYetOccupied(s, b, q);
      }
      GrantResumes(s.grants, q.socket, r.value.grants[q.socket]);
    }
  }

  lemma GrantConfirmed(s: State, b: Book, q: Queued)
    requires Legitimate(b, q) && OccupantsConfirmed(s, b) && SlotsGranted(s, b)
    requires q.socket !in s.grants
    ensures var r := GrantSlot(s, q.socket, q.pid, q.token, q.resume);
            r.Ok? ==> OccupantsConfirmed(r.value, b) && SlotsGranted(r.value, b)
  {
    var r := GrantSlot(s, q.socket, q.pid, q.token, q.resume);
    if r.Ok? {
      forall t <- b.occupant ensures Confirmed(r.value, b, t) {
        assert Confirmed(s, b, t);
      }
    }
  }

  lemma GrantPresent(s: State, b: Book, lost: set<Socket>, q: Queued)
    requires AllPresent(s, b, lost) && q.socket !in s.grants
    ensures var r := GrantSlot(s, q.socket, q.pid, q.token, q.resume);
            r.Ok? ==> AllPresent(r.value, b, lost)
  {
    var r := GrantSlot(s, q.socket, q.pid, q.token, q.resume);
    if r.Ok? {
      var t := q.token.value;
      GrantResumes(s.grants, q.socket, r.value.grants[q.socket]);
      hide ResumedTokens;
      forall u | Entrusted(r.value, b, lost, u) && Needed(r.value, b, u)
        ensures u in r.value.active || u in r.value.suspended
      {
        if u != t {
          assert Entrusted(s, b, lost, u);
        }
      }
    }
  }

  lemma GrantCustody(s: State, b: Book, lost: set<Socket>, q: Queued)
    requires Custody(s, b, lost) && Legitimate(b, q)
    requires q.socket < s.nextSocket && q.socket !in s.grants
    requires forall i | 0 <= i < |s.queue| :: s.queue[i].socket != q.socket
    ensures var r := GrantSlot(s, q.socket, q.pid, q.token, q.resume);
            r.Ok? ==> Custody(r.value, b, lost) && r.value.queue == s.queue && r.value.nextSocket == s.nextSocket
                      && r.value.maximum == s.maximum
  {
    GrantApart(s, q);
    GrantSoundly(s, b, q);
    GrantConfirmed(s, b, q);
    GrantPresent(s, b, lost, q);
    hide SocketsApart, AllSound, OccupantsConfirmed, SlotsGranted, AllPresent;
  }

  lemma RespondCustody(s: State, b: Book, lost: set<Socket>, socket: Socket, body: Body)
    requires Custody(s, b, lost)
    ensures Custody(Respond(s, socket, body), b, lost)
  {
    if socket !in s.destroyed {
      SameSlots(s, Respond(s, socket, body), b, lost);
    }
  }

  /** The invariant reads nothing but the slots, the grants, the queue, and who is alive. */
  lemma SameSlots(s: State, s': State, b: Book, lost: set<Socket>)
    requires Custody(s, b, lost)
    requires s'.active == s.active && s'.suspended == s.suspended && s'.grants == s.grants && s'.queue == s.queue
    requires s'.destroyed >= s.destroyed && s'.dead >= s.dead && s'.nextSocket >= s.nextSocket
    requires s'.rootProcess == s.rootProcess
    ensures Custody(s', b, lost)
  {
    forall t <- b.occupant ensures Confirmed(s', b, t) {
      assert Confirmed(s, b, t);
    }
    forall t | Entrusted(s', b, lost, t) && Needed(s', b, t) ensures t in s'.active || t in s'.suspended {
      assert Entrusted(s, b, lost, t);
    }
  }

  lemma PopCustody(s: State, b: Book, lost: set<Socket>)
    requires Custody(s, b, lost) && s.queue != []
    ensures var rest := s.(queue := s.queue[1..]);
            && Custody(rest, b, lost)
            && Legitimate(b, s.queue[0]) && s.queue[0].socket < s.nextSocket && s.queue[0].socket !in s.grants
            && (forall i | 0 <= i < |rest.queue| :: rest.queue[i].socket != s.queue[0].socket)
  {
    var rest := s.(queue := s.queue[1..]);
    assert forall i | 0 <= i < |rest.queue| :: rest.queue[i] == s.queue[i + 1];
    KeepQueue(s, b, lost, rest.queue);
  }

  /** Shortening the queue keeps the invariant. */
  lemma KeepQueue(s: State, b: Book, lost: set<Socket>, queue: seq<Queued>)
    requires Custody(s, b, lost)
    requires forall i | 0 <= i < |queue| :: queue[i] in s.queue
    requires forall i, j | 0 <= i < j < |queue| :: queue[i].socket != queue[j].socket
    ensures Custody(s.(queue := queue), b, lost)
  {
    var shorter := s.(queue := queue);
    forall i | 0 <= i < |queue|
      ensures queue[i].socket < s.nextSocket && queue[i].socket !in s.grants && Legitimate(b, queue[i])
    {
      assert queue[i] in s.queue;
      var k :| 0 <= k < |s.queue| && s.queue[k] == queue[i];
    }
    forall t <- b.occupant ensures Confirmed(shorter, b, t) {
      assert Confirmed(s, b, t);
    }
    forall t | Entrusted(shorter, b, lost, t) && Needed(s, b, t) ensures t in s.active || t in s.suspended {
      assert Entrusted(s, b, lost, t);
    }
  }

  lemma {:induction false} DrainLoopCustody(s: State, b: Book, lost: set<Socket>)
    requires s.maximum.Some? && Custody(s, b, lost)
    ensures Custody(DrainLoop(s), b, lost)
    decreases |s.queue|
  {
    hide Custody, GrantSlot;
    if |s.active| < s.maximum.value && s.queue != [] {
      var head := s.queue[0];
      var rest := s.(queue := s.queue[1..]);
      PopCustody(s, b, lost);
      GrantCustody(rest, b, lost, head);
      if head.socket in rest.destroyed {
        DrainLoopCustody(rest, b, lost);
      } else {
        match GrantSlot(rest, head.socket, head.pid, head.token, head.resume)
        case Ok(granted) => DrainLoopCustody(granted, b, lost);
        case Err(code) =>
          RespondCustody(rest, b, lost, head.socket, Failed(code));
          DrainLoopCustody(Respond(rest, head.socket, Failed(code)), b, lost);
      }
    }
  }

  lemma DrainCustody(s: State, b: Book, lost: set<Socket>)
    requires Custody(s, b, lost)
    ensures Custody(DrainQueue(s), b, lost)
  {
    hide Custody, PruneDeadSlots;
    PruneCustody(s, b, lost);
    if s.status.Active? && s.maximum.Some? {
      assert PruneDeadSlots(s).maximum == s.maximum by { PruneKeepsMaximum(s); }
      DrainLoopCustody(PruneDeadSlots(s), b, lost);
    }
  }

  lemma PruneKeepsMaximum(s: State)
    ensures PruneDeadSlots(s).maximum == s.maximum
  {
  }

  // ---------------------------------------------------------------- rollback

  lemma UndoneConfirmed(s: State, b: Book, x: Socket)
    requires OccupantsConfirmed(s, b) && SlotsGranted(s, b)
    requires x in s.grants && !s.grants[x].acknowledged && GrantSound(b, x, s.grants[x])
    ensures var after := Undone(s, s.grants[x]);
            OccupantsConfirmed(after, b) && SlotsGranted(after, b)
  {
    var after := Undone(s, s.grants[x]);
    forall t <- b.occupant ensures Confirmed(after, b, t) {
      assert Confirmed(s, b, t);
    }
  }

  lemma UndoneSoundly(s: State, b: Book, x: Socket)
    requires SocketsApart(s) && AllSound(s, b)
    requires x in s.grants && !s.grants[x].acknowledged
    ensures var after := Undone(s, s.grants[x]);
            SocketsApart(after) && AllSound(after, b)
  {
    assert GrantSound(b, x, s.grants[x]);
  }

  lemma UndoneCustody(s: State, b: Book, lost: set<Socket>, x: Socket)
    requires Custody(s, b, lost) && x in s.grants && !s.grants[x].acknowledged
    ensures Custody(Undone(s, s.grants[x]), b, lost + {x})
  {
    var g := s.grants[x];
    var after := Undone(s, g);
    assert GrantSound(b, x, g);
    UndoneConfirmed(s, b, x);
    UndoneSoundly(s, b, x);
    hide SocketsApart, AllSound, OccupantsConfirmed, SlotsGranted;
    forall t | Entrusted(after, b, lost + {x}, t) && Needed(s, b, t)
      ensures t in after.active || t in after.suspended
    {
      assert Entrusted(s, b, lost, t);
    }
  }

  lemma RollbackCustody(s: State, b: Book, lost: set<Socket>, x: Socket)
    requires Custody(s, b, lost)
    ensures Custody(Rollback(s, x), b, lost + {x})
  {
    hide DrainQueue;
    if x in s.grants && !s.grants[x].acknowledged {
      UndoneCustody(s, b, lost, x);
      DrainCustody(Undone(s, s.grants[x]), b, lost + {x});
    } else {
      LoseCustody(s, b, lost, x);
    }
  }

  lemma LoseCustody(s: State, b: Book, lost: set<Socket>, x: Socket)
    requires Custody(s, b, lost)
    ensures Custody(s, b, lost + {x})
  {
    forall t | Entrusted(s, b, lost + {x}, t) && Needed(s, b, t) ensures t in s.active || t in s.suspended {
      assert Entrusted(s, b, lost, t);
    }
  }

  lemma DestroyCustody(s: State, b: Book, x: Socket)
    requires Custody(s, b, {x})
    ensures Custody(Destroy(s, x), b, {})
  {
    var after := Destroy(s, x);
    forall t <- b.occupant ensures Confirmed(after, b, t) {
      assert Confirmed(s, b, t);
    }
    forall t | Entrusted(after, b, {}, t) && Needed(s, b, t) ensures t in s.active || t in s.suspended {
      assert Entrusted(s, b, {x}, t);
    }
  }

  lemma RollbackThenDestroy(s: State, b: Book, x: Socket)
    requires Custody(s, b, {})
    ensures Custody(Destroy(Rollback(s, x), x), b, {})
  {
    hide Custody, Rollback;
    RollbackCustody(s, b, {}, x);
    assert {} + {x} == {x};
    DestroyCustody(Rollback(s, x), b, x);
  }

  lemma ConfirmCustody(s: State, b: Book, x: Socket)
    requires Custody(s, b, {}) && x in s.grants && x !in s.destroyed
    ensures Custody(s.(grants := s.grants[x := s.grants[x].(acknowledged := true)]), b, {})
  {
    var after := s.(grants := s.grants[x := s.grants[x].(acknowledged := true)]);
    ConfirmResumes(s.grants, x);
    hide ResumedTokens;
    assert GrantSound(b, x, s.grants[x]);
    forall t <- b.occupant ensures Confirmed(after, b, t) {
      assert Confirmed(s, b, t);
    }
    forall t | Entrusted(after, b, {}, t) && Needed(after, b, t) ensures t in s.active || t in s.suspended {
      assert Entrusted(s, b, {}, t);
    }
  }

  lemma CloseCustody(s: State, b: Book, x: Socket)
    requires Custody(s, b, {})
    ensures Custody(CloseSocket(s, x), b, {})
  {
    hide Custody, Rollback, WithoutSocket;
    var destroyed := Destroy(s, x);
    SameSlots(s, destroyed, b, {});
    WithoutSubset(s.queue, x);
    ShortenCustody(destroyed, b, x);
    var closed := RemoveQueuedSocket(destroyed, x);
    RollbackCustody(closed, b, {}, x);
    assert {} + {x} == {x};
    RollbackKeepsDestroyed(closed, x);
    DestroyCustody(Rollback(closed, x), b, x);
    assert Destroy(Rollback(closed, x), x) == Rollback(closed, x);
  }

  lemma ShortenCustody(s: State, b: Book, x: Socket)
    requires Custody(s, b, {})
    ensures Custody(RemoveQueuedSocket(s, x), b, {})
  {
    WithoutSubset(s.queue, x);
    KeepQueue(s, b, {}, WithoutSocket(s.queue, x));
  }

  ghost predicate DistinctSockets(queue: seq<Queued>) {
    forall i, j | 0 <= i < j < |queue| :: queue[i].socket != queue[j].socket
  }

  lemma {:induction false} WithoutSubset(queue: seq<Queued>, x: Socket)
    ensures forall q <- WithoutSocket(queue, x) :: q in queue
    ensures DistinctSockets(queue) ==> DistinctSockets(WithoutSocket(queue, x))
  {
    if queue != [] {
      WithoutSubset(queue[1..], x);
      var kept := WithoutSocket(queue[1..], x);
      if DistinctSockets(queue) {
        assert forall i | 0 <= i < |queue[1..]| :: queue[1..][i] == queue[i + 1];
        assert DistinctSockets(kept);
        forall i | 0 <= i < |kept| ensures queue[0].socket != kept[i].socket {
          assert kept[i] in queue[1..];
        }
      }
    }
  }

  lemma {:induction false} DrainLoopKeepsDestroyed(s: State)
    requires s.maximum.Some?
    ensures DrainLoop(s).destroyed == s.destroyed
    decreases |s.queue|
  {
    if |s.active| < s.maximum.value && s.queue != [] {
      var head := s.queue[0];
      var rest := s.(queue := s.queue[1..]);
      if head.socket in rest.destroyed {
        DrainLoopKeepsDestroyed(rest);
      } else {
        match GrantSlot(rest, head.socket, head.pid, head.token, head.resume)
        case Ok(granted) => DrainLoopKeepsDestroyed(granted);
        case Err(code) => DrainLoopKeepsDestroyed(Respond(rest, head.socket, Failed(code)));
      }
    }
  }

  lemma RollbackKeepsDestroyed(s: State, x: Socket)
    ensures Rollback(s, x).destroyed == s.destroyed
  {
    hide DrainLoop;
    if x in s.grants && !s.grants[x].acknowledged {
      var undone := Undone(s, s.grants[x]);
      if undone.status.Active? && undone.maximum.Some? {
        DrainLoopKeepsDestroyed(PruneDeadSlots(undone));
      }
    }
  }

  // ---------------------------------------------------------------- requests

  lemma AdmitCustody(s: State, b: Book, q: Queued, maximum: int)
    requires Custody(s, b, {}) && Legitimate(b, q)
    requires q.socket < s.nextSocket && q.socket !in s.grants
    requires forall i | 0 <= i < |s.queue| :: s.queue[i].socket != q.socket
    ensures Custody(Admit(s, q.socket, q.pid, q.token, maximum, q.resume), b, {})
  {
    hide Custody, GrantSlot, PruneDeadSlots;
    var (bound, accepted) := BindMaximum(s, maximum);
    SameSlots(s, bound, b, {});
    if !accepted {
      RespondCustody(bound, b, {}, q.socket, Failed(1));
    } else {
      PruneCustody(bound, b, {});
      var pruned := PruneDeadSlots(bound);
      PruneKeepsQueue(bound);
      GrantCustody(pruned, b, {}, q);
      EnqueueCustody(pruned, b, q);
      match GrantSlot(pruned, q.socket, q.pid, q.token, q.resume)
      case Ok(granted) =>
      case Err(code) => RespondCustody(pruned, b, {}, q.socket, Failed(code));
    }
  }

  lemma PruneKeepsQueue(s: State)
    ensures var p := PruneDeadSlots(s);
            p.queue == s.queue && p.grants == s.grants && p.nextSocket == s.nextSocket
  {
  }

  lemma EnqueueCustody(s: State, b: Book, q: Queued)
    requires Custody(s, b, {}) && Legitimate(b, q)
    requires q.socket < s.nextSocket && q.socket !in s.grants
    requires forall i | 0 <= i < |s.queue| :: s.queue[i].socket != q.socket
    ensures Custody(s.(queue := s.queue + [q]), b, {})
  {
    var longer := s.(queue := s.queue + [q]);
    forall t <- b.occupant ensures Confirmed(longer, b, t) {
      assert Confirmed(s, b, t);
    }
    forall t | Entrusted(longer, b, {}, t) && Needed(s, b, t) ensures t in s.active || t in s.suspended {
      assert Entrusted(s, b, {}, t);
    }
  }

  lemma FreeSoundly(s: State, b: Book, t: Token)
    requires Custody(s, b, {})
    ensures AllSound(s.(active := s.active - {t}, suspended := s.suspended - {t}), b.(released := b.released + {t}))
  {
    var noted := b.(released := b.released + {t});
    forall u <- s.active ensures Covers(noted, ResumedTokens(s.grants), u, s.active[u]) {
      assert Covers(b, ResumedTokens(s.grants), u, s.active[u]);
    }
    forall u <- s.suspended ensures Covers(noted, ResumedTokens(s.grants), u, s.suspended[u]) {
      assert Covers(b, ResumedTokens(s.grants), u, s.suspended[u]);
    }
    forall x <- s.grants ensures GrantSound(noted, x, s.grants[x]) {
      assert GrantSound(b, x, s.grants[x]);
    }
    forall i | 0 <= i < |s.queue| ensures Legitimate(noted, s.queue[i]) {
      assert Legitimate(b, s.queue[i]);
    }
  }

  lemma FreeCustody(s: State, b: Book, t: Token)
    requires Custody(s, b, {})
    ensures Custody(s.(active := s.active - {t}, suspended := s.suspended - {t}), b.(released := b.released + {t}), {})
  {
    var after := s.(active := s.active - {t}, suspended := s.suspended - {t});
    var noted := b.(released := b.released + {t});
    FreeSoundly(s, b, t);
    hide AllSound;
    forall u <- noted.occupant ensures Confirmed(after, noted, u) {
      assert Confirmed(s, b, u);
    }
    forall u | Entrusted(after, noted, {}, u) && Needed(s, noted, u)
      ensures u in after.active || u in after.suspended
    {
      assert Entrusted(s, b, {}, u);
    }
  }

  lemma ReleaseCustody(s: State, b: Book, socket: Socket, t: Token)
    requires Custody(s, b, {})
    ensures Custody(Release(s, socket, Some(t)), b.(released := b.released + {t}), {})
  {
    hide Custody, DrainQueue;
    var after := s.(active := s.active - {t}, suspended := s.suspended - {t});
    var noted := b.(released := b.released + {t});
    FreeCustody(s, b, t);
    RespondCustody(after, noted, {}, socket, Done);
    DrainCustody(Respond(after, socket, Done), noted, {});
  }

  lemma YieldCustody(s: State, b: Book, t: Token)
    requires Custody(s, b, {}) && t in s.active
    ensures Custody(s.(active := s.active - {t}, suspended := s.suspended[t := s.active[t]]), b, {})
  {
    var after := s.(active := s.active - {t}, suspended := s.suspended[t := s.active[t]]);
    assert Covers(b, ResumedTokens(s.grants), t, s.active[t]);
    forall u <- b.occupant ensures Confirmed(after, b, u) {
      assert Confirmed(s, b, u);
    }
    forall u | Entrusted(after, b, {}, u) && Needed(s, b, u) ensures u in after.active || u in after.suspended {
      assert Entrusted(s, b, {}, u);
    }
  }

  lemma SuspendCustody(s: State, b: Book, socket: Socket, pid: Process, token: Option<Token>)
    requires Custody(s, b, {})
    ensures Custody(Suspend(s, socket, pid, token), b, {})
  {
    hide Custody, DrainQueue;
    RespondCustody(s, b, {}, socket, Failed(1));
    if token.Some? && token.value in s.active {
      var t := token.value;
      var yielded := s.(active := s.active - {t}, suspended := s.suspended[t := s.active[t]]);
      YieldCustody(s, b, t);
      RespondCustody(yielded, b, {}, socket, Done);
      DrainCustody(Respond(yielded, socket, Done), b, {});
    }
  }

  lemma OccupySoundly(s: State, b: Book, t: Token, pid: Process)
    requires Custody(s, b, {}) && t in s.active && t !in b.occupant
    ensures AllSound(s.(active := s.active[t := s.active[t].(child := Some(pid))]),
                     b.(occupant := b.occupant[t := pid]))
  {
    var after := s.(active := s.active[t := s.active[t].(child := Some(pid))]);
    var noted := b.(occupant := b.occupant[t := pid]);
    forall u <- after.suspended ensures Covers(noted, ResumedTokens(after.grants), u, after.suspended[u]) {
      assert Covers(b, ResumedTokens(s.grants), u, s.suspended[u]) && u != t;
    }
    forall u <- after.active ensures Covers(noted, ResumedTokens(after.grants), u, after.active[u]) {
      assert Covers(b, ResumedTokens(s.grants), u, s.active[u]);
    }
    forall x <- after.grants ensures GrantSound(noted, x, after.grants[x]) {
      assert GrantSound(b, x, s.grants[x]);
    }
    forall i | 0 <= i < |after.queue| ensures Legitimate(noted, after.queue[i]) {
      assert Legitimate(b, s.queue[i]);
    }
  }

  lemma OccupyCustody(s: State, b: Book, t: Token, pid: Process)
    requires Custody(s, b, {}) && t in s.active && t !in b.occupant
    requires Confirmed(s, b, t) && pid != s.rootProcess
    ensures Custody(s.(active := s.active[t := s.active[t].(child := Some(pid))]),
                    b.(occupant := b.occupant[t := pid]), {})
  {
    var after := s.(active := s.active[t := s.active[t].(child := Some(pid))]);
    var noted := b.(occupant := b.occupant[t := pid]);
    OccupySoundly(s, b, t, pid);
    forall u <- noted.occupant ensures Confirmed(after, noted, u) {
      assert Confirmed(s, b, u);
    }
    forall u | Entrusted(after, noted, {}, u) && Needed(s, noted, u)
      ensures u in after.active || u in after.suspended
    {
      assert u != t ==> Entrusted(s, b, {}, u);
    }
  }

  lemma RequestCustody(s: State, b: Book, t: Token, pid: Process)
    requires Custody(s, b, {}) && t !in b.origin
    ensures Custody(s.(nextSocket := s.nextSocket + 1), b.(origin := b.origin[t := Origin(s.nextSocket, pid)]), {})
  {
    var after := s.(nextSocket := s.nextSocket + 1);
    var noted := b.(origin := b.origin[t := Origin(s.nextSocket, pid)]);
    forall u <- noted.occupant ensures Confirmed(after, noted, u) {
      assert Confirmed(s, b, u);
    }
    forall u <- s.active ensures Covers(noted, ResumedTokens(s.grants), u, s.active[u]) {
      assert Covers(b, ResumedTokens(s.grants), u, s.active[u]);
    }
    forall u <- s.suspended ensures Covers(noted, ResumedTokens(s.grants), u, s.suspended[u]) {
      assert Covers(b, ResumedTokens(s.grants), u, s.suspended[u]);
    }
    forall x <- s.grants ensures GrantSound(noted, x, s.grants[x]) {
      assert GrantSound(b, x, s.grants[x]);
    }
    forall i | 0 <= i < |s.queue| ensures Legitimate(noted, s.queue[i]) {
      assert Legitimate(b, s.queue[i]);
    }
    forall u | Entrusted(after, noted, {}, u) && Needed(s, noted, u)
      ensures u in after.active || u in after.suspended
    {
      assert Entrusted(s, b, {}, u);
    }
  }

  lemma AcquireTokenCustody(s: State, b: Book, pid: Process, t: Token, maximum: int)
    requires Custody(s, b, {}) && t !in b.origin
    ensures Custody(Admit(s.(nextSocket := s.nextSocket + 1), s.nextSocket, pid, Some(t), maximum, false),
                    b.(origin := b.origin[t := Origin(s.nextSocket, pid)]), {})
  {
    hide Custody, Admit;
    FreshSocket(s, b);
    RequestCustody(s, b, t, pid);
    var noted := b.(origin := b.origin[t := Origin(s.nextSocket, pid)]);
    AdmitCustody(s.(nextSocket := s.nextSocket + 1), noted, Queued(s.nextSocket, pid, Some(t), false), maximum);
  }

  lemma PerformCustody(tree: Tree, pid: Process, operation: Operation)
    requires Custody(tree.coordinator, tree.book, {}) && Allowed(tree, operation, pid)
    requires pid !in tree.coordinator.dead
    ensures var s := tree.coordinator;
            Custody(Perform(s.(nextSocket := s.nextSocket + 1), s.nextSocket, pid, operation),
                    Noted(s, tree.book, operation, pid), {})
  {
    hide Custody, Admit, Release, Suspend, Register, NumberCall, Confirmed, Respond;
    var (s, b) := (tree.coordinator, tree.book);
    var socket := s.nextSocket;
    var next := s.(nextSocket := socket + 1);
    SameSlots(s, next, b, {});
    FreshSocket(s, b);
    match operation
    case AcquireSlot(token, maximum) =>
      if token.Some? {
        AcquireTokenCustody(s, b, pid, token.value, maximum);
      } else {
        AdmitCustody(next, b, Queued(socket, pid, None, false), maximum);
      }
    case ResumeSlot(token, maximum) => AdmitCustody(next, b, Queued(socket, pid, token, true), maximum);
    case ReleaseSlot(token) =>
      if token.Some? {
        ReleaseCustody(next, b, socket, token.value);
      } else {
        ReleaseNothing(next, b, socket);
      }
    case SuspendSlot(token) => SuspendCustody(next, b, socket, pid, token);
    case RegisterLaunch(token, child) => RegisterCustody(tree, pid, token, child);
    case _ => AnswerCustody(next, b, socket, pid, operation);
  }

  lemma FreshSocket(s: State, b: Book)
    requires Custody(s, b, {})
    ensures s.nextSocket !in s.grants && forall i | 0 <= i < |s.queue| :: s.queue[i].socket != s.nextSocket
  {
  }

  lemma ReleaseNothing(s: State, b: Book, socket: Socket)
    requires Custody(s, b, {})
    ensures Custody(Release(s, socket, None), b, {})
  {
    RespondCustody(s, b, {}, socket, Failed(1));
  }

  lemma AnswerCustody(s: State, b: Book, socket: Socket, pid: Process, operation: Operation)
    requires Custody(s, b, {})
    requires operation.Check? || operation.AllocateCall? || operation.UnknownOperation?
    ensures Custody(Perform(s, socket, pid, operation), b, {})
  {
    hide Custody, Allocate, Admit, Release, Suspend, Register;
    SameSlots(s, Perform(s, socket, pid, operation), b, {});
  }

  lemma RegisteredCustody(s: State, b: Book, socket: Socket, t: Token, pid: Process)
    requires Custody(s, b, {}) && t in s.active && Confirmed(s, b, t) && pid !in s.dead && pid != s.rootProcess
    requires t !in b.occupant
    ensures Custody(Register(s, socket, Some(t), Some(pid)), b.(occupant := b.occupant[t := pid]), {})
  {
    hide Custody;
    OccupyCustody(s, b, t, pid);
    RespondCustody(s.(active := s.active[t := s.active[t].(child := Some(pid))]),
                   b.(occupant := b.occupant[t := pid]), {}, socket, Done);
  }

  lemma RefusedCustody(s: State, b: Book, socket: Socket, token: Option<Token>, child: Option<Process>)
    requires Custody(s, b, {}) && (token.None? || token.value !in s.active)
    ensures Custody(Register(s, socket, token, child), b, {})
  {
    hide Custody;
    RespondCustody(s, b, {}, socket, Failed(1));
    RespondCustody(s, b, {}, socket, Failed(130));
  }

  lemma RegisterCustody(tree: Tree, pid: Process, token: Option<Token>, child: Option<Process>)
    requires Custody(tree.coordinator, tree.book, {}) && Allowed(tree, RegisterLaunch(token, child), pid)
    requires pid !in tree.coordinator.dead
    ensures var s := tree.coordinator;
            Custody(Register(s.(nextSocket := s.nextSocket + 1), s.nextSocket, token, child),
                    Noted(s, tree.book, RegisterLaunch(token, child), pid), {})
  {
    hide Custody, Register, Confirmed;
    var (s, b) := (tree.coordinator, tree.book);
    var next := s.(nextSocket := s.nextSocket + 1);
    NextSocketCustody(s, b);
    if token.Some? && token.value in s.active {
      StillConfirmed(s, next, b, token.value);
      RegisteredCustody(next, b, s.nextSocket, token.value, pid);
    } else {
      RefusedCustody(next, b, s.nextSocket, token, child);
    }
  }

  lemma NextSocketCustody(s: State, b: Book)
    requires Custody(s, b, {})
    ensures Custody(s.(nextSocket := s.nextSocket + 1), b, {})
  {
    SameSlots(s, s.(nextSocket := s.nextSocket + 1), b, {});
  }

  lemma StillConfirmed(s: State, s': State, b: Book, t: Token)
    requires Confirmed(s, b, t) && s'.grants == s.grants
    ensures Confirmed(s', b, t)
  {
  }

  lemma {:induction false} RefuseAllCustody(s: State, b: Book)
    requires Custody(s, b, {})
    ensures Custody(RefuseAll(s), b, {})
    decreases |s.queue|
  {
    hide Custody;
    if s.queue != [] {
      PopCustody(s, b, {});
      var rest := s.(queue := s.queue[1..]);
      RespondCustody(rest, b, {}, s.queue[0].socket, Failed(130));
      RefuseAllCustody(Respond(rest, s.queue[0].socket, Failed(130)), b);
    }
  }

  lemma StatusCustody(s: State, b: Book, status: Status)
    requires Custody(s, b, {})
    ensures Custody(s.(status := status), b, {})
  {
    SameSlots(s, s.(status := status), b, {});
  }

  lemma StepCustody(tree: Tree, event: Event)
    requires Custody(tree.coordinator, tree.book, {}) && Disciplined(tree, event)
    ensures var next := Step(tree, event);
            Custody(next.coordinator, next.book, {})
  {
    var (s, b) := (tree.coordinator, tree.book);
    hide Custody, Perform, Rollback, RefuseAll, WithoutSocket, CloseSocket, Allowed;
    match event
    case Receive(request) =>
      if Authenticated(s, request) {
        PerformCustody(tree, request.pid, request.operation);
      } else {
        SameSlots(s, s.(nextSocket := s.nextSocket + 1), b, {});
        var code := if request.form.Malformed? then 1 else 130;
        RespondCustody(s.(nextSocket := s.nextSocket + 1), b, {}, s.nextSocket, Failed(code));
      }
    case Acknowledge(socket, valid) =>
      RollbackThenDestroy(s, b, socket);
      if socket in s.grants && socket !in s.destroyed {
        ConfirmCustody(s, b, socket);
        RespondCustody(s.(grants := s.grants[socket := s.grants[socket].(acknowledged := true)]), b, {}, socket,
                       TreeCoordinator.Confirmed);
      }
    case AckTimeout(socket) => RollbackThenDestroy(s, b, socket);
    case Close(socket) => CloseCustody(s, b, socket);
    case SocketError(socket) => ShortenCustody(s, b, socket);
    case Die(process) => SameSlots(s, s.(dead := s.dead + {process}), b, {});
    case StartupSucceeded => StatusCustody(s, b, Active);
    case StartupFailed => StatusCustody(s, b, Terminal);
    case _ =>
      StatusCustody(s, b, Terminal);
      RefuseAllCustody(s.(status := Terminal), b);
  }

  // ---------------------------------------------------------------- the results

  ghost predicate Kept(tree: Tree) {
    Custody(tree.coordinator, tree.book, {})
  }

  lemma {:induction false} CustodyHolds(from: Tree, events: seq<Event>, to: Tree)
    requires Kept(from) && Reaches(from, events, to)
    ensures Kept(to)
    decreases |events|
  {
    if events != [] {
      StepCustody(from, events[0]);
      CustodyHolds(Step(from, events[0]), events[1..], to);
    }
  }

  lemma FreshTreeKept(s: State)
    requires s.active == map[] && s.suspended == map[] && s.queue == [] && s.grants == map[]
    ensures Kept(Tree(s, Book(map[], map[], {})))
  {
  }

  /**
   * Slot conservation.  A confirmed token that has not been released is active or suspended in
   * every state of every run as long as one of its slot's processes lives: the child, or, until
   * the child is granted the slot back, the launcher.
   */
  lemma SlotConservation(s: State, events: seq<Event>, to: Tree, t: Token)
    requires s.active == map[] && s.suspended == map[] && s.queue == [] && s.grants == map[]
    requires Reaches(Tree(s, Book(map[], map[], {})), events, to)
    requires Confirmed(to.coordinator, to.book, t) && t !in to.book.released
    requires Needed(to.coordinator, to.book, t)
    ensures t in to.coordinator.active || t in to.coordinator.suspended
  {
    FreshTreeKept(s);
    CustodyHolds(Tree(s, Book(map[], map[], {})), events, to);
    assert Entrusted(to.coordinator, to.book, {}, t);
  }

  lemma {:induction false} RefuseAllKeepsSlots(s: State)
    ensures var r := RefuseAll(s);
            r.active == s.active && r.suspended == s.suspended && r.dead == s.dead && r.rootProcess == s.rootProcess
    decreases |s.queue|
  {
    if s.queue != [] {
      RefuseAllKeepsSlots(Respond(s.(queue := s.queue[1..]), s.queue[0].socket, Failed(130)));
    }
  }

  /**
   * What one attempt to terminate the tree signals.  A live child that passed its launch gate, and
   * whose token was not released, is signalled if and only if the tree is not terminal yet and
   * the terminal manifest can be written; otherwise nothing at all is signalled.
   */
  lemma CancellationCoversLaunches(s: State, events: seq<Event>, to: Tree, t: Token, manifestWritten: bool)
    requires s.active == map[] && s.suspended == map[] && s.queue == [] && s.grants == map[]
    requires Reaches(Tree(s, Book(map[], map[], {})), events, to)
    requires t in to.book.occupant && t !in to.book.released
    requires to.book.occupant[t] !in to.coordinator.dead
    ensures to.book.occupant[t] in MarkTerminal(to.coordinator, manifestWritten).1
            <==> manifestWritten && !to.coordinator.status.Terminal?
  {
    FreshTreeKept(s);
    CustodyHolds(Tree(s, Book(map[], map[], {})), events, to);
    LaunchedIsSignalled(to, t, manifestWritten);
  }

  lemma LaunchedIsSignalled(to: Tree, t: Token, manifestWritten: bool)
    requires Kept(to) && t in to.book.occupant && t !in to.book.released
    requires to.book.occupant[t] !in to.coordinator.dead
    ensures to.book.occupant[t] in MarkTerminal(to.coordinator, manifestWritten).1
            <==> manifestWritten && !to.coordinator.status.Terminal?
  {
    var (c, b) := (to.coordinator, to.book);
    assert Confirmed(c, b, t);
    assert Entrusted(c, b, {}, t);
    RefuseAllKeepsSlots(c.(status := Terminal));
    if t in c.active {
      assert Covers(b, ResumedTokens(c.grants), t, c.active[t]);
      assert c.active[t] in c.active.Values;
    } else {
      assert Covers(b, ResumedTokens(c.grants), t, c.suspended[t]);
      assert c.suspended[t] in c.suspended.Values;
    }
  }
}
