/**
 * Call numbers over any sequence of allocation requests (tree-coordinator.ts, allocateCall).
 * Between requests the counter file may hold anything: each request says what it finds.
 */
module CallNumbers {
  import opened Wrappers
  import opened TreeCoordinator

  datatype Ask = Ask(limit: int, seed: int, file: Option<Path>, disk: map<Path, int>, projection: Projection)

  function Answer(l: Ledger, ask: Ask): Allocation {
    Allocate(l, ask.disk, ask.limit, ask.seed, ask.file, ask.projection)
  }

  function LedgerAfter(l: Ledger, asks: seq<Ask>): Ledger
    decreases |asks|
  {
    if asks == [] then l else Answer(LedgerAfter(l, asks[..|asks| - 1]), asks[|asks| - 1]).ledger
  }

  /** The call numbers handed out, in order; a refused request hands out none. */
  function Issued(l: Ledger, asks: seq<Ask>): seq<int>
    decreases |asks|
  {
    if asks == [] then []
    else
      var earlier := Issued(l, asks[..|asks| - 1]);
      var number := Answer(LedgerAfter(l, asks[..|asks| - 1]), asks[|asks| - 1]).number;
      if number.Some? then earlier + [number.value] else earlier
  }

  /** What one request does to the count: it numbers the next call within the limit, or nothing moves. */
  lemma AnswerMovesByOne(l: Ledger, ask: Ask)
    ensures var r := Answer(l, ask);
            && (r.number.Some? ==>
                  && r.ledger.maxCalls == Some(ask.limit) && r.ledger.callCount == r.number.value <= ask.limit
                  && ask.file.Some? && ask.file.value in r.disk && r.disk[ask.file.value] == r.number.value)
            && (l.maxCalls.Some? ==>
                  && r.ledger.maxCalls == l.maxCalls
                  && r.ledger.callCount == l.callCount + if r.number.Some? then 1 else 0)
            && (l.maxCalls.None? && r.ledger.maxCalls.Some? ==>
                  && r.ledger.maxCalls == Some(ask.limit)
                  && r.ledger.callCount == ask.seed + if r.number.Some? then 1 else 0)
  {
  }

  /** A request whose counter file cannot be replaced consumes no number. */
  lemma FailedProjectionConsumesNothing(l: Ledger, ask: Ask)
    requires !ask.projection.writable
    ensures Answer(l, ask).number.None?
    ensures l.maxCalls.Some? ==> Answer(l, ask).ledger.callCount == l.callCount
  {
  }

  ghost predicate SetUpBy(asks: seq<Ask>, limit: int, base: int) {
    exists i | 0 <= i < |asks| :: asks[i].limit == limit && asks[i].seed == base
  }

  /**
   * The numbers issued are consecutive and never pass the limit; they start after the count
   * the ledger already had, or after the seed of the request that set the limit.
   */
  lemma {:induction false} NumbersAreConsecutive(l: Ledger, asks: seq<Ask>)
    ensures var (issued, after) := (Issued(l, asks), LedgerAfter(l, asks));
            && (forall i | 0 <= i < |issued| :: issued[i] == after.callCount - |issued| + 1 + i)
            && (issued != [] ==> after.maxCalls.Some? && after.callCount <= after.maxCalls.value)
            && (l.maxCalls.Some? ==> after.maxCalls == l.maxCalls && after.callCount == l.callCount + |issued|)
            && (l.maxCalls.None? && after.maxCalls.Some? ==>
                  SetUpBy(asks, after.maxCalls.value, after.callCount - |issued|))
    decreases |asks|
  {
    hide Allocate;
    if asks != [] {
      var (before, last) := (asks[..|asks| - 1], asks[|asks| - 1]);
      NumbersAreConsecutive(l, before);
      var middle := LedgerAfter(l, before);
      AnswerMovesByOne(middle, last);
      var after := LedgerAfter(l, asks);
      if l.maxCalls.None? && middle.maxCalls.Some? {
        var i :| 0 <= i < |before| && before[i].limit == middle.maxCalls.value
                 && before[i].seed == middle.callCount - |Issued(l, before)|;
        assert asks[i] == before[i];
      }
    }
  }

  /** Each number is issued once. */
  lemma NumbersAreDistinct(l: Ledger, asks: seq<Ask>, i: nat, j: nat)
    requires i < j < |Issued(l, asks)|
    ensures Issued(l, asks)[i] < Issued(l, asks)[j]
  {
    NumbersAreConsecutive(l, asks);
  }

  // ---------------------------------------------------------------- when a request is numbered

  predicate ProperAsk(ask: Ask) {
    && 0 <= ask.limit <= MAX_SAFE_INTEGER && 0 <= ask.seed <= MAX_SAFE_INTEGER && ask.file.Some?
  }

  /** The count a request starts from: the tree's, or the request's own seed when it is the first. */
  function Base(l: Ledger, ask: Ask): int {
    if l.maxCalls.Some? then l.callCount else ask.seed
  }

  /** The request agrees with what is bound already; the first one finds no other root's counter. */
  predicate Agrees(l: Ledger, ask: Ask)
    requires ask.file.Some?
  {
    && (l.maxCalls.Some? ==> l.maxCalls == Some(ask.limit) && l.counterFile == ask.file)
    && (l.counterFile.Some? ==> l.counterFile == ask.file)
  }

  /** The counter file holds what the tree last wrote; before it wrote any, nothing or the seed. */
  predicate CounterInPlace(l: Ledger, ask: Ask)
    requires ask.file.Some?
  {
    var file := ask.file.value;
    if l.counterRaw.Some? then file in ask.disk && ask.disk[file] == l.counterRaw.value
    else if l.maxCalls.Some? then file !in ask.disk
    else file in ask.disk ==> ask.disk[file] == ask.seed
  }

  /**
   * A request is numbered if and only if it is proper, agrees with what is bound, the count is
   * still below its limit and the counter file is in place and can be replaced.  Its number is
   * the next one, which the ledger and the file then hold.
   */
  lemma NumberedExactly(l: Ledger, ask: Ask)
    ensures var r := Answer(l, ask);
            && (r.number.Some? <==>
                  && ProperAsk(ask) && Agrees(l, ask) && Base(l, ask) < ask.limit
                  && CounterInPlace(l, ask) && ask.projection.writable)
            && (r.number.Some? ==>
                  && r.number == Some(Base(l, ask) + 1)
                  && r.ledger == Ledger(Some(ask.limit), Base(l, ask) + 1, ask.file, r.number)
                  && r.disk == ask.disk[ask.file.value := Base(l, ask) + 1])
  {
  }

  /**
   * What a refused request leaves behind: it moves no count that was bound, and only a failed
   * write touches the file.
   */
  lemma RefusedLeaves(l: Ledger, ask: Ask)
    requires Answer(l, ask).number.None?
    ensures var r := Answer(l, ask);
            && (l.maxCalls.Some? ==> r.ledger == l)
            && (!ProperAsk(ask) ==> r.ledger == l && r.disk == ask.disk)
            && (r.ledger.maxCalls != l.maxCalls ==>
                  r.ledger.maxCalls == Some(ask.limit) && r.ledger.callCount == ask.seed)
            && (ask.projection.writable ==> r.disk == ask.disk)
            && (forall f | f in ask.disk && ask.file != Some(f) :: f in r.disk && r.disk[f] == ask.disk[f])
            && (r.disk != ask.disk ==> ProperAsk(ask) && Agrees(l, ask) && Base(l, ask) < ask.limit)
  {
  }

  /** A first request finds no counter, one it may adopt, or, after a restart, the one it inherited. */
  predicate MayBind(l: Ledger, ask: Ask) {
    ProperAsk(ask) && (l.counterRaw.None? && ask.file.value in ask.disk ==> ask.disk[ask.file.value] == ask.seed)
  }

  /**
   * What a refused first request binds: its limit and seed if it may, and with them the file and
   * an adopted counter unless another file is inherited.  A failed write, and nothing else, leaves
   * its residue in the file or removes it.
   */
  lemma RefusedBindsExactly(l: Ledger, ask: Ask)
    requires Answer(l, ask).number.None?
    ensures var r := Answer(l, ask);
            && (l.maxCalls.None? && !MayBind(l, ask) ==> r.ledger == l)
            && (l.maxCalls.None? && MayBind(l, ask) ==>
                  var adopted := if ask.file.value in ask.disk && l.counterRaw.None? then Some(ask.seed)
                                 else l.counterRaw;
                  r.ledger == if Agrees(l, ask) then Ledger(Some(ask.limit), ask.seed, ask.file, adopted)
                              else Ledger(Some(ask.limit), ask.seed, l.counterFile, l.counterRaw))
            && r.disk == (if !ask.projection.writable && ProperAsk(ask) && Agrees(l, ask) && Base(l, ask) < ask.limit
                             && (l.maxCalls.Some? || MayBind(l, ask))
                          then if ask.projection.residue.Some?
                               then ask.disk[ask.file.value := ask.projection.residue.value]
                               else ask.disk - {ask.file.value}
                          else ask.disk)
  {
  }

  // ---------------------------------------------------------------- undisturbed runs

  function DiskAfter(l: Ledger, asks: seq<Ask>, disk: map<Path, int>): map<Path, int> {
    if asks == [] then disk else Answer(LedgerAfter(l, asks[..|asks| - 1]), asks[|asks| - 1]).disk
  }

  /** Requests of one tree, whose counter file nobody else touches and which can always be replaced. */
  ghost predicate Undisturbed(l: Ledger, asks: seq<Ask>, limit: int, file: Path, disk: map<Path, int>) {
    forall k | 0 <= k < |asks| ::
      && ProperAsk(asks[k]) && asks[k].limit == limit && asks[k].file == Some(file) && asks[k].projection.writable
      && asks[k].disk == DiskAfter(l, asks[..k], disk)
  }

  function Min(a: int, b: int): int {
    if a < b then a else b
  }

  /** How many calls of a tree that starts at `seed` get a number. */
  function Room(limit: int, seed: int): int {
    if seed < limit then limit - seed else 0
  }

  /**
   * Undisturbed, a fresh tree numbers exactly the calls from the first request's seed up to the
   * limit, one for each request, and then no more.
   */
  lemma {:induction false} EveryNumberIsIssued(asks: seq<Ask>, limit: int, file: Path, disk: map<Path, int>)
    requires var l := Ledger(None, 0, None, None);
             Undisturbed(l, asks, limit, file, disk) && asks != [] && (file in disk ==> disk[file] == asks[0].seed)
    ensures var (l, seed) := (Ledger(None, 0, None, None), asks[0].seed);
            var (issued, after) := (Issued(l, asks), LedgerAfter(l, asks));
            && |issued| == Min(|asks|, Room(limit, seed))
            && (forall i | 0 <= i < |issued| :: issued[i] == seed + 1 + i)
            && after.maxCalls == Some(limit) && after.counterFile == Some(file) && after.callCount == seed + |issued|
            && (issued != [] ==> after.counterRaw == Some(after.callCount))
            && (after.counterRaw.Some? ==>
                  file in DiskAfter(l, asks, disk) && DiskAfter(l, asks, disk)[file] == after.counterRaw.value)
    decreases |asks|
  {
    hide Allocate;
    var l := Ledger(None, 0, None, None);
    var (before, last) := (asks[..|asks| - 1], asks[|asks| - 1]);
    assert Undisturbed(l, before, limit, file, disk) by {
      assert forall k | 0 <= k < |before| :: before[k] == asks[k] && before[..k] == asks[..k];
    }
    assert last.disk == DiskAfter(l, before, disk);
    if before == [] {
      FirstRequest(last);
      assert Issued(l, before) == [] && LedgerAfter(l, before) == l;
    } else {
      EveryNumberIsIssued(before, limit, file, disk);
      NumberedExactly(LedgerAfter(l, before), last);
      if Answer(LedgerAfter(l, before), last).number.None? {
        RefusedLeaves(LedgerAfter(l, before), last);
      }
    }
  }

  lemma FirstRequest(ask: Ask)
    requires ProperAsk(ask) && ask.projection.writable
    requires ask.file.value in ask.disk ==> ask.disk[ask.file.value] == ask.seed
    ensures var r := Answer(Ledger(None, 0, None, None), ask);
            && r.ledger.maxCalls == Some(ask.limit) && r.ledger.counterFile == ask.file
            && r.number == (if ask.seed < ask.limit then Some(ask.seed + 1) else None)
            && r.ledger.callCount == ask.seed + (if r.number.Some? then 1 else 0)
            && (r.number.Some? ==> r.ledger.counterRaw == r.number)
            && (r.ledger.counterRaw.Some? ==>
                  ask.file.value in r.disk && r.disk[ask.file.value] == r.ledger.counterRaw.value)
  {
  }
}
