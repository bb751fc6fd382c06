/**
 * The check of a recursion trace (scripts/validate-recursion-transcripts.ts): which lines the
 * regular expressions recognize is given with each line; what the pass over the lines makes
 * of them is computed here.
 */
module TraceValidator {
  import opened Wrappers

  /** The identity of one recursive call. */
  datatype Key = Key(traceId: string, generation: string, parentDepth: nat, childDepth: nat, call: nat)

  datatype Status = Verified | Failed | NotRequired

  datatype Outcome = Outcome(exitCode: nat, transcript: Status)

  /** What each pattern finds in a line; the first of start, completion and terminal decides. */
  datatype Line = Line(
    cleanupFailed: Option<Key>,
    start: Option<Key>,
    completion: Option<(Key, Outcome)>,
    terminal: Option<(Key, Outcome)>)

  datatype Expected = Expected(key: Key, exitCode: nat)

  datatype Seen = Seen(
    starts: seq<Key>,
    completions: map<Key, Outcome>,
    terminals: map<Key, Outcome>,
    cleanupFailed: set<Key>)

  // ---------------------------------------------------------------- the pass

  predicate Starts(line: Line) {
    line.start.Some?
  }

  predicate Completes(line: Line) {
    line.start.None? && line.completion.Some?
  }

  predicate Terminates(line: Line) {
    line.start.None? && line.completion.None? && line.terminal.Some?
  }

  function Noticed(seen: Seen, line: Line): Seen {
    if line.cleanupFailed.Some? then seen.(cleanupFailed := seen.cleanupFailed + {line.cleanupFailed.value}) else seen
  }

  /** One line; None when the trace is rejected there. */
  function Taken(before: Seen, line: Line): Option<Seen> {
    var seen := Noticed(before, line);
    if Starts(line) then
      if line.start.value in seen.starts then None else Some(seen.(starts := seen.starts + [line.start.value]))
    else if Completes(line) then
      var (key, outcome) := line.completion.value;
      if key !in seen.starts || key in seen.completions then None
      else Some(seen.(completions := seen.completions[key := outcome]))
    else if Terminates(line) then
      var (key, outcome) := line.terminal.value;
      if key !in seen.starts || key in seen.terminals then None
      else Some(seen.(terminals := seen.terminals[key := outcome]))
    else Some(seen)
  }

  function TakenAll(lines: seq<Line>): Option<Seen>
    decreases |lines|
  {
    if lines == [] then Some(Seen([], map[], map[], {}))
    else
      match TakenAll(lines[..|lines| - 1])
      case None => None
      case Some(seen) => Taken(seen, lines[|lines| - 1])
  }

  /** The checks on one started call once all lines are in. */
  predicate Settled(seen: Seen, key: Key) {
    && key in seen.completions && key !in seen.cleanupFailed && key in seen.terminals
    && seen.terminals[key] == seen.completions[key] && seen.completions[key].transcript.Verified?
  }

  predicate AllSettled(seen: Seen) {
    && seen.starts != [] && (forall key <- seen.starts :: Settled(seen, key))
    && (forall key <- seen.terminals :: key in seen.completions)
  }

  function Collected(completions: map<Key, Outcome>, keys: seq<Key>): seq<Expected>
    requires forall key <- keys :: key in completions
    decreases |keys|
  {
    if keys == [] then []
    else
      var last := keys[|keys| - 1];
      assert last in keys;
      Collected(completions, keys[..|keys| - 1]) + [Expected(last, completions[last].exitCode)]
  }

  function ExpectedTranscripts(lines: seq<Line>): Option<seq<Expected>> {
    match TakenAll(lines)
    case None => None
    case Some(seen) => if AllSettled(seen) then Some(Collected(seen.completions, seen.starts)) else None
  }

  // ---------------------------------------------------------------- one call's lines

  datatype Mark = Started | Completed(outcome: Outcome) | Ended(outcome: Outcome)

  /** What a line says about a call, if anything. */
  function MarkOf(line: Line, key: Key): (marks: seq<Mark>)
    ensures |marks| <= 1
  {
    if Starts(line) then if line.start.value == key then [Started] else []
    else if Completes(line) then if line.completion.value.0 == key then [Completed(line.completion.value.1)] else []
    else if Terminates(line) then if line.terminal.value.0 == key then [Ended(line.terminal.value.1)] else []
    else []
  }

  /** The trace of one call: its own lines, in their order. */
  function Trace(lines: seq<Line>, key: Key): seq<Mark>
    decreases |lines|
  {
    if lines == [] then [] else Trace(lines[..|lines| - 1], key) + MarkOf(lines[|lines| - 1], key)
  }

  predicate CleanupFailed(lines: seq<Line>, key: Key) {
    exists i | 0 <= i < |lines| :: lines[i].cleanupFailed == Some(key)
  }

  /** The keys of the start lines, in order. */
  function StartedKeys(lines: seq<Line>): seq<Key>
    decreases |lines|
  {
    if lines == [] then []
    else
      var (front, last) := (StartedKeys(lines[..|lines| - 1]), lines[|lines| - 1]);
      if Starts(last) then front + [last.start.value] else front
  }

  /** As far as it goes, nothing is wrong with this trace. */
  predicate Partial(trace: seq<Mark>) {
    trace == [] ||
    (&& trace[0].Started? && |trace| <= 3
     && (|trace| == 2 ==> !trace[1].Started?)
     && (|trace| == 3 ==> (trace[1].Completed? && trace[2].Ended?) || (trace[1].Ended? && trace[2].Completed?)))
  }

  /** A finished, verified call: completion and terminal agree, in either order. */
  predicate Complete(trace: seq<Mark>) {
    && |trace| == 3 && Partial(trace)
    && trace[1].outcome == trace[2].outcome && trace[1].outcome.transcript.Verified?
  }

  function CompletionIn(trace: seq<Mark>): Option<Outcome> {
    if |trace| > 1 && trace[1].Completed? then Some(trace[1].outcome)
    else if |trace| > 2 && trace[2].Completed? then Some(trace[2].outcome)
    else None
  }

  function EndIn(trace: seq<Mark>): Option<Outcome> {
    if |trace| > 1 && trace[1].Ended? then Some(trace[1].outcome)
    else if |trace| > 2 && trace[2].Ended? then Some(trace[2].outcome)
    else None
  }

  ghost predicate AllPartial(lines: seq<Line>) {
    forall key :: Partial(Trace(lines, key))
  }

  function At(outcomes: map<Key, Outcome>, key: Key): Option<Outcome> {
    if key in outcomes then Some(outcomes[key]) else None
  }

  /** The maps hold what the calls' traces say. */
  ghost predicate Describes(seen: Seen, lines: seq<Line>) {
    && seen.starts == StartedKeys(lines)
    && (forall key :: key in seen.starts <==> Trace(lines, key) != [])
    && (forall key :: At(seen.completions, key) == CompletionIn(Trace(lines, key)))
    && (forall key :: At(seen.terminals, key) == EndIn(Trace(lines, key)))
    && (forall key :: key in seen.cleanupFailed <==> CleanupFailed(lines, key))
  }

  lemma TraceGrows(lines: seq<Line>, line: Line, key: Key)
    ensures Trace(lines + [line], key) == Trace(lines, key) + MarkOf(line, key)
    ensures CleanupFailed(lines + [line], key) <==> CleanupFailed(lines, key) || line.cleanupFailed == Some(key)
    ensures StartedKeys(lines + [line]) == StartedKeys(lines) + if Starts(line) then [line.start.value] else []
  {
    var more := lines + [line];
    assert more[..|lines|] == lines;
    assert more[|lines|] == line;
    assert forall i | 0 <= i < |lines| :: more[i] == lines[i];
  }

  /** When one more mark leaves a trace in order, and what it records then. */
  lemma PartialGrows(trace: seq<Mark>, mark: Mark)
    requires Partial(trace)
    ensures Partial(trace + [mark]) <==>
            match mark
            case Started => trace == []
            case Completed(_) => trace != [] && CompletionIn(trace).None?
            case Ended(_) => trace != [] && EndIn(trace).None?
    ensures Partial(trace + [mark]) ==>
              && CompletionIn(trace + [mark]) == (if mark.Completed? then Some(mark.outcome) else CompletionIn(trace))
              && EndIn(trace + [mark]) == (if mark.Ended? then Some(mark.outcome) else EndIn(trace))
  {
    var more := trace + [mark];
    assert more[|trace|] == mark && forall i | 0 <= i < |trace| :: more[i] == trace[i];
  }

  /** The call a line is about, and what it says. */
  function Subject(line: Line): Option<(Key, Mark)> {
    if Starts(line) then Some((line.start.value, Started))
    else if Completes(line) then Some((line.completion.value.0, Completed(line.completion.value.1)))
    else if Terminates(line) then Some((line.terminal.value.0, Ended(line.terminal.value.1)))
    else None
  }

  lemma SubjectMarks(line: Line, key: Key)
    ensures MarkOf(line, key) == if Subject(line).Some? && Subject(line).value.0 == key then [Subject(line).value.1]
                                else []
  {
  }

  /** The new trace of every call: only the line's own call has grown. */
  lemma TraceAfter(lines: seq<Line>, line: Line, key: Key)
    ensures Trace(lines + [line], key) ==
            if Subject(line).Some? && Subject(line).value.0 == key then Trace(lines, key) + [Subject(line).value.1]
            else Trace(lines, key)
  {
    TraceGrows(lines, line, key);
    SubjectMarks(line, key);
    assert Trace(lines, key) + [] == Trace(lines, key);
  }

  lemma PartialAfter(lines: seq<Line>, line: Line)
    requires AllPartial(lines)
    ensures AllPartial(lines + [line]) <==>
            (Subject(line).Some? ==> Partial(Trace(lines, Subject(line).value.0) + [Subject(line).value.1]))
  {
    hide Trace, Subject, Partial;
    forall key ensures Trace(lines + [line], key) ==
            if Subject(line).Some? && Subject(line).value.0 == key then Trace(lines, key) + [Subject(line).value.1]
            else Trace(lines, key) {
      TraceAfter(lines, line, key);
    }
    if Subject(line).Some? {
      assert AllPartial(lines + [line]) ==> Partial(Trace(lines + [line], Subject(line).value.0));
    }
  }

  /** A line about a call is taken exactly when it leaves that call's trace in order. */
  lemma TakenExactly(seen: Seen, lines: seq<Line>, line: Line)
    requires AllPartial(lines) && Describes(seen, lines)
    ensures Taken(seen, line).Some? <==>
            (Subject(line).Some? ==> Partial(Trace(lines, Subject(line).value.0) + [Subject(line).value.1]))
  {
    hide Trace, CleanupFailed, StartedKeys;
    if Subject(line).Some? {
      var (key, mark) := Subject(line).value;
      assert At(seen.completions, key) == CompletionIn(Trace(lines, key))
             && At(seen.terminals, key) == EndIn(Trace(lines, key));
      hide Partial, CompletionIn, EndIn;
      PartialGrows(Trace(lines, key), mark);
    }
  }

  lemma TakenDescribes(seen: Seen, lines: seq<Line>, line: Line)
    requires AllPartial(lines) && Describes(seen, lines) && Taken(seen, line).Some?
    requires AllPartial(lines + [line])
    ensures Describes(Taken(seen, line).value, lines + [line])
  {
    var after := Taken(seen, line).value;
    TraceGrows(lines, line, Key("", "", 0, 0, 0));
    hide Trace, CleanupFailed, StartedKeys, Partial, CompletionIn, EndIn, Taken;
    assert after.starts == StartedKeys(lines + [line]) by { StartsAfter(seen, lines, line); }
    forall key
      ensures key in after.starts <==> Trace(lines + [line], key) != []
      ensures At(after.completions, key) == CompletionIn(Trace(lines + [line], key))
      ensures At(after.terminals, key) == EndIn(Trace(lines + [line], key))
      ensures key in after.cleanupFailed <==> CleanupFailed(lines + [line], key)
    {
      TraceGrows(lines, line, key);
      TraceAfter(lines, line, key);
      assert Partial(Trace(lines, key)) && Partial(Trace(lines + [line], key));
      if Subject(line).Some? && Subject(line).value.0 == key {
        PartialGrows(Trace(lines, key), Subject(line).value.1);
      }
      TakenAtKey(seen, line, key);
    }
  }

  lemma StartsAfter(seen: Seen, lines: seq<Line>, line: Line)
    requires Describes(seen, lines) && Taken(seen, line).Some?
    ensures Taken(seen, line).value.starts == StartedKeys(lines + [line])
  {
    TraceGrows(lines, line, Key("", "", 0, 0, 0));
    hide Trace, CleanupFailed;
  }

  /** What one taken line changes, key by key. */
  lemma TakenAtKey(seen: Seen, line: Line, key: Key)
    requires Taken(seen, line).Some?
    ensures var (after, s) := (Taken(seen, line).value, Subject(line));
            var mine := s.Some? && s.value.0 == key;
            && (key in after.starts <==> key in seen.starts || (mine && s.value.1.Started?))
            && At(after.completions, key)
               == (if mine && s.value.1.Completed? then Some(s.value.1.outcome) else At(seen.completions, key))
            && At(after.terminals, key)
               == (if mine && s.value.1.Ended? then Some(s.value.1.outcome) else At(seen.terminals, key))
            && (key in after.cleanupFailed <==> key in seen.cleanupFailed || line.cleanupFailed == Some(key))
            && (mine && !s.value.1.Started? ==> key in seen.starts)
  {
  }

  lemma {:induction false} PassIsExact(lines: seq<Line>)
    ensures TakenAll(lines).Some? <==> AllPartial(lines)
    ensures TakenAll(lines).Some? ==> Describes(TakenAll(lines).value, lines)
    decreases |lines|
  {
    hide Taken, Trace, Describes, AllPartial;
    if lines == [] {
      EmptyPass();
    } else {
      var (front, last) := (lines[..|lines| - 1], lines[|lines| - 1]);
      assert lines == front + [last];
      PassIsExact(front);
      if AllPartial(front) {
        var seen := TakenAll(front).value;
        PartialAfter(front, last);
        TakenExactly(seen, front, last);
        if Taken(seen, last).Some? {
          TakenDescribes(seen, front, last);
        }
      } else if AllPartial(front + [last]) {
        PartialBefore(front, last);
      }
    }
  }

  lemma EmptyPass()
    ensures AllPartial([]) && Describes(Seen([], map[], map[], {}), [])
  {
  }

  lemma PartialBefore(lines: seq<Line>, line: Line)
    requires AllPartial(lines + [line])
    ensures AllPartial(lines)
  {
    forall key ensures Partial(Trace(lines, key)) {
      TraceAfter(lines, line, key);
      assert Partial(Trace(lines + [line], key));
      var (less, more) := (Trace(lines, key), Trace(lines + [line], key));
      assert forall i | 0 <= i < |less| :: less[i] == more[i];
    }
  }

  // ---------------------------------------------------------------- acceptance

  ghost predicate SomeStarted(lines: seq<Line>) {
    exists key :: Trace(lines, key) != []
  }

  /** Every call that appears is complete and verified, and no cleanup of it failed. */
  ghost predicate AllComplete(lines: seq<Line>) {
    forall key | Trace(lines, key) != [] :: Complete(Trace(lines, key)) && !CleanupFailed(lines, key)
  }

  lemma CompleteParts(trace: seq<Mark>)
    requires Partial(trace)
    ensures Complete(trace) <==>
            trace != [] && CompletionIn(trace).Some? && EndIn(trace) == CompletionIn(trace)
            && CompletionIn(trace).value.transcript.Verified?
    ensures EndIn(trace).Some? ==> trace != []
  {
  }

  lemma SettledExactly(seen: Seen, lines: seq<Line>)
    requires Describes(seen, lines) && AllPartial(lines)
    ensures AllSettled(seen) <==> SomeStarted(lines) && AllComplete(lines)
  {
    hide Trace, CleanupFailed, StartedKeys, Partial, CompletionIn, EndIn, Complete;
    forall key
      ensures key in seen.starts ==>
                (Settled(seen, key) <==> Complete(Trace(lines, key)) && !CleanupFailed(lines, key))
    {
      assert Partial(Trace(lines, key));
      CompleteParts(Trace(lines, key));
      assert At(seen.completions, key) == CompletionIn(Trace(lines, key))
             && At(seen.terminals, key) == EndIn(Trace(lines, key));
    }
    forall key | key in seen.terminals && AllComplete(lines) ensures key in seen.completions {
      assert Partial(Trace(lines, key));
      CompleteParts(Trace(lines, key));
      assert At(seen.completions, key) == CompletionIn(Trace(lines, key))
             && At(seen.terminals, key) == EndIn(Trace(lines, key));
      assert Complete(Trace(lines, key));
    }
    if seen.starts != [] {
      assert seen.starts[0] in seen.starts && Trace(lines, seen.starts[0]) != [];
    }
  }

  /**
   * A trace is accepted exactly when some call appears in it and every call that does has one
   * start, then one completion and one lifecycle terminal that agree and are verified, and no
   * failed cleanup.  How the calls' lines are interleaved does not matter.
   */
  lemma AcceptedExactly(lines: seq<Line>)
    ensures ExpectedTranscripts(lines).Some? <==> SomeStarted(lines) && AllComplete(lines)
  {
    PassIsExact(lines);
    hide Trace, TakenAll, AllSettled, Describes;
    if AllPartial(lines) {
      SettledExactly(TakenAll(lines).value, lines);
    } else if AllComplete(lines) {
      CompleteIsPartial(lines);
    }
  }

  lemma CompleteIsPartial(lines: seq<Line>)
    requires AllComplete(lines)
    ensures AllPartial(lines)
  {
    hide Trace;
  }

  // ---------------------------------------------------------------- what is returned

  lemma {:induction false} CollectedAt(completions: map<Key, Outcome>, keys: seq<Key>)
    requires forall key <- keys :: key in completions
    ensures var r := Collected(completions, keys);
            |r| == |keys| && forall i | 0 <= i < |keys| :: r[i] == Expected(keys[i], completions[keys[i]].exitCode)
    decreases |keys|
  {
    if keys != [] {
      CollectedAt(completions, keys[..|keys| - 1]);
      assert forall i | 0 <= i < |keys| :: keys[i] in keys;
    }
  }

  /** An accepted trace yields exactly the started calls, in the order of their starts, with their exit codes. */
  lemma ReturnsTheStartedCalls(lines: seq<Line>)
    requires ExpectedTranscripts(lines).Some?
    ensures var (r, keys) := (ExpectedTranscripts(lines).value, StartedKeys(lines));
            && |r| == |keys| && (forall key :: key in keys <==> Trace(lines, key) != [])
            && forall i | 0 <= i < |keys| ::
                 && r[i].key == keys[i] && CompletionIn(Trace(lines, keys[i])).Some?
                 && r[i].exitCode == CompletionIn(Trace(lines, keys[i])).value.exitCode
  {
    PassIsExact(lines);
    var seen := TakenAll(lines).value;
    hide Trace, TakenAll, StartedKeys, CompletionIn;
    CollectedAt(seen.completions, seen.starts);
    forall i | 0 <= i < |seen.starts|
      ensures At(seen.completions, seen.starts[i]) == CompletionIn(Trace(lines, seen.starts[i]))
          && seen.starts[i] in seen.completions
    {
      assert seen.starts[i] in seen.starts;
    }
  }

  /** What the runtime writes for one verified call. */
  function Emitted(exitCode: nat): seq<Mark> {
    [Started, Completed(Outcome(exitCode, Verified)), Ended(Outcome(exitCode, Verified))]
  }

  /** The lines are some interleaving of the lines of these calls, among others that say nothing. */
  ghost predicate Interleaves(lines: seq<Line>, calls: map<Key, nat>) {
    && (forall key :: Trace(lines, key) == if key in calls then Emitted(calls[key]) else [])
    && (forall key <- calls :: !CleanupFailed(lines, key))
  }

  /** Emitter and validator agree on every interleaving: exactly the emitted calls come back. */
  lemma EmittedTracesAreAccepted(lines: seq<Line>, calls: map<Key, nat>)
    requires Interleaves(lines, calls) && calls != map[]
    ensures ExpectedTranscripts(lines).Some?
    ensures var r := ExpectedTranscripts(lines).value;
            && (forall i | 0 <= i < |r| :: r[i].key in calls && r[i].exitCode == calls[r[i].key])
            && (forall key <- calls :: exists i | 0 <= i < |r| :: r[i].key == key)
  {
    hide Trace, ExpectedTranscripts, CleanupFailed, StartedKeys;
    var any :| any in calls;
    assert Trace(lines, any) != [];
    forall key | Trace(lines, key) != [] ensures Complete(Trace(lines, key)) && !CleanupFailed(lines, key) {
      assert key in calls;
    }
    AcceptedExactly(lines);
    ReturnsTheStartedCalls(lines);
    var (r, keys) := (ExpectedTranscripts(lines).value, StartedKeys(lines));
    forall i | 0 <= i < |r| ensures r[i].key in calls && r[i].exitCode == calls[r[i].key] {
      assert keys[i] in keys;
    }
    forall key <- calls ensures exists i | 0 <= i < |r| :: r[i].key == key {
      assert Trace(lines, key) != [];
      var i :| 0 <= i < |keys| && keys[i] == key;
      assert r[i].key == key;
    }
  }

  lemma {:induction false} TraceInParts(left: seq<Line>, right: seq<Line>, key: Key)
    ensures Trace(left + right, key) == Trace(left, key) + Trace(right, key)
    decreases |right|
  {
    if right == [] {
      assert left + right == left;
      assert Trace(left, key) + [] == Trace(left, key);
    } else {
      var front := right[..|right| - 1];
      TraceInParts(left, front, key);
      assert (left + right)[..|left + right| - 1] == left + front;
    }
  }

  lemma OneLineTrace(line: Line, key: Key)
    ensures Trace([line], key) == MarkOf(line, key)
  {
    assert [line][..0] == [];
  }

  lemma SplitTrace(left: seq<Line>, line: Line, right: seq<Line>, key: Key)
    ensures Trace(left + [line] + right, key) == Trace(left, key) + MarkOf(line, key) + Trace(right, key)
  {
    TraceInParts(left + [line], right, key);
    TraceInParts(left, [line], key);
    OneLineTrace(line, key);
  }

  /** Leaving out any one start, completion or terminal line makes the validator reject the trace. */
  lemma DeletingAnyLineRejects(lines: seq<Line>, i: nat)
    requires ExpectedTranscripts(lines).Some? && i < |lines| && Subject(lines[i]).Some?
    ensures ExpectedTranscripts(lines[..i] + lines[i + 1..]).None?
  {
    hide ExpectedTranscripts, Trace, Subject;
    var key := Subject(lines[i]).value.0;
    assert lines == lines[..i] + [lines[i]] + lines[i + 1..];
    SplitTrace(lines[..i], lines[i], lines[i + 1..], key);
    SubjectMarks(lines[i], key);
    TraceInParts(lines[..i], lines[i + 1..], key);
    AcceptedExactly(lines);
    AcceptedExactly(lines[..i] + lines[i + 1..]);
    assert |Trace(lines, key)| == 3 && |Trace(lines[..i] + lines[i + 1..], key)| == 2;
  }

  /** So does repeating any such line anywhere. */
  lemma DuplicatingAnyLineRejects(lines: seq<Line>, i: nat, j: nat)
    requires ExpectedTranscripts(lines).Some? && i < |lines| && Subject(lines[i]).Some? && j <= |lines|
    ensures ExpectedTranscripts(lines[..j] + [lines[i]] + lines[j..]).None?
  {
    hide ExpectedTranscripts, Trace, Subject;
    var key := Subject(lines[i]).value.0;
    var more := lines[..j] + [lines[i]] + lines[j..];
    SplitTrace(lines[..j], lines[i], lines[j..], key);
    SubjectMarks(lines[i], key);
    TraceInParts(lines[..j], lines[j..], key);
    assert lines == lines[..j] + lines[j..];
    AcceptedExactly(lines);
    AcceptedExactly(more);
    OwnLineShows(lines, i, key);
    assert |Trace(lines, key)| == 3 && |Trace(more, key)| == 4;
  }

  lemma OwnLineShows(lines: seq<Line>, i: nat, key: Key)
    requires i < |lines| && Subject(lines[i]).Some? && Subject(lines[i]).value.0 == key
    ensures Trace(lines, key) != []
  {
    hide Trace, Subject;
    assert lines == lines[..i] + [lines[i]] + lines[i + 1..];
    SplitTrace(lines[..i], lines[i], lines[i + 1..], key);
    SubjectMarks(lines[i], key);
  }

  lemma ThreeLineTrace(a: Line, b: Line, c: Line, key: Key)
    ensures Trace([a, b, c], key) == MarkOf(a, key) + MarkOf(b, key) + MarkOf(c, key)
  {
    hide Trace;
    assert [a, b, c] == [a] + [b] + [c];
    SplitTrace([a], b, [c], key);
    OneLineTrace(a, key);
    OneLineTrace(c, key);
  }

  /** The order of completion and terminal is not checked: a terminal written first passes as well. */
  lemma TerminalFirstIsAccepted(key: Key, exitCode: nat)
    ensures var o := Outcome(exitCode, Verified);
            ExpectedTranscripts([
              Line(None, Some(key), None, None), Line(None, None, None, Some((key, o))),
              Line(None, None, Some((key, o)), None)
            ]).Some?
  {
    hide Trace, ExpectedTranscripts;
    var o := Outcome(exitCode, Verified);
    var (a, b, c) := (Line(None, Some(key), None, None), Line(None, None, None, Some((key, o))),
                      Line(None, None, Some((key, o)), None));
    var lines := [a, b, c];
    forall k ensures Trace(lines, k) == if k == key then [Started, Ended(o), Completed(o)] else [] {
      ThreeLineTrace(a, b, c, k);
    }
    assert Trace(lines, key) != [];
    AcceptedExactly(lines);
  }

  // ---------------------------------------------------------------- the loops

  method CheckTrace(lines: seq<Line>) returns (r: Option<seq<Expected>>)
    ensures r == ExpectedTranscripts(lines)
  {
    hide Taken, Noticed;
    var seen := Seen([], map[], map[], {});
    var n := 0;
    while n < |lines|
      invariant n <= |lines| && TakenAll(lines[..n]) == Some(seen)
    {
      assert lines[..n + 1][..n] == lines[..n];
      var next := TakeLine(seen, lines[n]);
      if next.None? {
        RejectedStays(lines, n + 1);
        return None;
      }
      seen := next.value;
      n := n + 1;
    }
    assert lines[..n] == lines;
    if seen.starts == [] {
      return None;
    }
    var collected: seq<Expected> := [];
    var i := 0;
    while i < |seen.starts|
      invariant i <= |seen.starts|
      invariant forall key <- seen.starts[..i] :: Settled(seen, key)
      invariant collected == Collected(seen.completions, seen.starts[..i])
    {
      var key := seen.starts[i];
      if key !in seen.completions || key in seen.cleanupFailed || key !in seen.terminals
         || seen.terminals[key] != seen.completions[key] || seen.completions[key].transcript != Verified {
        assert key in seen.starts && !Settled(seen, key);
        return None;
      }
      assert seen.starts[..i + 1][..i] == seen.starts[..i];
      collected := collected + [Expected(key, seen.completions[key].exitCode)];
      i := i + 1;
    }
    assert seen.starts[..i] == seen.starts;
    var pending := seen.terminals.Keys;
    while pending != {}
      invariant pending <= seen.terminals.Keys
      invariant forall key <- seen.terminals :: key in pending || key in seen.completions
      decreases pending
    {
      var key :| key in pending;
      if key !in seen.completions {
        return None;
      }
      pending := pending - {key};
    }
    return Some(collected);
  }

  method TakeLine(before: Seen, line: Line) returns (r: Option<Seen>)
    ensures r == Taken(before, line)
  {
    var seen := before;
    if line.cleanupFailed.Some? {
      seen := seen.(cleanupFailed := seen.cleanupFailed + {line.cleanupFailed.value});
    }
    if line.start.Some? {
      if line.start.value in seen.starts {
        return None;
      }
      return Some(seen.(starts := seen.starts + [line.start.value]));
    }
    if line.completion.Some? {
      var (key, outcome) := line.completion.value;
      if key !in seen.starts || key in seen.completions {
        return None;
      }
      return Some(seen.(completions := seen.completions[key := outcome]));
    }
    if line.terminal.None? {
      return Some(seen);
    }
    var (key, outcome) := line.terminal.value;
    if key !in seen.starts || key in seen.terminals {
      return None;
    }
    return Some(seen.(terminals := seen.terminals[key := outcome]));
  }

  lemma {:induction false} RejectedStays(lines: seq<Line>, n: nat)
    requires n <= |lines| && TakenAll(lines[..n]).None?
    ensures TakenAll(lines).None?
    decreases |lines| - n
  {
    if n == |lines| {
      assert lines[..n] == lines;
    } else {
      assert lines[..n + 1][..n] == lines[..n];
      RejectedStays(lines, n + 1);
    }
  }
}
