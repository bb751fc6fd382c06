/**
 * The decoder of a child's JSON event stream (child-output.ts): chunks of any size come in,
 * lines go out, and lines over the limit are only classified.  Strings are sequences of
 * UTF-16 units.  JSON parsing, the type regular expression and the callbacks' answers are
 * the functions of an `Env`; usage figures are reals, added in stream order.
 */
module JsonDecoder {
  import opened Wrappers

  type Unit = u: int | 0 <= u < 0x10000

  type Text = seq<Unit>

  const NEWLINE: Unit := 10
  const MAX_JSON_EVENT_CHARS: nat := 1024 * 1024
  const MAX_TOOL_OUTPUT_CHARS: nat := 60 * 1024
  const LONG_CONTEXT_OBSERVATION_TOKENS: real := 272000.0

  datatype Usage = Usage(
    input: real, output: real, cacheRead: real, cacheWrite: real, reasoning: real, totalTokens: real, cost: real)

  datatype Model = Model(provider: Text, name: Text)

  datatype Status = Running | Succeeded | Failed

  datatype Event =
    | TextDelta(delta: Text)
    | Tool(key: Text, caption: Text, status: Status)
    | TurnEnd(model: Option<Model>, usage: Usage)
    | Other

  datatype Call = OnText(text: Text) | OnTool(key: Text, caption: Text, status: Status)

  /** `incomplete`: an oversized line with this prefix may have carried usage.  `consent`: what onText answers. */
  datatype Env = Env(parse: Text -> Option<Event>, incomplete: Text -> bool, consent: (seq<Call>, Text) -> bool)

  datatype Totals = Totals(
    cost: real, tokens: real, input: real, output: real, cacheRead: real, cacheWrite: real, reasoning: real,
    turns: nat, peakContext: real, longContextTurns: nat)

  datatype Capture = Capture(limit: nat, kept: Text, truncated: bool)

  datatype Decoder = Decoder(
    pending: Text,
    dropping: bool,
    eventTruncated: bool,
    costIncomplete: bool,
    text: Capture,
    totals: Totals,
    model: Option<Model>,
    calls: seq<Call>,
    refusals: nat)

  // ---------------------------------------------------------------- bounded capture

  function Captured(c: Capture, chunk: Text): Capture {
    if c.limit <= |c.kept| then c.(truncated := true)
    else if |chunk| > c.limit - |c.kept| then c.(kept := c.kept + chunk[..c.limit - |c.kept|], truncated := true)
    else c.(kept := c.kept + chunk)
  }

  function CapturedAll(c: Capture, chunks: seq<Text>): Capture
    decreases |chunks|
  {
    if chunks == [] then c else Captured(CapturedAll(c, chunks[..|chunks| - 1]), chunks[|chunks| - 1])
  }

  function Concat(chunks: seq<Text>): Text
    decreases |chunks|
  {
    if chunks == [] then [] else Concat(chunks[..|chunks| - 1]) + chunks[|chunks| - 1]
  }

  function Prefix(text: Text, n: nat): Text {
    if |text| <= n then text else text[..n]
  }

  lemma {:induction false} ConcatGrows(chunks: seq<Text>, k: nat)
    requires k <= |chunks|
    ensures |Concat(chunks[..k])| <= |Concat(chunks)|
    decreases |chunks|
  {
    if k == |chunks| {
      assert chunks[..k] == chunks;
    } else {
      assert chunks[..|chunks| - 1][..k] == chunks[..k];
      ConcatGrows(chunks[..|chunks| - 1], k);
    }
  }

  /** Some append came when nothing more could be kept. */
  ghost predicate ArrivedFull(chunks: seq<Text>, limit: nat) {
    exists k | 0 <= k < |chunks| :: |Concat(chunks[..k])| >= limit
  }

  /**
   * A capture keeps the first `limit` units and nothing else.  Its flag is raised exactly when
   * something was left out or some append, even an empty one, arrived when it was full.
   */
  lemma {:induction false} CaptureKeepsPrefix(limit: nat, chunks: seq<Text>)
    ensures var c := CapturedAll(Capture(limit, [], false), chunks);
            && c.limit == limit && c.kept == Prefix(Concat(chunks), limit)
            && (c.truncated <==> |Concat(chunks)| > limit || ArrivedFull(chunks, limit))
    decreases |chunks|
  {
    if chunks != [] {
      var (front, last) := (chunks[..|chunks| - 1], chunks[|chunks| - 1]);
      CaptureKeepsPrefix(limit, front);
      assert forall k | 0 <= k < |chunks| :: chunks[..k] == front[..k];
      assert front[..|front|] == front;
      var c := CapturedAll(Capture(limit, [], false), front);
      if |Concat(front)| >= limit {
        assert |Concat(chunks[..|front|])| >= limit;
        assert Prefix(Concat(chunks), limit) == Prefix(Concat(front), limit);
      } else {
        forall k | 0 <= k < |front| ensures |Concat(front[..k])| < limit {
          ConcatGrows(front, k);
        }
        assert c.kept == Concat(front) && !c.truncated;
        assert Captured(c, last).kept == Prefix(Concat(front) + last, limit);
        if ArrivedFull(chunks, limit) {
          var k :| 0 <= k < |chunks| && |Concat(chunks[..k])| >= limit;
          assert k < |front| ==> ArrivedFull(front, limit);
        }
      }
    }
  }

  /** When nothing was left out the flag is down, except when some append found the capture already full. */
  lemma FlagWithoutLoss(limit: nat, chunks: seq<Text>)
    requires |Concat(chunks)| <= limit
    ensures var c := CapturedAll(Capture(limit, [], false), chunks);
            c.kept == Concat(chunks) && (c.truncated <==> ArrivedFull(chunks, limit))
  {
    CaptureKeepsPrefix(limit, chunks);
  }

  /** An empty append to a full capture raises the flag although nothing is lost. */
  lemma EmptyAppendRaisesFlag(chunk: Text)
    ensures var c := CapturedAll(Capture(|chunk|, [], false), [chunk, []]);
            c.truncated && c.kept == Concat([chunk, []])
  {
    var chunks: seq<Text> := [chunk, []];
    assert chunks[..1] == [chunk] && chunks[..1][..0] == [];
    assert Concat(chunks[..1]) == chunk && Concat(chunks) == chunk;
    CaptureKeepsPrefix(|chunk|, chunks);
  }

  // ---------------------------------------------------------------- one line

  predicate Space(u: Unit) {
    9 <= u <= 13 || u == 32 || u == 0xA0 || u == 0x1680 || 0x2000 <= u <= 0x200A || u == 0x2028 || u == 0x2029
    || u == 0x202F || u == 0x205F || u == 0x3000 || u == 0xFEFF
  }

  predicate Blank(line: Text) {
    forall u <- line :: Space(u)
  }

  function Added(t: Totals, u: Usage): Totals {
    var context := u.input + u.cacheRead + u.cacheWrite;
    Totals(
      t.cost + u.cost,
      t.tokens + (if u.totalTokens != 0.0 then u.totalTokens else context + u.output),
      t.input + u.input, t.output + u.output, t.cacheRead + u.cacheRead, t.cacheWrite + u.cacheWrite,
      t.reasoning + u.reasoning, t.turns + 1,
      if context > t.peakContext then context else t.peakContext,
      t.longContextTurns + if context > LONG_CONTEXT_OBSERVATION_TOKENS then 1 else 0)
  }

  function Handled(env: Env, d: Decoder, event: Event): Decoder {
    match event
    case TextDelta(delta) =>
      var shown := d.(text := Captured(d.text, delta));
      if delta == [] then shown
      else
        shown.(calls := d.calls + [OnText(delta)],
               refusals := d.refusals + if env.consent(d.calls, delta) then 0 else 1)
    case Tool(key, caption, status) => d.(calls := d.calls + [OnTool(key, caption, status)])
    case TurnEnd(model, usage) =>
      d.(model := if model.Some? then model else d.model, totals := Added(d.totals, usage))
    case Other => d
  }

  /** A line within the limit; what is not JSON is ignored. */
  function Processed(env: Env, d: Decoder, line: Text): Decoder {
    if Blank(line) then d
    else
      match env.parse(line)
      case None => d
      case Some(event) => Handled(env, d, event)
  }

  /** A line over the limit, known by its first units. */
  function Classified(env: Env, d: Decoder, prefix: Text): Decoder {
    d.(eventTruncated := true, costIncomplete := d.costIncomplete || env.incomplete(prefix))
  }

  /** What one whole line does, however it arrived. */
  function TakenLine(env: Env, d: Decoder, line: Text): Decoder {
    if |line| > MAX_JSON_EVENT_CHARS then Classified(env, d, line[..MAX_JSON_EVENT_CHARS]) else Processed(env, d, line)
  }

  // ---------------------------------------------------------------- the stream

  /** The stream cut at every newline; the last piece is the tail. */
  function Split(stream: Text): (lines: seq<Text>)
    ensures |lines| > 0
  {
    if stream == [] then [[]]
    else
      var rest := Split(stream[1..]);
      if stream[0] == NEWLINE then [[]] + rest else [[stream[0]] + rest[0]] + rest[1..]
  }

  function TakenAll(env: Env, d: Decoder, lines: seq<Text>): Decoder
    decreases |lines|
  {
    if lines == [] then d else TakenAll(env, TakenLine(env, d, lines[0]), lines[1..])
  }

  /** One unit of the stream. */
  function Fed(env: Env, d: Decoder, u: Unit): Decoder {
    if u == NEWLINE then
      if d.dropping then d.(dropping := false) else Processed(env, d, d.pending).(pending := [])
    else if d.dropping then d
    else if |d.pending| + 1 > MAX_JSON_EVENT_CHARS then Classified(env, d, d.pending).(pending := [], dropping := true)
    else d.(pending := d.pending + [u])
  }

  function FedAll(env: Env, d: Decoder, stream: Text): Decoder
    decreases |stream|
  {
    if stream == [] then d else FedAll(env, Fed(env, d, stream[0]), stream[1..])
  }

  function Finished(env: Env, d: Decoder): Decoder {
    (if !d.dropping && d.pending != [] then Processed(env, d, d.pending) else d).(pending := [])
  }

  predicate Consistent(d: Decoder) {
    |d.pending| <= MAX_JSON_EVENT_CHARS && (d.dropping ==> d.pending == [])
  }

  lemma FedConsistent(env: Env, d: Decoder, u: Unit)
    requires Consistent(d)
    ensures Consistent(Fed(env, d, u))
  {
  }

  lemma {:induction false} FedAllConsistent(env: Env, d: Decoder, stream: Text)
    requires Consistent(d)
    ensures Consistent(FedAll(env, d, stream))
    decreases |stream|
  {
    hide Fed, Consistent;
    if stream != [] {
      FedConsistent(env, d, stream[0]);
      FedAllConsistent(env, Fed(env, d, stream[0]), stream[1..]);
    }
  }

  lemma {:induction false} FedInParts(env: Env, d: Decoder, left: Text, right: Text)
    ensures FedAll(env, d, left + right) == FedAll(env, FedAll(env, d, left), right)
    decreases |left|
  {
    hide Fed;
    if left == [] {
      assert left + right == right;
    } else {
      assert (left + right)[1..] == left[1..] + right;
      FedInParts(env, Fed(env, d, left[0]), left[1..], right);
    }
  }

  /** What a stretch without a newline leaves. */
  function Stretched(env: Env, d: Decoder, part: Text): Decoder
    requires Consistent(d)
  {
    if d.dropping then d
    else if |d.pending| + |part| > MAX_JSON_EVENT_CHARS then
      Classified(env, d, d.pending + part[..MAX_JSON_EVENT_CHARS - |d.pending|]).(pending := [], dropping := true)
    else d.(pending := d.pending + part)
  }

  lemma StretchStep(env: Env, d: Decoder, part: Text)
    requires Consistent(d) && part != [] && part[0] != NEWLINE
    ensures Consistent(Fed(env, d, part[0]))
    ensures Stretched(env, d, part) == Stretched(env, Fed(env, d, part[0]), part[1..])
  {
    if !d.dropping && |d.pending| + |part| > MAX_JSON_EVENT_CHARS && |d.pending| < MAX_JSON_EVENT_CHARS {
      var n := MAX_JSON_EVENT_CHARS - |d.pending|;
      assert d.pending + part[..n] == d.pending + [part[0]] + part[1..][..n - 1];
    } else if !d.dropping && |d.pending| < MAX_JSON_EVENT_CHARS {
      assert d.pending + part == d.pending + [part[0]] + part[1..];
    } else if !d.dropping {
      assert d.pending + part[..0] == d.pending;
    }
  }

  lemma {:induction false} StretchIsFed(env: Env, d: Decoder, part: Text)
    requires Consistent(d) && NEWLINE !in part
    ensures FedAll(env, d, part) == Stretched(env, d, part)
    decreases |part|
  {
    if part == [] {
      assert d.pending + [] == d.pending;
    } else {
      assert part[0] in part;
      StretchStep(env, d, part);
      hide Fed, Stretched;
      StretchIsFed(env, Fed(env, d, part[0]), part[1..]);
    }
  }

  lemma {:induction false} SplitJoined(part: Text, rest: Text)
    requires NEWLINE !in part
    ensures Split(part + [NEWLINE] + rest) == [part] + Split(rest)
    ensures Split(part) == [part]
  {
    var whole := part + [NEWLINE] + rest;
    if part == [] {
      assert whole[1..] == rest;
    } else {
      assert part[0] in part && [part[0]] + part[1..] == part;
      assert whole[1..] == part[1..] + [NEWLINE] + rest;
      SplitJoined(part[1..], rest);
    }
  }

  lemma BuffersUntouched(env: Env, d: Decoder, line: Text)
    ensures TakenLine(env, d, line).pending == d.pending && TakenLine(env, d, line).dropping == d.dropping
  {
    hide Added, Captured, Blank;
  }

  /** A line and its newline, arriving on an empty buffer. */
  lemma LineIsTaken(env: Env, d: Decoder, line: Text)
    requires d.pending == [] && !d.dropping && NEWLINE !in line
    ensures FedAll(env, d, line + [NEWLINE]) == TakenLine(env, d, line)
  {
    FedInParts(env, d, line, [NEWLINE]);
    StretchIsFed(env, d, line);
    BuffersUntouched(env, d, line);
    var e := Stretched(env, d, line);
    assert [NEWLINE][1..] == [];
    assert FedAll(env, e, [NEWLINE]) == Fed(env, e, NEWLINE);
    assert d.pending + line == line;
    if |line| > MAX_JSON_EVENT_CHARS {
      assert d.pending + line[..MAX_JSON_EVENT_CHARS] == line[..MAX_JSON_EVENT_CHARS];
    } else {
      ProcessedIgnoresPending(env, d, line);
    }
  }

  lemma HandledIgnoresPending(env: Env, d: Decoder, pending: Text, event: Event)
    ensures Handled(env, d.(pending := pending), event) == Handled(env, d, event).(pending := pending)
    ensures Handled(env, d, event).dropping == d.dropping && Handled(env, d, event).pending == d.pending
  {
    hide Added, Captured;
    match event {
      case TextDelta(delta) =>
      case Tool(key, caption, status) =>
      case TurnEnd(model, usage) =>
      case Other =>
    }
  }

  lemma ProcessedIgnoresPending(env: Env, d: Decoder, line: Text)
    requires d.pending == []
    ensures Processed(env, d.(pending := line), line).(pending := []) == Processed(env, d, line)
  {
    hide Handled, Blank;
    if !Blank(line) && env.parse(line).Some? {
      HandledIgnoresPending(env, d, line, env.parse(line).value);
    }
  }

  lemma EmptyLineDoesNothing(env: Env, d: Decoder)
    ensures Processed(env, d, []) == d
  {
  }

  lemma LastLineIsTaken(env: Env, d: Decoder, line: Text)
    requires d.pending == [] && !d.dropping && NEWLINE !in line
    ensures Finished(env, FedAll(env, d, line)).(dropping := false) == TakenLine(env, d, line)
  {
    hide Processed;
    EmptyLineDoesNothing(env, d);
    BuffersUntouched(env, d, line);
    StretchIsFed(env, d, line);
    assert d.pending + line == line;
    if |line| > MAX_JSON_EVENT_CHARS {
      assert d.pending + line[..MAX_JSON_EVENT_CHARS] == line[..MAX_JSON_EVENT_CHARS];
    } else {
      ProcessedIgnoresPending(env, d, line);
    }
  }

  function FirstNewline(stream: Text): (at: nat)
    ensures at <= |stream| && NEWLINE !in stream[..at] && (at < |stream| ==> stream[at] == NEWLINE)
  {
    if stream == [] || stream[0] == NEWLINE then 0 else 1 + FirstNewline(stream[1..])
  }

  /** Feeding a whole stream and finishing is taking its newline-separated lines in order. */
  lemma {:induction false} StreamIsLines(env: Env, d: Decoder, stream: Text)
    requires d.pending == [] && !d.dropping
    ensures Finished(env, FedAll(env, d, stream)).(dropping := false) == TakenAll(env, d, Split(stream))
    decreases |stream|
  {
    hide Fed, Finished, TakenLine;
    var at := FirstNewline(stream);
    var line := stream[..at];
    if at == |stream| {
      assert stream == line;
      SplitJoined(line, []);
      LastLineIsTaken(env, d, line);
      var none: seq<Text> := [line][1..];
      assert none == [];
    } else {
      var rest := stream[at + 1..];
      assert stream == line + [NEWLINE] + rest;
      SplitJoined(line, rest);
      FedInParts(env, d, line + [NEWLINE], rest);
      LineIsTaken(env, d, line);
      BuffersUntouched(env, d, line);
      StreamIsLines(env, TakenLine(env, d, line), rest);
      assert ([line] + Split(rest))[1..] == Split(rest);
    }
  }

  function Initial(): Decoder {
    Decoder([], false, false, false, Capture(MAX_TOOL_OUTPUT_CHARS, [], false),
            Totals(0.0, 0.0, 0.0, 0.0, 0.0, 0.0, 0.0, 0, 0.0, 0), None, [], 0)
  }

  function AppendedAll(env: Env, d: Decoder, chunks: seq<Text>): Decoder
    decreases |chunks|
  {
    if chunks == [] then d else FedAll(env, AppendedAll(env, d, chunks[..|chunks| - 1]), chunks[|chunks| - 1])
  }

  lemma {:induction false} ChunksAreOneStream(env: Env, d: Decoder, chunks: seq<Text>)
    ensures AppendedAll(env, d, chunks) == FedAll(env, d, Concat(chunks))
    decreases |chunks|
  {
    if chunks != [] {
      ChunksAreOneStream(env, d, chunks[..|chunks| - 1]);
      FedInParts(env, d, Concat(chunks[..|chunks| - 1]), chunks[|chunks| - 1]);
    }
  }

  /**
   * However the stream is cut, appending the pieces and finishing gives the result and the
   * callbacks of taking the lines of the whole stream, the tail being the last line.
   */
  lemma ChunkingDoesNotMatter(env: Env, chunks: seq<Text>)
    ensures Finished(env, AppendedAll(env, Initial(), chunks)).(dropping := false)
            == TakenAll(env, Initial(), Split(Concat(chunks)))
  {
    ChunksAreOneStream(env, Initial(), chunks);
    StreamIsLines(env, Initial(), Concat(chunks));
  }

  // ---------------------------------------------------------------- what a stream yields

  function Joined(lines: seq<Text>): Text
    decreases |lines|
  {
    if lines == [] then []
    else if |lines| == 1 then lines[0]
    else lines[0] + [NEWLINE] + Joined(lines[1..])
  }

  /** The lines of a stream hold no newline, and newlines between them give the stream back. */
  lemma {:induction false} LinesAreTheStream(stream: Text)
    ensures Joined(Split(stream)) == stream
    ensures forall i | 0 <= i < |Split(stream)| :: NEWLINE !in Split(stream)[i]
  {
    if stream != [] {
      var rest := Split(stream[1..]);
      LinesAreTheStream(stream[1..]);
      assert [stream[0]] + stream[1..] == stream;
      if stream[0] == NEWLINE {
        assert ([[]] + rest)[1..] == rest;
        assert [] + [NEWLINE] + Joined(rest) == stream;
      } else {
        var lines := [[stream[0]] + rest[0]] + rest[1..];
        assert lines[1..] == rest[1..];
        assert |rest| > 1 ==> [stream[0]] + (rest[0] + [NEWLINE] + Joined(rest[1..])) == Joined(lines);
      }
    }
  }

  /** A line that is too long, blank or not JSON carries no event. */
  function EventOf(env: Env, line: Text): seq<Event> {
    if |line| > MAX_JSON_EVENT_CHARS || Blank(line) || env.parse(line).None? then [] else [env.parse(line).value]
  }

  /** The events of the lines, in order. */
  function Events(env: Env, lines: seq<Text>): seq<Event>
    decreases |lines|
  {
    if lines == [] then [] else Events(env, lines[..|lines| - 1]) + EventOf(env, lines[|lines| - 1])
  }

  /** The usage reported at the end of each turn. */
  function Usages(events: seq<Event>): seq<Usage>
    decreases |events|
  {
    if events == [] then []
    else
      var last := events[|events| - 1];
      Usages(events[..|events| - 1]) + if last.TurnEnd? then [last.usage] else []
  }

  datatype Figure = Cost | Tokens | Input | Output | CacheRead | CacheWrite | Reasoning

  /** What a turn had in its context. */
  function Context(u: Usage): real {
    u.input + u.cacheRead + u.cacheWrite
  }

  /** Tokens a provider does not report are those of the context and the output. */
  function Reported(figure: Figure, u: Usage): real {
    match figure
    case Cost => u.cost
    case Tokens => if u.totalTokens == 0.0 then Context(u) + u.output else u.totalTokens
    case Input => u.input
    case Output => u.output
    case CacheRead => u.cacheRead
    case CacheWrite => u.cacheWrite
    case Reasoning => u.reasoning
  }

  function Sum(figure: Figure, usages: seq<Usage>): real
    decreases |usages|
  {
    if usages == [] then 0.0 else Sum(figure, usages[..|usages| - 1]) + Reported(figure, usages[|usages| - 1])
  }

  /** How many turns had more in their context than the observation bound. */
  function LongTurns(usages: seq<Usage>): nat
    decreases |usages|
  {
    if usages == [] then 0
    else
      LongTurns(usages[..|usages| - 1])
      + if Context(usages[|usages| - 1]) > LONG_CONTEXT_OBSERVATION_TOKENS then 1 else 0
  }

  /** The largest context, or nothing when no turn had any. */
  ghost predicate IsPeak(peak: real, usages: seq<Usage>) {
    && peak >= 0.0
    && (forall i | 0 <= i < |usages| :: Context(usages[i]) <= peak)
    && (peak == 0.0 || exists i | 0 <= i < |usages| :: Context(usages[i]) == peak)
  }

  function LastModel(events: seq<Event>): Option<Model>
    decreases |events|
  {
    if events == [] then None
    else
      var last := events[|events| - 1];
      if last.TurnEnd? && last.model.Some? then last.model else LastModel(events[..|events| - 1])
  }

  function Deltas(events: seq<Event>): seq<Text>
    decreases |events|
  {
    if events == [] then []
    else
      var last := events[|events| - 1];
      Deltas(events[..|events| - 1]) + if last.TextDelta? then [last.delta] else []
  }

  /** Text that is not empty and every tool event reach a callback, in the order of the stream. */
  function Callbacks(events: seq<Event>): seq<Call>
    decreases |events|
  {
    if events == [] then []
    else
      var last := events[|events| - 1];
      Callbacks(events[..|events| - 1])
      + if last.TextDelta? && last.delta != [] then [OnText(last.delta)]
        else if last.Tool? then [OnTool(last.key, last.caption, last.status)]
        else []
  }

  /** How many text callbacks asked to stop, each answering after the calls before it. */
  function Refusals(env: Env, calls: seq<Call>): nat
    decreases |calls|
  {
    if calls == [] then 0
    else
      var (before, last) := (calls[..|calls| - 1], calls[|calls| - 1]);
      Refusals(env, before) + if last.OnText? && !env.consent(before, last.text) then 1 else 0
  }

  ghost predicate TotalsOf(t: Totals, usages: seq<Usage>) {
    && t.turns == |usages|
    && t.cost == Sum(Cost, usages) && t.tokens == Sum(Tokens, usages)
    && t.input == Sum(Input, usages) && t.output == Sum(Output, usages)
    && t.cacheRead == Sum(CacheRead, usages) && t.cacheWrite == Sum(CacheWrite, usages)
    && t.reasoning == Sum(Reasoning, usages)
    && t.longContextTurns == LongTurns(usages) && IsPeak(t.peakContext, usages)
  }

  ghost predicate FlagsOf(env: Env, d: Decoder, lines: seq<Text>) {
    && (d.eventTruncated <==> exists i | 0 <= i < |lines| :: |lines[i]| > MAX_JSON_EVENT_CHARS)
    && (d.costIncomplete <==> exists i | 0 <= i < |lines| ::
          |lines[i]| > MAX_JSON_EVENT_CHARS && env.incomplete(lines[i][..MAX_JSON_EVENT_CHARS]))
  }

  ghost predicate TextOf(text: Capture, deltas: seq<Text>) {
    && text.kept == Prefix(Concat(deltas), MAX_TOOL_OUTPUT_CHARS)
    && (text.truncated <==>
        |Concat(deltas)| > MAX_TOOL_OUTPUT_CHARS || ArrivedFull(deltas, MAX_TOOL_OUTPUT_CHARS))
  }

  ghost predicate EventsShow(env: Env, d: Decoder, events: seq<Event>) {
    && TotalsOf(d.totals, Usages(events)) && d.model == LastModel(events)
    && d.text == CapturedAll(Capture(MAX_TOOL_OUTPUT_CHARS, [], false), Deltas(events))
    && d.calls == Callbacks(events) && d.refusals == Refusals(env, d.calls)
  }

  lemma AddedCounts(t: Totals, usages: seq<Usage>, u: Usage)
    requires TotalsOf(t, usages)
    ensures TotalsOf(Added(t, u), usages + [u])
  {
    var more := usages + [u];
    assert more[..|usages|] == usages && more[|usages|] == u;
    var peak := Added(t, u).peakContext;
    if peak == t.peakContext && peak != 0.0 {
      var i :| 0 <= i < |usages| && Context(usages[i]) == peak;
      assert more[i] == usages[i];
    } else if peak != 0.0 {
      assert Context(more[|usages|]) == peak;
    }
    forall i | 0 <= i < |more| ensures Context(more[i]) <= peak {
      assert i < |usages| ==> more[i] == usages[i];
    }
  }

  /** What one more event adds to each reading of the events. */
  lemma OneMoreEvent(events: seq<Event>, event: Event)
    ensures var more := events + [event];
            && Usages(more) == (if event.TurnEnd? then Usages(events) + [event.usage] else Usages(events))
            && LastModel(more) == (if event.TurnEnd? && event.model.Some? then event.model else LastModel(events))
            && Deltas(more) == (if event.TextDelta? then Deltas(events) + [event.delta] else Deltas(events))
            && Callbacks(more)
               == (if event.TextDelta? && event.delta != [] then Callbacks(events) + [OnText(event.delta)]
                   else if event.Tool? then Callbacks(events) + [OnTool(event.key, event.caption, event.status)]
                   else Callbacks(events))
  {
    var more := events + [event];
    assert more[..|events|] == events && more[|events|] == event;
  }

  lemma OneMoreCall(env: Env, calls: seq<Call>, call: Call)
    ensures Refusals(env, calls + [call])
            == Refusals(env, calls) + if call.OnText? && !env.consent(calls, call.text) then 1 else 0
  {
    assert (calls + [call])[..|calls|] == calls;
  }

  lemma OneMoreDelta(c: Capture, deltas: seq<Text>, delta: Text)
    ensures CapturedAll(c, deltas + [delta]) == Captured(CapturedAll(c, deltas), delta)
  {
    assert (deltas + [delta])[..|deltas|] == deltas;
  }

  lemma HandledShows(env: Env, d: Decoder, events: seq<Event>, event: Event)
    requires EventsShow(env, d, events)
    ensures EventsShow(env, Handled(env, d, event), events + [event])
    ensures Handled(env, d, event).eventTruncated == d.eventTruncated
    ensures Handled(env, d, event).costIncomplete == d.costIncomplete
  {
    hide TotalsOf, Captured, CapturedAll, Added, Usages, LastModel, Deltas, Callbacks, Refusals;
    OneMoreEvent(events, event);
    match event {
      case TextDelta(delta) =>
        OneMoreDelta(Capture(MAX_TOOL_OUTPUT_CHARS, [], false), Deltas(events), delta);
        OneMoreCall(env, d.calls, OnText(delta));
      case Tool(key, caption, status) =>
        OneMoreCall(env, d.calls, OnTool(key, caption, status));
      case TurnEnd(model, usage) =>
        AddedCounts(d.totals, Usages(events), usage);
      case Other =>
    }
  }

  lemma FlagsStay(env: Env, d: Decoder, lines: seq<Text>, line: Text)
    requires FlagsOf(env, d, lines)
    ensures |line| > MAX_JSON_EVENT_CHARS ==>
              FlagsOf(env, Classified(env, d, line[..MAX_JSON_EVENT_CHARS]), lines + [line])
    ensures |line| <= MAX_JSON_EVENT_CHARS ==> FlagsOf(env, d, lines + [line])
  {
    var more := lines + [line];
    assert more[|lines|] == line;
    assert forall i | 0 <= i < |lines| :: more[i] == lines[i];
  }

  lemma TakenShows(env: Env, d: Decoder, lines: seq<Text>, line: Text)
    requires EventsShow(env, d, Events(env, lines)) && FlagsOf(env, d, lines)
    ensures var e := TakenLine(env, d, line);
            EventsShow(env, e, Events(env, lines + [line])) && FlagsOf(env, e, lines + [line])
  {
    hide TotalsOf, FlagsOf, EventsShow, Handled, Blank;
    var more := lines + [line];
    assert more[..|lines|] == lines && more[|lines|] == line;
    var events := Events(env, lines);
    FlagsStay(env, d, lines, line);
    if EventOf(env, line) == [] {
      assert Events(env, more) == events;
      ClassifiedShows(env, d, events, line);
    } else {
      HandledShows(env, d, events, env.parse(line).value);
      FlagsAgree(env, d, Handled(env, d, env.parse(line).value), more);
    }
  }

  lemma ClassifiedShows(env: Env, d: Decoder, events: seq<Event>, prefix: Text)
    requires EventsShow(env, d, events)
    ensures |prefix| > MAX_JSON_EVENT_CHARS ==>
              EventsShow(env, Classified(env, d, prefix[..MAX_JSON_EVENT_CHARS]), events)
  {
    hide TotalsOf, CapturedAll;
  }

  lemma FlagsAgree(env: Env, d: Decoder, e: Decoder, lines: seq<Text>)
    requires FlagsOf(env, d, lines) && e.eventTruncated == d.eventTruncated && e.costIncomplete == d.costIncomplete
    ensures FlagsOf(env, e, lines)
  {
  }

  lemma {:induction false} TakenAtTheEnd(env: Env, d: Decoder, lines: seq<Text>, line: Text)
    ensures TakenAll(env, d, lines + [line]) == TakenLine(env, TakenAll(env, d, lines), line)
    decreases |lines|
  {
    hide TakenLine;
    if lines == [] {
      assert [line][1..] == [];
      assert lines + [line] == [line];
    } else {
      assert (lines + [line])[1..] == lines[1..] + [line];
      TakenAtTheEnd(env, TakenLine(env, d, lines[0]), lines[1..], line);
    }
  }

  lemma {:induction false} LinesShow(env: Env, lines: seq<Text>)
    ensures var d := TakenAll(env, Initial(), lines);
            EventsShow(env, d, Events(env, lines)) && FlagsOf(env, d, lines)
    decreases |lines|
  {
    if lines != [] {
      hide EventsShow, FlagsOf, TakenAll, TakenLine, Events, Initial;
      var (front, last) := (lines[..|lines| - 1], lines[|lines| - 1]);
      assert front + [last] == lines;
      LinesShow(env, front);
      TakenAtTheEnd(env, Initial(), front, last);
      TakenShows(env, TakenAll(env, Initial(), front), front, last);
    }
  }

  /**
   * What a stream yields, however it is cut, from the events its lines parse to: every figure
   * is the sum over the turns, the model is the last one named, the callbacks are the text and
   * tool events in order, and the text kept is what fits of all the text.
   */
  lemma StreamYields(env: Env, chunks: seq<Text>)
    ensures var d := Finished(env, AppendedAll(env, Initial(), chunks));
            var lines := Split(Concat(chunks));
            var events := Events(env, lines);
            && TotalsOf(d.totals, Usages(events)) && d.model == LastModel(events)
            && TextOf(d.text, Deltas(events))
            && d.calls == Callbacks(events) && d.refusals == Refusals(env, Callbacks(events))
            && FlagsOf(env, d, lines)
  {
    hide TotalsOf, FlagsOf, Finished, AppendedAll, Split, Events, TakenAll;
    var lines := Split(Concat(chunks));
    ChunkingDoesNotMatter(env, chunks);
    LinesShow(env, lines);
    CaptureKeepsPrefix(MAX_TOOL_OUTPUT_CHARS, Deltas(Events(env, lines)));
    FlagsAgree(env, TakenAll(env, Initial(), lines), Finished(env, AppendedAll(env, Initial(), chunks)), lines);
  }

  // ---------------------------------------------------------------- the object

  class JsonStreamDecoder {
    const env: Env
    var pending: Text
    var droppingOversizedLine: bool
    var jsonEventTruncated: bool
    var jsonCostIncomplete: bool
    var text: Capture
    var totals: Totals
    var actualModel: Option<Model>
    var calls: seq<Call>
    var refusals: nat

    ghost function View(): Decoder
      reads this
    {
      Decoder(pending, droppingOversizedLine, jsonEventTruncated, jsonCostIncomplete, text, totals, actualModel, calls,
              refusals)
    }

    constructor (env: Env)
      ensures View() == Initial() && this.env == env
    {
      this.env := env;
      pending, droppingOversizedLine, jsonEventTruncated, jsonCostIncomplete := [], false, false, false;
      text := Capture(MAX_TOOL_OUTPUT_CHARS, [], false);
      totals, actualModel := Totals(0.0, 0.0, 0.0, 0.0, 0.0, 0.0, 0.0, 0, 0.0, 0), None;
      calls, refusals := [], 0;
    }

    method ClassifyOversizedLine(prefix: Text)
      modifies this`jsonCostIncomplete
      ensures jsonCostIncomplete == (old(jsonCostIncomplete) || env.incomplete(prefix))
    {
      if env.incomplete(prefix) {
        jsonCostIncomplete := true;
      }
    }

    method ProcessLine(line: Text) returns (keepFlowing: bool)
      modifies this
      ensures View() == Processed(env, old(View()), line)
      ensures keepFlowing <==> refusals == old(refusals)
      ensures refusals >= old(refusals)
    {
      keepFlowing := true;
      if Blank(line) {
        return;
      }
      var parsed := env.parse(line);
      if parsed.None? {
        return;
      }
      match parsed.value {
        case TextDelta(delta) =>
          text := Captured(text, delta);
          if delta != [] {
            keepFlowing := env.consent(calls, delta);
            if !keepFlowing {
              refusals := refusals + 1;
            }
            calls := calls + [OnText(delta)];
          }
        case Tool(key, caption, status) => calls := calls + [OnTool(key, caption, status)];
        case TurnEnd(model, usage) =>
          if model.Some? {
            actualModel := model;
          }
          totals := Added(totals, usage);
        case Other =>
      }
    }

    method IndexOfNewline(rest: Text) returns (at: nat)
      ensures at == FirstNewline(rest)
    {
      at := 0;
      while at < |rest| && rest[at] != NEWLINE
        invariant at <= |rest|
        invariant FirstNewline(rest) == at + FirstNewline(rest[at..])
      {
        at := at + 1;
      }
    }

    /** The pending line ends after `newline` more units. */
    method EndLine(rest: Text, newline: nat) returns (kept: bool)
      requires Consistent(View()) && !droppingOversizedLine && newline <= |rest|
      modifies this
      ensures View() ==
              if |old(pending)| + newline > MAX_JSON_EVENT_CHARS
              then
                Classified(env, old(View()), old(pending) + rest[..MAX_JSON_EVENT_CHARS - |old(pending)|])
                .(pending := [])
              else Processed(env, old(View()), old(pending) + rest[..newline]).(pending := [])
      ensures Consistent(View()) && refusals >= old(refusals) && (kept <==> refusals == old(refusals))
    {
      hide Processed;
      kept := true;
      if |pending| + newline > MAX_JSON_EVENT_CHARS {
        ClassifyOversizedLine(pending + rest[..MAX_JSON_EVENT_CHARS - |pending|]);
        jsonEventTruncated := true;
      } else {
        ProcessedIgnores(env, View(), pending + rest[..newline]);
        kept := ProcessLine(pending + rest[..newline]);
      }
      pending := [];
    }

    /** False when a text callback asked to stop during this chunk; the rest of the chunk is still decoded. */
    method Append(chunk: Text) returns (keepFlowing: bool)
      requires Consistent(View())
      modifies this
      ensures View() == FedAll(env, old(View()), chunk) && Consistent(View())
      ensures keepFlowing <==> refusals == old(refusals)
    {
      hide Processed, FedAll, Fed;
      var rest := chunk;
      keepFlowing := true;
      while rest != []
        invariant Consistent(View()) && refusals >= old(refusals)
        invariant keepFlowing <==> refusals == old(refusals)
        invariant FedAll(env, View(), rest) == FedAll(env, old(View()), chunk)
        decreases |rest|
      {
        var newline := IndexOfNewline(rest);
        ghost var before := View();
        NextTurn(env, before, rest);
        if droppingOversizedLine {
          if newline == |rest| {
            NothingLeft(env, View());
            return;
          }
          rest := rest[newline + 1..];
          droppingOversizedLine := false;
        } else if newline == |rest| {
          if |pending| + |rest| > MAX_JSON_EVENT_CHARS {
            ClassifyOversizedLine(pending + rest[..MAX_JSON_EVENT_CHARS - |pending|]);
            pending := [];
            droppingOversizedLine := true;
            jsonEventTruncated := true;
          } else {
            pending := pending + rest;
          }
          NothingLeft(env, View());
          return;
        } else {
          var kept := EndLine(rest, newline);
          if !kept {
            keepFlowing := false;
          }
          rest := rest[newline + 1..];
        }
      }
      NothingLeft(env, View());
    }

    /** The tail counts as a last line. */
    method Finish()
      modifies this
      ensures View() == Finished(env, old(View()))
    {
      if !droppingOversizedLine && pending != [] {
        var _ := ProcessLine(pending);
      }
      pending := [];
    }
  }

  lemma ProcessedIgnores(env: Env, d: Decoder, line: Text)
    ensures Processed(env, d.(pending := line), line).(pending := []) == Processed(env, d, line).(pending := [])
    ensures Processed(env, d, line).dropping == d.dropping
  {
    hide Handled, Blank;
    if !Blank(line) && env.parse(line).Some? {
      HandledIgnoresPending(env, d, line, env.parse(line).value);
    }
  }

  lemma NothingLeft(env: Env, d: Decoder)
    ensures FedAll(env, d, []) == d
  {
  }

  /** What the next turn of the append loop has to reach. */
  lemma NextStretch(env: Env, d: Decoder, rest: Text)
    requires Consistent(d)
    ensures var n := FirstNewline(rest);
            && (n == |rest| ==> FedAll(env, d, rest) == Stretched(env, d, rest))
            && (n < |rest| ==> FedAll(env, d, rest)
                               == FedAll(env, Fed(env, Stretched(env, d, rest[..n]), NEWLINE), rest[n + 1..]))
  {
    hide Fed, Stretched;
    var n := FirstNewline(rest);
    StretchIsFed(env, d, rest[..n]);
    if n == |rest| {
      assert rest[..n] == rest;
    } else {
      assert rest == rest[..n] + ([NEWLINE] + rest[n + 1..]);
      FedInParts(env, d, rest[..n], [NEWLINE] + rest[n + 1..]);
      assert ([NEWLINE] + rest[n + 1..])[1..] == rest[n + 1..];
    }
  }

  /** The same, case by case as the loop distinguishes them. */
  lemma NextTurn(env: Env, d: Decoder, rest: Text)
    requires Consistent(d)
    ensures var n := FirstNewline(rest);
            && (n == |rest| ==> FedAll(env, d, rest) == Stretched(env, d, rest))
            && (n < |rest| ==>
                  FedAll(env, d, rest) ==
                  FedAll(env,
                         if d.dropping then d.(dropping := false)
                         else if |d.pending| + n > MAX_JSON_EVENT_CHARS
                         then Classified(env, d, d.pending + rest[..MAX_JSON_EVENT_CHARS - |d.pending|]).(pending := [])
                         else Processed(env, d, d.pending + rest[..n]).(pending := []),
                         rest[n + 1..]))
  {
    hide FedAll, Processed;
    var n := FirstNewline(rest);
    NextStretch(env, d, rest);
    if n < |rest| && !d.dropping {
      if |d.pending| + n > MAX_JSON_EVENT_CHARS {
        assert rest[..n][..MAX_JSON_EVENT_CHARS - |d.pending|] == rest[..MAX_JSON_EVENT_CHARS - |d.pending|];
      } else {
        ProcessedIgnores(env, d, d.pending + rest[..n]);
      }
    }
  }
}
