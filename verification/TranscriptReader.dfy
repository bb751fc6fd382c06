/**
 * Transcript checks (transcript-proof-io.ts, transcript.ts): a region of a file is read
 * through one reused buffer, in reads of any size, and must be a sequence of
 * newline-terminated JSON objects.  JSON parsing and SHA-256 are parameters.
 */
module TranscriptReader {
  import opened ByteStrings
  import opened Wrappers
  import opened Utf8

  const READ_BUFFER_BYTES: nat := 64 * 1024
  const MAX_TRANSCRIPT_JSONL_EVENT_BYTES: int := 64 * 1024 * 1024
  const CARRIAGE_RETURN: nat := 13
  const MARK_BYTES: Bytes := [0xEF, 0xBB, 0xBF]

  datatype Json = Malformed | NotAnObject | Object(isMessage: bool)

  datatype Counts = Counts(events: nat, messages: nat)

  datatype Tally = Tally(events: nat, messages: nat, pending: Text)

  datatype Failure = InvalidLimit | NoMessage | TooShort | EventTooLarge | InvalidUtf8 | InvalidEvent | Unterminated

  // ---------------------------------------------------------------- what is computed

  /** How many messages one line is, or None when it is no event. */
  function LineMessages(parse: Text -> Json, line: Text): Option<nat> {
    var event := if line != [] && line[|line| - 1] == CARRIAGE_RETURN then line[..|line| - 1] else line;
    if event == [] then None
    else
      match parse(event)
      case Object(isMessage) => Some(if isMessage then 1 else 0)
      case _ => None
  }

  /** The bytes of the current line after more bytes; None once a line is longer than the limit. */
  function Sizes(count: nat, bytes: Bytes, max: int): Option<nat>
    decreases |bytes|
  {
    if bytes == [] then Some(count)
    else
      match Sizes(count, bytes[..|bytes| - 1], max)
      case None => None
      case Some(n) =>
        if bytes[|bytes| - 1] == NEWLINE then Some(0) else if n + 1 > max then None else Some(n + 1)
  }

  function Tallied(parse: Text -> Json, t: Tally, text: Text): Option<Tally>
    decreases |text|
  {
    if text == [] then Some(t)
    else
      match Tallied(parse, t, text[..|text| - 1])
      case None => None
      case Some(s) =>
        if text[|text| - 1] != NEWLINE as nat then Some(s.(pending := s.pending + [text[|text| - 1]]))
        else
          match LineMessages(parse, s.pending)
          case None => None
          case Some(n) => Some(Tally(s.events + 1, s.messages + n, []))
  }

  /** The whole check of a region, whatever the reads were. */
  function Checked(parse: Text -> Json, region: Bytes, requireMessage: bool, max: int): Option<Counts> {
    if max < 1 || Sizes(0, region, max).None? then None
    else
      match Decode(Fresh(false), region)
      case None => None
      case Some((decoder, text)) =>
        if decoder.needed != 0 then None
        else
          match Tallied(parse, Tally(0, 0, []), text)
          case None => None
          case Some(t) =>
            if t.pending != [] || (requireMessage && t.messages == 0) then None else Some(Counts(t.events, t.messages))
  }

  // ---------------------------------------------------------------- in parts

  lemma {:induction false} SizesInParts(count: nat, left: Bytes, right: Bytes, max: int)
    ensures Sizes(count, left + right, max) ==
            match Sizes(count, left, max)
            case None => None
            case Some(n) => Sizes(n, right, max)
    decreases |right|
  {
    if right == [] {
      assert left + right == left;
    } else {
      SizesInParts(count, left, right[..|right| - 1], max);
      assert (left + right)[..|left + right| - 1] == left + right[..|right| - 1];
    }
  }

  lemma {:induction false} SizesOfSegment(count: nat, segment: Bytes, max: int)
    requires NEWLINE !in segment && count <= max
    ensures Sizes(count, segment, max) == if count + |segment| > max then None else Some(count + |segment|)
    decreases |segment|
  {
    if segment != [] {
      var front := segment[..|segment| - 1];
      assert segment[|segment| - 1] in segment && forall b <- front :: b in segment;
      SizesOfSegment(count, front, max);
    }
  }

  lemma {:induction false} SizesBounded(count: nat, bytes: Bytes, max: int)
    requires count <= max
    ensures Sizes(count, bytes, max).Some? ==> Sizes(count, bytes, max).value <= max
    decreases |bytes|
  {
    if bytes != [] {
      SizesBounded(count, bytes[..|bytes| - 1], max);
    }
  }

  lemma {:induction false} TalliedInParts(parse: Text -> Json, t: Tally, left: Text, right: Text)
    ensures Tallied(parse, t, left + right) ==
            match Tallied(parse, t, left)
            case None => None
            case Some(s) => Tallied(parse, s, right)
    decreases |right|
  {
    hide LineMessages;
    if right == [] {
      assert left + right == left;
    } else {
      TalliedInParts(parse, t, left, right[..|right| - 1]);
      assert (left + right)[..|left + right| - 1] == left + right[..|right| - 1];
    }
  }

  lemma {:induction false} TalliedWithoutNewline(parse: Text -> Json, t: Tally, text: Text)
    requires NEWLINE as nat !in text
    ensures Tallied(parse, t, text) == Some(t.(pending := t.pending + text))
    decreases |text|
  {
    if text == [] {
      assert t.pending + text == t.pending;
    } else {
      var front := text[..|text| - 1];
      assert text[|text| - 1] in text && text == front + [text[|text| - 1]];
      TalliedWithoutNewline(parse, t, front);
      assert t.pending + front + [text[|text| - 1]] == t.pending + text;
    }
  }

  lemma TalliedLine(parse: Text -> Json, events: nat, messages: nat, line: Text, rest: Text)
    requires NEWLINE as nat !in line
    ensures Tallied(parse, Tally(events, messages, []), line + [NEWLINE as nat] + rest) ==
            match LineMessages(parse, line)
            case None => None
            case Some(n) => Tallied(parse, Tally(events + 1, messages + n, []), rest)
  {
    hide Tallied, LineMessages;
    var start := Tally(events, messages, []);
    TalliedInParts(parse, start, line + [NEWLINE as nat], rest);
    TalliedWithoutNewline(parse, start, line);
    assert [] + line == line;
    TalliedNewline(parse, start, line);
  }

  lemma TalliedNewline(parse: Text -> Json, t: Tally, text: Text)
    requires Tallied(parse, t, text).Some?
    ensures var s := Tallied(parse, t, text).value;
            Tallied(parse, t, text + [NEWLINE as nat]) ==
            match LineMessages(parse, s.pending)
            case None => None
            case Some(n) => Some(Tally(s.events + 1, s.messages + n, []))
  {
    hide LineMessages;
    var whole := text + [NEWLINE as nat];
    assert whole[..|whole| - 1] == text && whole[|whole| - 1] == NEWLINE as nat;
  }

  // ---------------------------------------------------------------- the loops

  /** A read of any positive size up to what was asked for; bytes behind it in the buffer stay as they were. */
  method ReadAt(file: Bytes, buffer: array<Byte>, requested: nat, position: nat) returns (n: nat)
    requires 0 < requested <= buffer.Length
    modifies buffer
    ensures n <= requested && (n == 0 <==> position >= |file|)
    ensures n > 0 ==> position + n <= |file| && buffer[..n] == file[position..position + n]
    ensures forall i | n <= i < buffer.Length :: buffer[i] == old(buffer[i])
  {
    if position >= |file| {
      return 0;
    }
    n :| 1 <= n <= requested && position + n <= |file|;
    var i := 0;
    while i < n
      invariant i <= n
      invariant forall k | 0 <= k < i :: buffer[k] == file[position + k]
      invariant forall k | n <= k < buffer.Length :: buffer[k] == old(buffer[k])
    {
      buffer[i] := file[position + i];
      i := i + 1;
    }
  }

  /** buffer.indexOf: looks through the whole buffer, stale bytes included. */
  method IndexOfNewline(buffer: array<Byte>, from: nat) returns (at: int)
    requires from <= buffer.Length
    ensures at == -1 || from <= at < buffer.Length
    ensures at >= 0 ==> buffer[at] == NEWLINE && forall i | from <= i < at :: buffer[i] != NEWLINE
    ensures at == -1 ==> forall i | from <= i < buffer.Length :: buffer[i] != NEWLINE
  {
    at := from;
    while at < buffer.Length
      invariant from <= at <= buffer.Length
      invariant forall i | from <= i < at :: buffer[i] != NEWLINE
    {
      if buffer[at] == NEWLINE {
        return;
      }
      at := at + 1;
    }
    at := -1;
  }

  /** Adds the first n bytes of the buffer to the line lengths. */
  method MeasureLines(buffer: array<Byte>, n: nat, before: nat, max: int) returns (ok: bool, after: nat)
    requires n <= buffer.Length && before <= max
    ensures Sizes(before, buffer[..n], max) == if ok then Some(after) else None
    ensures ok ==> after <= max
  {
    hide Sizes;
    ghost var bytes := buffer[..];
    assert forall i | 0 <= i <= buffer.Length :: buffer[..i] == bytes[..i];
    var segmentStart: nat := 0;
    after := before;
    var newlineByte := IndexOfNewline(buffer, 0);
    SizesOfNothing(before, max);
    assert bytes[..0] == [];
    while 0 <= newlineByte < n
      invariant segmentStart <= n && after <= max
      invariant Sizes(before, bytes[..segmentStart], max) == Some(after)
      invariant newlineByte == -1 || segmentStart <= newlineByte < buffer.Length
      invariant newlineByte >= 0 ==> bytes[newlineByte] == NEWLINE
      invariant forall i | segmentStart <= i < (if newlineByte >= 0 then newlineByte else buffer.Length) ::
                  bytes[i] != NEWLINE
      decreases n - segmentStart
    {
      MeasureSegment(bytes, before, segmentStart, newlineByte, after, max);
      if after + newlineByte - segmentStart > max {
        assert bytes[..n] == bytes[..newlineByte] + bytes[newlineByte..n];
        SizesInParts(before, bytes[..newlineByte], bytes[newlineByte..n], max);
        return false, 0;
      }
      MeasureNewline(bytes, before, newlineByte, max);
      after := 0;
      segmentStart := newlineByte + 1;
      newlineByte := IndexOfNewline(buffer, segmentStart);
    }
    MeasureSegment(bytes, before, segmentStart, n, after, max);
    ok := after + n - segmentStart <= max;
    after := if ok then after + n - segmentStart else 0;
  }

  lemma SizesOfNothing(count: nat, max: int)
    ensures Sizes(count, [], max) == Some(count)
  {
  }

  lemma MeasureSegment(bytes: Bytes, before: nat, from: nat, to: nat, after: nat, max: int)
    requires from <= to <= |bytes| && after <= max && Sizes(before, bytes[..from], max) == Some(after)
    requires forall i | from <= i < to :: bytes[i] != NEWLINE
    ensures Sizes(before, bytes[..to], max) == if after + to - from > max then None else Some(after + to - from)
  {
    assert bytes[..to] == bytes[..from] + bytes[from..to];
    SizesInParts(before, bytes[..from], bytes[from..to], max);
    SizesOfSegment(after, bytes[from..to], max);
  }

  lemma MeasureNewline(bytes: Bytes, before: nat, at: nat, max: int)
    requires at < |bytes| && bytes[at] == NEWLINE && Sizes(before, bytes[..at], max).Some?
    ensures Sizes(before, bytes[..at + 1], max) == Some(0)
  {
    assert bytes[..at + 1][..at] == bytes[..at];
  }

  method IndexInText(text: Text) returns (at: nat)
    ensures at <= |text| && NEWLINE as nat !in text[..at] && (at < |text| ==> text[at] == NEWLINE as nat)
  {
    at := 0;
    while at < |text| && text[at] != NEWLINE as nat
      invariant at <= |text| && NEWLINE as nat !in text[..at]
    {
      at := at + 1;
    }
  }

  /** Takes the complete lines off the front of the pending text. */
  method TakeLines(parse: Text -> Json, text: Text, events: nat, messages: nat) returns (ok: bool, t: Tally)
    ensures Tallied(parse, Tally(events, messages, []), text) == if ok then Some(t) else None
    ensures ok ==> NEWLINE as nat !in t.pending
  {
    hide LineMessages;
    t := Tally(events, messages, text);
    var newline: nat := IndexInText(t.pending);
    while newline < |t.pending|
      invariant newline <= |t.pending| && NEWLINE as nat !in t.pending[..newline]
      invariant newline < |t.pending| ==> t.pending[newline] == NEWLINE as nat
      invariant Tallied(parse, Tally(t.events, t.messages, []), t.pending)
                == Tallied(parse, Tally(events, messages, []), text)
      decreases |t.pending|
    {
      var (line, rest) := (t.pending[..newline], t.pending[newline + 1..]);
      assert t.pending == line + [NEWLINE as nat] + rest;
      TalliedLine(parse, t.events, t.messages, line, rest);
      var found := LineMessages(parse, line);
      if found.None? {
        return false, t;
      }
      t := Tally(t.events + 1, t.messages + found.value, rest);
      newline := IndexInText(t.pending);
    }
    assert t.pending[..newline] == t.pending && [] + t.pending == t.pending;
    TalliedWithoutNewline(parse, Tally(t.events, t.messages, []), t.pending);
    ok := true;
  }

  /** Accepts the region exactly when the check on its bytes does, however short the reads are. */
  method ValidateJsonlRegion(parse: Text -> Json, file: Bytes, start: nat, length: nat, requireMessage: bool, max: int)
    returns (r: Result<Counts, Failure>)
    ensures r.Ok? <==> (max >= 1 && length == 0 && !requireMessage)
                       || (start + length <= |file|
                           && Checked(parse, file[start..start + length], requireMessage, max).Some?)
    ensures r.Ok? && start + length <= |file| ==>
              Some(r.value) == Checked(parse, file[start..start + length], requireMessage, max)
  {
    hide Sizes, Decode, Tallied;
    if max < 1 {
      return Err(InvalidLimit);
    }
    NothingChecked(parse, requireMessage, max);
    if length == 0 {
      assert start + length <= |file| ==> file[start..start + length] == [];
      return if requireMessage then Err(NoMessage) else Ok(Counts(0, 0));
    }
    var buffer := new Byte[if length < READ_BUFFER_BYTES then length else READ_BUFFER_BYTES];
    var (decoder, t) := (Fresh(false), Tally(0, 0, []));
    ghost var text: Text := [];
    var (pendingBytes: nat, offset: nat) := (0, 0);
    StartsEmpty(parse, file, start, max);
    while offset < length
      invariant 0 <= offset <= length && 0 <= pendingBytes <= max && (offset > 0 ==> start + offset <= |file|)
      invariant offset == 0 || Scanned(parse, file[start..start + offset], max, pendingBytes, decoder, text, t)
      invariant offset == 0 ==> Scanned(parse, [], max, pendingBytes, decoder, text, t)
      decreases length - offset
    {
      var requested := if buffer.Length < length - offset then buffer.Length else length - offset;
      var bytesRead := ReadAt(file, buffer, requested, start + offset);
      if bytesRead == 0 {
        return Err(TooShort);
      }
      var chunk := buffer[..bytesRead];
      ghost var before := if offset == 0 then [] else file[start..start + offset];
      assert file[start..start + offset + bytesRead] == before + chunk;
      var ok, measured := MeasureLines(buffer, bytesRead, pendingBytes, max);
      var decoded := Decode(decoder, chunk);
      var taken, tally := false, t;
      if decoded.Some? {
        taken, tally := TakeLines(parse, t.pending + decoded.value.1, t.events, t.messages);
      }
      ScanStep(parse, before, chunk, max, pendingBytes, decoder, text, t);
      if !ok || decoded.None? || !taken {
        ghost var rest := if start + length <= |file| then file[start + offset + bytesRead..start + length] else [];
        assert start + length <= |file| ==> file[start..start + length] == before + chunk + rest;
        RefusedStays(parse, before + chunk, rest, requireMessage, max);
        return Err(if !ok then EventTooLarge else if decoded.None? then InvalidUtf8 else InvalidEvent);
      }
      pendingBytes, decoder, t, text := measured, decoded.value.0, tally, text + decoded.value.1;
      offset := offset + bytesRead;
    }
    if decoder.needed != 0 {
      return Err(InvalidUtf8);
    }
    if t.pending != [] {
      return Err(Unterminated);
    }
    return if requireMessage && t.messages == 0 then Err(NoMessage) else Ok(Counts(t.events, t.messages));
  }

  /** What the reader knows after the bytes so far. */
  ghost predicate Scanned(parse: Text -> Json, bytes: Bytes, max: int, pendingBytes: nat, decoder: Decoder, text: Text,
                          t: Tally) {
    && Sizes(0, bytes, max) == Some(pendingBytes)
    && Decode(Fresh(false), bytes) == Some((decoder, text))
    && Tallied(parse, Tally(0, 0, []), text) == Some(t) && NEWLINE as nat !in t.pending
  }

  /** The bytes so far already fail one of the three scans. */
  ghost predicate Refused(parse: Text -> Json, bytes: Bytes, max: int) {
    || Sizes(0, bytes, max).None?
    || Decode(Fresh(false), bytes).None?
    || Tallied(parse, Tally(0, 0, []), Decode(Fresh(false), bytes).value.1).None?
  }

  lemma NothingChecked(parse: Text -> Json, requireMessage: bool, max: int)
    requires max >= 1
    ensures Checked(parse, [], requireMessage, max) == if requireMessage then None else Some(Counts(0, 0))
  {
  }

  lemma StartsEmpty(parse: Text -> Json, file: Bytes, start: nat, max: int)
    ensures Scanned(parse, [], max, 0, Fresh(false), [], Tally(0, 0, []))
  {
  }

  /** One more chunk, split into the three scans. */
  lemma ScanStep(parse: Text -> Json, bytes: Bytes, chunk: Bytes, max: int, pendingBytes: nat, decoder: Decoder,
                 text: Text, t: Tally)
    requires Scanned(parse, bytes, max, pendingBytes, decoder, text, t)
    ensures Sizes(0, bytes + chunk, max) == Sizes(pendingBytes, chunk, max)
    ensures Decode(decoder, chunk).None? ==> Decode(Fresh(false), bytes + chunk).None?
    ensures Decode(decoder, chunk).Some? ==>
              var (after, more) := Decode(decoder, chunk).value;
              && Decode(Fresh(false), bytes + chunk) == Some((after, text + more))
              && Tallied(parse, Tally(0, 0, []), text + more)
                 == Tallied(parse, Tally(t.events, t.messages, []), t.pending + more)
  {
    SizesInParts(0, bytes, chunk, max);
    DecodeInParts(Fresh(false), bytes, chunk);
    hide Sizes, Decode, Tallied;
    match Decode(decoder, chunk)
    case None =>
    case Some((after, more)) =>
      TalliedInParts(parse, Tally(0, 0, []), text, more);
      TalliedInParts(parse, Tally(t.events, t.messages, []), t.pending, more);
      TalliedWithoutNewline(parse, Tally(t.events, t.messages, []), t.pending);
      assert [] + t.pending == t.pending;
  }

  lemma RefusedStays(parse: Text -> Json, bytes: Bytes, rest: Bytes, requireMessage: bool, max: int)
    requires Refused(parse, bytes, max)
    ensures Checked(parse, bytes + rest, requireMessage, max).None?
  {
    SizesInParts(0, bytes, rest, max);
    DecodeInParts(Fresh(false), bytes, rest);
    hide Sizes, Decode, Tallied;
    match Decode(Fresh(false), bytes + rest)
    case None =>
    case Some((after, all)) =>
      if Sizes(0, bytes, max).Some? {
        var text := Decode(Fresh(false), bytes).value.1;
        TalliedInParts(parse, Tally(0, 0, []), text, all[|text|..]);
        assert all == text + all[|text|..];
      }
  }

  // ---------------------------------------------------------------- line by line

  /** The region cut at its newlines: the complete lines, and what follows the last newline. */
  function Lines(region: Bytes): seq<Bytes>
    decreases |region|
  {
    if region == [] then []
    else
      var front := region[..|region| - 1];
      if region[|region| - 1] == NEWLINE then Lines(front) + [Tail(front)] else Lines(front)
  }

  function Tail(region: Bytes): Bytes
    decreases |region|
  {
    if region == [] || region[|region| - 1] == NEWLINE then []
    else Tail(region[..|region| - 1]) + [region[|region| - 1]]
  }

  /** A line's text on its own; only the first line may begin with a byte-order mark. */
  function LineText(first: bool, line: Bytes): Option<Text> {
    match Decode(Fresh(!first), line)
    case None => None
    case Some((decoder, text)) => if decoder.needed == 0 then Some(text) else None
  }

  /** What a line's text must encode: a text without surrogates, whose mark only the first line drops. */
  lemma LineTextExactly(first: bool, line: Bytes, text: Text)
    ensures LineText(first, line) == Some(text)
            <==> exists t :: AllScalar(t) && EncodedAll(t) == line && text == WithoutMark(!first, t)
  {
    hide Decode, EncodedAll;
    DecodesExactly(!first, line);
  }

  /** The event on a line is what stands before its newline, less one carriage return. */
  predicate OnLine(line: Text, event: Text) {
    line == event + [CARRIAGE_RETURN] || (line == event && (line == [] || line[|line| - 1] != CARRIAGE_RETURN))
  }

  /** A line is an event exactly when what stands on it is not empty and is a JSON object. */
  lemma LineMessagesExactly(parse: Text -> Json, line: Text)
    ensures LineMessages(parse, line).Some?
            <==> exists event :: OnLine(line, event) && event != [] && parse(event).Object?
    ensures forall event | OnLine(line, event) && event != [] && parse(event).Object? ::
              LineMessages(parse, line) == Some(if parse(event).isMessage then 1 else 0)
  {
    if line != [] && line[|line| - 1] == CARRIAGE_RETURN {
      var event := line[..|line| - 1];
      assert line == event + [CARRIAGE_RETURN];
      assert OnLine(line, event);
      assert forall other | OnLine(line, other) :: other == line[..|line| - 1];
    } else {
      assert OnLine(line, line);
      assert forall other | OnLine(line, other) :: other == line;
    }
  }

  ghost predicate GoodLine(parse: Text -> Json, lines: seq<Bytes>, i: nat, max: int)
    requires i < |lines|
  {
    && |lines[i]| <= max && LineText(i == 0, lines[i]).Some?
    && LineMessages(parse, LineText(i == 0, lines[i]).value).Some?
  }

  ghost predicate GoodLines(parse: Text -> Json, lines: seq<Bytes>, max: int) {
    forall i | 0 <= i < |lines| :: GoodLine(parse, lines, i, max)
  }

  ghost function Messages(parse: Text -> Json, lines: seq<Bytes>, max: int): nat
    requires GoodLines(parse, lines, max)
    decreases |lines|
  {
    if lines == [] then 0
    else
      var n := |lines| - 1;
      assert forall i | 0 <= i < n :: GoodLine(parse, lines, i, max) ==> GoodLine(parse, lines[..n], i, max);
      assert GoodLine(parse, lines, n, max);
      Messages(parse, lines[..n], max) + LineMessages(parse, LineText(n == 0, lines[n]).value).value
  }

  /** What a transcript region has to be, said without reference to how it is read. */
  ghost predicate WellFormedRegion(parse: Text -> Json, region: Bytes, requireMessage: bool, max: int) {
    && (Tail(region) == [] || (region == MARK_BYTES && max >= 3)) && GoodLines(parse, Lines(region), max)
    && (requireMessage ==> Messages(parse, Lines(region), max) > 0)
  }

  /** The state of the reader in terms of the lines so far. */
  ghost predicate ReadSoFar(parse: Text -> Json, region: Bytes, max: int, decoder: Decoder, text: Text) {
    && Sizes(0, region, max) == Some(|Tail(region)|)
    && Decode(Fresh(false), region) == Some((decoder, text)) && Sound(decoder)
    && GoodLines(parse, Lines(region), max)
    && var start := Fresh(Lines(region) != []);
       && Decode(start, Tail(region)).Some? && Decode(start, Tail(region)).value.0 == decoder
       && Tallied(parse, Tally(0, 0, []), text)
          == Some(Tally(|Lines(region)|, Messages(parse, Lines(region), max), Decode(start, Tail(region)).value.1))
  }

  ghost predicate ReadUntil(parse: Text -> Json, region: Bytes, max: int) {
    exists decoder, text :: ReadSoFar(parse, region, max, decoder, text)
  }

  lemma DecodeOneMore(d: Decoder, bytes: Bytes, b: Byte)
    ensures Decode(d, bytes + [b]) ==
            match Decode(d, bytes)
            case None => None
            case Some((middle, text)) =>
              match Step(middle, b)
              case None => None
              case Some((after, more)) => Some((after, text + more))
  {
    assert (bytes + [b])[..|bytes|] == bytes;
  }

  lemma SizesOneMore(region: Bytes, b: Byte, max: int)
    ensures Sizes(0, region + [b], max) ==
            match Sizes(0, region, max)
            case None => None
            case Some(n) => if b == NEWLINE then Some(0) else if n + 1 > max then None else Some(n + 1)
    ensures Tail(region + [b]) == if b == NEWLINE then [] else Tail(region) + [b]
    ensures Lines(region + [b]) == if b == NEWLINE then Lines(region) + [Tail(region)] else Lines(region)
  {
    assert (region + [b])[..|region|] == region;
  }

  lemma LinesGrow(parse: Text -> Json, lines: seq<Bytes>, line: Bytes, max: int)
    requires GoodLines(parse, lines, max)
    ensures GoodLines(parse, lines + [line], max) <==> GoodLine(parse, lines + [line], |lines|, max)
    ensures GoodLines(parse, lines + [line], max) ==>
              Messages(parse, lines + [line], max)
              == Messages(parse, lines, max) + LineMessages(parse, LineText(lines == [], line).value).value
  {
    hide LineText, LineMessages;
    var more := lines + [line];
    assert more[..|lines|] == lines;
    assert forall i | 0 <= i < |lines| :: GoodLine(parse, lines, i, max) ==> GoodLine(parse, more, i, max);
  }

  /** A byte that is no newline extends the tail. */
  lemma ReadPlain(parse: Text -> Json, region: Bytes, b: Byte, max: int, decoder: Decoder, text: Text)
    requires ReadSoFar(parse, region, max, decoder, text) && b != NEWLINE
    requires |Tail(region)| + 1 <= max && Step(decoder, b).Some?
    ensures var (after, more) := Step(decoder, b).value; ReadSoFar(parse, region + [b], max, after, text + more)
  {
    var (after, more) := Step(decoder, b).value;
    SizesOneMore(region, b, max);
    DecodeOneMore(Fresh(false), region, b);
    DecodeOneMore(Fresh(Lines(region) != []), Tail(region), b);
    StepSound(decoder, b);
    NewlineIsNewline(decoder, b);
    TalliedInParts(parse, Tally(0, 0, []), text, more);
    hide Sizes, Decode, Tallied, GoodLines, Step, Lines, Tail;
    TalliedWithoutNewline(parse, Tallied(parse, Tally(0, 0, []), text).value, more);
  }

  /** A newline completes the tail as a line. */
  lemma ReadNewline(parse: Text -> Json, region: Bytes, max: int, decoder: Decoder, text: Text)
    requires ReadSoFar(parse, region, max, decoder, text) && decoder.needed == 0 && |Tail(region)| <= max
    requires LineMessages(parse, Decode(Fresh(Lines(region) != []), Tail(region)).value.1).Some?
    ensures ReadSoFar(parse, region + [NEWLINE], max, Fresh(true), text + [NEWLINE as nat])
  {
    hide Sizes, Decode, Step, Tallied, GoodLines, Messages, Lines, Tail, LineMessages;
    SizesOneMore(region, NEWLINE, max);
    DecodeOneMore(Fresh(false), region, NEWLINE);
    NewlineStep(decoder);
    TalliedNewline(parse, Tally(0, 0, []), text);
    NewlineGood(parse, region, max, decoder);
  }

  lemma NewlineStep(d: Decoder)
    ensures Sound(d) && d.needed == 0 ==> Step(d, NEWLINE) == Some((Fresh(true), [NEWLINE as nat]))
    ensures Decode(Fresh(true), []) == Some((Fresh(true), [])) && Sound(Fresh(true))
  {
  }

  lemma NewlineGood(parse: Text -> Json, region: Bytes, max: int, decoder: Decoder)
    requires GoodLines(parse, Lines(region), max) && |Tail(region)| <= max && decoder.needed == 0
    requires Decode(Fresh(Lines(region) != []), Tail(region)).Some?
    requires Decode(Fresh(Lines(region) != []), Tail(region)).value.0 == decoder
    requires LineMessages(parse, Decode(Fresh(Lines(region) != []), Tail(region)).value.1).Some?
    ensures GoodLines(parse, Lines(region) + [Tail(region)], max)
    ensures Messages(parse, Lines(region) + [Tail(region)], max)
            == Messages(parse, Lines(region), max)
               + LineMessages(parse, Decode(Fresh(Lines(region) != []), Tail(region)).value.1).value
  {
    hide Decode, LineMessages, GoodLines, Messages;
    LinesGrow(parse, Lines(region), Tail(region), max);
  }

  /** The three scans all succeed. */
  predicate ScansOk(parse: Text -> Json, region: Bytes, max: int) {
    && Sizes(0, region, max).Some? && Decode(Fresh(false), region).Some?
    && Tallied(parse, Tally(0, 0, []), Decode(Fresh(false), region).value.1).Some?
  }

  lemma ScansOkBefore(parse: Text -> Json, region: Bytes, b: Byte, max: int)
    requires ScansOk(parse, region + [b], max)
    ensures ScansOk(parse, region, max)
  {
    hide Sizes, Decode, Tallied, Lines, Tail;
    SizesOneMore(region, b, max);
    DecodeOneMore(Fresh(false), region, b);
    var (middle, text) := Decode(Fresh(false), region).value;
    TalliedInParts(parse, Tally(0, 0, []), text, Step(middle, b).value.1);
  }

  lemma {:induction false} ScansReadAll(parse: Text -> Json, region: Bytes, max: int)
    returns (decoder: Decoder, text: Text)
    requires ScansOk(parse, region, max) && max >= 1
    ensures ReadSoFar(parse, region, max, decoder, text)
    decreases |region|
  {
    hide Sizes, Decode, Tallied, Lines, Tail, ReadSoFar, ScansOk, LineMessages;
    if region == [] {
      NothingRead(parse, max);
      decoder, text := Fresh(false), [];
    } else {
      var (front, b) := (region[..|region| - 1], region[|region| - 1]);
      assert region == front + [b];
      ScansOkBefore(parse, front, b, max);
      decoder, text := ScansReadAll(parse, front, max);
      decoder, text := ScansReadOne(parse, front, b, max, decoder, text);
    }
  }

  lemma NothingRead(parse: Text -> Json, max: int)
    ensures ReadSoFar(parse, [], max, Fresh(false), [])
  {
  }

  lemma ScansReadOne(parse: Text -> Json, region: Bytes, b: Byte, max: int, decoder: Decoder, text: Text)
    returns (after: Decoder, all: Text)
    requires ReadSoFar(parse, region, max, decoder, text) && ScansOk(parse, region + [b], max) && max >= 1
    ensures ReadSoFar(parse, region + [b], max, after, all)
  {
    SizesOneMore(region, b, max);
    DecodeOneMore(Fresh(false), region, b);
    NewlineIsNewline(decoder, b);
    SizesBounded(0, region, max);
    hide Sizes, Decode, Tallied, Lines, Tail, LineMessages, GoodLines, Messages;
    after, all := Step(decoder, b).value.0, text + Step(decoder, b).value.1;
    if b == NEWLINE {
      TalliedNewline(parse, Tally(0, 0, []), text);
      ReadNewline(parse, region, max, decoder, text);
    } else {
      ReadPlain(parse, region, b, max, decoder, text);
    }
  }

  /** Every line is good and the tail could still become one. */
  ghost predicate GoodSoFar(parse: Text -> Json, region: Bytes, max: int) {
    && GoodLines(parse, Lines(region), max) && |Tail(region)| <= max
    && Decode(Fresh(Lines(region) != []), Tail(region)).Some?
  }

  lemma GoodBefore(parse: Text -> Json, region: Bytes, b: Byte, max: int)
    requires GoodSoFar(parse, region + [b], max)
    ensures GoodSoFar(parse, region, max)
    ensures b == NEWLINE ==> && LineText(Lines(region) == [], Tail(region)).Some?
                             && LineMessages(parse, LineText(Lines(region) == [], Tail(region)).value).Some?
    ensures b != NEWLINE ==> |Tail(region)| + 1 <= max && Decode(Fresh(Lines(region) != []), Tail(region) + [b]).Some?
  {
    hide Sizes, Lines, Tail, LineMessages, Decode;
    SizesOneMore(region, b, max);
    var (lines, tail) := (Lines(region), Tail(region));
    if b == NEWLINE {
      var more := lines + [tail];
      assert GoodLine(parse, more, |lines|, max);
      forall i | 0 <= i < |lines| ensures GoodLine(parse, lines, i, max) {
        assert GoodLine(parse, more, i, max) && more[i] == lines[i];
      }
    } else {
      DecodeOneMore(Fresh(lines != []), tail, b);
    }
  }

  lemma {:induction false} GoodIsRead(parse: Text -> Json, region: Bytes, max: int)
    returns (decoder: Decoder, text: Text)
    requires GoodSoFar(parse, region, max)
    ensures ReadSoFar(parse, region, max, decoder, text)
    decreases |region|
  {
    hide Sizes, Decode, Tallied, Lines, Tail, ReadSoFar, GoodSoFar, LineMessages, LineText;
    if region == [] {
      NothingRead(parse, max);
      decoder, text := Fresh(false), [];
    } else {
      var (front, b) := (region[..|region| - 1], region[|region| - 1]);
      assert region == front + [b];
      GoodBefore(parse, front, b, max);
      decoder, text := GoodIsRead(parse, front, max);
      decoder, text := GoodReadOne(parse, front, b, max, decoder, text);
    }
  }

  lemma GoodReadOne(parse: Text -> Json, region: Bytes, b: Byte, max: int, decoder: Decoder, text: Text)
    returns (after: Decoder, all: Text)
    requires ReadSoFar(parse, region, max, decoder, text) && GoodSoFar(parse, region + [b], max)
    ensures ReadSoFar(parse, region + [b], max, after, all)
  {
    GoodBefore(parse, region, b, max);
    DecodeOneMore(Fresh(Lines(region) != []), Tail(region), b);
    hide Sizes, Decode, Tallied, Lines, Tail, LineMessages, GoodLines, Messages, GoodSoFar;
    if b == NEWLINE {
      after, all := Fresh(true), text + [NEWLINE as nat];
      assert |Tail(region)| <= max by { assert GoodSoFar(parse, region, max); TailBounded(parse, region, max); }
      ReadNewline(parse, region, max, decoder, text);
    } else {
      after, all := Step(decoder, b).value.0, text + Step(decoder, b).value.1;
      ReadPlain(parse, region, b, max, decoder, text);
    }
  }

  lemma TailBounded(parse: Text -> Json, region: Bytes, max: int)
    requires GoodSoFar(parse, region, max)
    ensures |Tail(region)| <= max
  {
  }

  // ---------------------------------------------------------------- a tail that decodes to nothing

  lemma {:induction false} StaysStarted(d: Decoder, bytes: Bytes)
    requires d.started && Sound(d) && Decode(d, bytes).Some?
    ensures Decode(d, bytes).value.0.started
    decreases |bytes|
  {
    hide Step;
    if bytes != [] {
      var front := bytes[..|bytes| - 1];
      StaysStarted(d, front);
      DecodeSound(d, front);
      NewlineIsNewline(Decode(d, front).value.0, bytes[|bytes| - 1]);
    }
  }

  /** At rest again after at least one byte: some code point was completed. */
  lemma RestMeansEmitted(d: Decoder, b: Byte)
    requires Sound(d) && Step(d, b).Some? && Step(d, b).value.0.needed == 0 && Step(d, b).value.1 == []
    ensures !d.started && d.needed == 1 && d.code == 0x3FB && b == 0xBF
  {
  }

  lemma MiddleByte(d: Decoder, b: Byte)
    requires Sound(d) && Step(d, b).Some? && Step(d, b).value.0.needed == 1 && Step(d, b).value.0.code == 0x3FB
    requires !Step(d, b).value.0.started
    ensures d.needed == 2 && d.code == 0xF && b == 0xBB && !d.started
  {
  }

  lemma FirstByte(d: Decoder, b: Byte)
    requires Sound(d) && Step(d, b).Some? && Step(d, b).value.0.needed == 2 && Step(d, b).value.0.code == 0xF
    requires !Step(d, b).value.0.started
    ensures d == Fresh(false) && b == 0xEF
  {
  }

  /** Reached again only by emitting, which starts the decoder. */
  lemma FreshMeansNothing(bytes: Bytes)
    requires Decode(Fresh(false), bytes).Some? && Decode(Fresh(false), bytes).value.0 == Fresh(false)
    ensures bytes == []
  {
    if bytes != [] {
      assert Decode(Fresh(false), bytes[..|bytes| - 1]).Some?;
    }
  }

  lemma LastStep(d: Decoder, bytes: Bytes) returns (front: Bytes, b: Byte, middle: Decoder)
    requires Sound(d) && bytes != [] && Decode(d, bytes).Some?
    ensures bytes == front + [b] && Decode(d, front).Some? && middle == Decode(d, front).value.0 && Sound(middle)
    ensures Step(middle, b).Some? && Decode(d, bytes).value.0 == Step(middle, b).value.0
    ensures Decode(d, bytes).value.1 == Decode(d, front).value.1 + Step(middle, b).value.1
  {
    hide Step;
    front, b := bytes[..|bytes| - 1], bytes[|bytes| - 1];
    middle := Decode(d, front).value.0;
    DecodeSound(d, front);
  }

  /** The only bytes that decode completely to nothing are none, and one leading byte-order mark. */
  lemma SilentTail(started: bool, bytes: Bytes)
    requires Decode(Fresh(started), bytes).Some?
    requires Decode(Fresh(started), bytes).value.0.needed == 0 && Decode(Fresh(started), bytes).value.1 == []
    ensures bytes == [] || (!started && bytes == MARK_BYTES)
  {
    hide Step, Decode;
    if bytes != [] {
      var f1, b1, m1 := LastStep(Fresh(started), bytes);
      RestMeansEmitted(m1, b1);
      if started {
        StaysStarted(Fresh(started), f1);
      } else {
        FreshIsAtRest(f1);
        var f2, b2, m2 := LastStep(Fresh(false), f1);
        MiddleByte(m2, b2);
        FreshIsAtRest(f2);
        var f3, b3, m3 := LastStep(Fresh(false), f2);
        FirstByte(m3, b3);
        FreshMeansNothing(f3);
      }
    }
  }

  lemma FreshIsAtRest(bytes: Bytes)
    requires Decode(Fresh(false), bytes).Some?
    ensures bytes == [] ==> Decode(Fresh(false), bytes).value.0.needed == 0
  {
  }

  lemma NothingDecoded(d: Decoder)
    ensures Decode(d, []) == Some((d, []))
  {
  }

  lemma NoBytesNoLines()
    ensures Lines([]) == [] && Tail([]) == []
  {
  }

  lemma MarkDecodesToNothing()
    ensures Decode(Fresh(false), MARK_BYTES) == Some((Fresh(true), []))
  {
    hide Decode;
    var one: Bytes, two: Bytes := [0xEF], [0xEF, 0xBB];
    var none: Text := [];
    assert [] + [0xEF] == one && one + [0xBB] == two && two + [0xBF] == MARK_BYTES && none + none == none;
    NothingDecoded(Fresh(false));
    DecodeOneMore(Fresh(false), [], 0xEF);
    assert Decode(Fresh(false), one) == Some((Decoder(2, 0xF, 0x80, 0xBF, false), none));
    DecodeOneMore(Fresh(false), one, 0xBB);
    assert Decode(Fresh(false), two) == Some((Decoder(1, 0x3FB, 0x80, 0xBF, false), none));
    DecodeOneMore(Fresh(false), two, 0xBF);
  }

  lemma {:induction false} NoLinesMeansAllTail(region: Bytes)
    requires Lines(region) == []
    ensures Tail(region) == region
    decreases |region|
  {
    if region != [] {
      NoLinesMeansAllTail(region[..|region| - 1]);
    }
  }

  lemma MarkIsAllTail()
    ensures Lines(MARK_BYTES) == [] && Tail(MARK_BYTES) == MARK_BYTES
  {
    hide Lines, Tail, Sizes;
    var one: Bytes, two: Bytes := [0xEF], [0xEF, 0xBB];
    NoBytesNoLines();
    SizesOneMore([], 0xEF, 3);
    SizesOneMore(one, 0xBB, 3);
    SizesOneMore(two, 0xBF, 3);
    assert [] + [0xEF] == one && one + [0xBB] == two && two + [0xBF] == MARK_BYTES;
  }

  // ---------------------------------------------------------------- the characterization

  lemma CheckedMeansWellFormed(parse: Text -> Json, region: Bytes, requireMessage: bool, max: int)
    requires Checked(parse, region, requireMessage, max).Some?
    ensures WellFormedRegion(parse, region, requireMessage, max)
    ensures Checked(parse, region, requireMessage, max).value
            == Counts(|Lines(region)|, Messages(parse, Lines(region), max))
  {
    hide Sizes, Decode, Tallied, Lines, Tail, Messages, GoodLines;
    var decoder, text := ScansReadAll(parse, region, max);
    SilentTail(Lines(region) != [], Tail(region));
    SizesBounded(0, region, max);
    if Tail(region) != [] {
      NoLinesMeansAllTail(region);
    }
  }

  lemma WellFormedMeansChecked(parse: Text -> Json, region: Bytes, requireMessage: bool, max: int)
    requires WellFormedRegion(parse, region, requireMessage, max) && max >= 1
    ensures Checked(parse, region, requireMessage, max).Some?
  {
    hide Sizes, Decode, Tallied, Lines, Tail, Messages, GoodLines;
    MarkDecodesToNothing();
    MarkIsAllTail();
    NothingDecoded(Fresh(Lines(region) != []));
    var decoder, text := GoodIsRead(parse, region, max);
  }

  /**
   * A region is accepted exactly when it consists of newline-terminated lines within the
   * limit, each valid UTF-8 and a JSON object, with a message among them when one is
   * required; the counts are those of the lines.  A region that is nothing but a byte-order
   * mark also passes when no message is required.
   */
  lemma AcceptedExactly(parse: Text -> Json, region: Bytes, requireMessage: bool, max: int)
    requires max >= 1
    ensures Checked(parse, region, requireMessage, max).Some? <==> WellFormedRegion(parse, region, requireMessage, max)
    ensures Checked(parse, region, requireMessage, max).Some? ==>
              Checked(parse, region, requireMessage, max).value
              == Counts(|Lines(region)|, Messages(parse, Lines(region), max))
  {
    hide Checked, WellFormedRegion;
    if Checked(parse, region, requireMessage, max).Some? {
      CheckedMeansWellFormed(parse, region, requireMessage, max);
    }
    if WellFormedRegion(parse, region, requireMessage, max) {
      WellFormedMeansChecked(parse, region, requireMessage, max);
    }
  }

  /** The exception is real: three bytes that hold no event pass as a fork source. */
  lemma LoneMarkIsAccepted(parse: Text -> Json)
    ensures Checked(parse, MARK_BYTES, false, MAX_TRANSCRIPT_JSONL_EVENT_BYTES) == Some(Counts(0, 0))
    ensures Checked(parse, MARK_BYTES, true, MAX_TRANSCRIPT_JSONL_EVENT_BYTES) == None
  {
    MarkIsAllTail();
    hide Checked, Lines, Tail;
    var max := MAX_TRANSCRIPT_JSONL_EVENT_BYTES;
    AcceptedExactly(parse, MARK_BYTES, false, max);
    AcceptedExactly(parse, MARK_BYTES, true, max);
  }

  // ---------------------------------------------------------------- digests, copies, receipts

  function Region(file: Bytes, start: nat, length: nat): Option<Bytes> {
    if start + length <= |file| then Some(file[start..start + length]) else None
  }

  /** Hashes a region read by read. */
  method DigestRegion(hash: Bytes -> Bytes, file: Bytes, start: nat, length: nat) returns (r: Option<Bytes>)
    ensures length > 0 || start <= |file| ==>
              r == match Region(file, start, length)
                   case None => None
                   case Some(region) => Some(hash(region))
  {
    var buffer := new Byte[if length == 0 then 1 else if length < READ_BUFFER_BYTES then length else READ_BUFFER_BYTES];
    var consumed: Bytes := [];
    var offset: nat := 0;
    while offset < length
      invariant offset <= length && |consumed| == offset
      invariant offset > 0 ==> start + offset <= |file| && consumed == file[start..start + offset]
    {
      var requested := if buffer.Length < length - offset then buffer.Length else length - offset;
      var bytesRead := ReadAt(file, buffer, requested, start + offset);
      if bytesRead == 0 {
        return None;
      }
      consumed := consumed + buffer[..bytesRead];
      offset := offset + bytesRead;
    }
    return Some(hash(consumed));
  }

  /** A write of any positive size up to what is offered. */
  method WriteAt(target: Bytes, source: array<Byte>, from: nat, to: nat, position: nat)
    returns (written: nat, after: Bytes)
    requires from < to <= source.Length && position == |target|
    ensures 0 < written <= to - from && after == target + source[from..from + written]
  {
    written :| 0 < written <= to - from;
    after := target + source[from..from + written];
  }

  /** Copies a fork source in front of an empty transcript, despite short reads and writes. */
  method CopyForkBaseline(hash: Bytes -> Bytes, source: Bytes, bytes: nat, sha256: Bytes) returns (r: Option<Bytes>)
    requires bytes > 0
    ensures r.Some? <==> bytes <= |source| && hash(source[..bytes]) == sha256
    ensures r.Some? ==> r.value == source[..bytes]
  {
    var buffer := new Byte[READ_BUFFER_BYTES];
    var target: Bytes := [];
    var offset: nat := 0;
    while offset < bytes
      invariant offset <= bytes && offset <= |source| && target == source[..offset]
    {
      var requested := if buffer.Length < bytes - offset then buffer.Length else bytes - offset;
      var bytesRead := ReadAt(source, buffer, requested, offset);
      if bytesRead == 0 {
        return None;
      }
      var written: nat := 0;
      while written < bytesRead
        invariant written <= bytesRead
        invariant target == source[..offset] + buffer[..written]
        invariant offset + bytesRead <= |source| && buffer[..bytesRead] == source[offset..offset + bytesRead]
        decreases bytesRead - written
      {
        var once;
        once, target := WriteAt(target, buffer, written, bytesRead, |target|);
        assert buffer[..written] + buffer[written..written + once] == buffer[..written + once];
        written := written + once;
      }
      assert source[..offset] + source[offset..offset + bytesRead] == source[..offset + bytesRead];
      offset := offset + bytesRead;
    }
    assert source[0..bytes] == source[..bytes] && target[0..bytes] == target;
    var observed := DigestRegion(hash, source, 0, bytes);
    var copied := DigestRegion(hash, target, 0, bytes);
    return if observed == Some(sha256) && copied == Some(sha256) then Some(target) else None;
  }

  /** What a transcript's name denotes when it is looked up, and what the file holds. */
  datatype Transcript = Transcript(device: nat, inode: nat, content: Bytes)

  /** The secured baseline of a transcript that is being written, and the file it was secured in. */
  datatype Lease = Lease(name: string, device: nat, inode: nat, baselineBytes: nat, baselineHash: Bytes)

  datatype Receipt = Receipt(
    name: string,
    device: nat,
    inode: nat,
    baselineBytes: nat,
    baselineHash: Bytes,
    finalBytes: nat,
    finalHash: Bytes,
    messages: nat)

  function Appended(parse: Text -> Json, file: Bytes, baselineBytes: nat): Option<Counts>
    requires baselineBytes <= |file|
  {
    Checked(parse, file[baselineBytes..], true, MAX_TRANSCRIPT_JSONL_EVENT_BYTES)
  }

  /** The receipt a finished transcript gets, if it gets one. */
  function Finalized(parse: Text -> Json, hash: Bytes -> Bytes, lease: Lease, found: Transcript): Option<Receipt> {
    var (file, base) := (found.content, lease.baselineBytes);
    if found.device != lease.device || found.inode != lease.inode then None
    else if |file| <= base || hash(file[..base]) != lease.baselineHash then None
    else
      match Appended(parse, file, base)
      case None => None
      case Some(counts) =>
        Some(Receipt(lease.name, found.device, found.inode, base, lease.baselineHash, |file|, hash(file),
                     counts.messages))
  }

  /** `sameFile`: the file has to be the very one the receipt was issued for. */
  predicate Verifies(parse: Text -> Json, hash: Bytes -> Bytes, receipt: Receipt, name: string, found: Transcript,
                     sameFile: bool)
  {
    var (file, base) := (found.content, receipt.baselineBytes);
    && receipt.finalBytes > base && receipt.messages >= 1 && receipt.name == name
    && |file| == receipt.finalBytes
    && (sameFile ==> found.device == receipt.device && found.inode == receipt.inode)
    && hash(file[..base]) == receipt.baselineHash && hash(file) == receipt.finalHash
    && Appended(parse, file, base).Some? && Appended(parse, file, base).value.messages == receipt.messages
  }

  /**
   * A transcript's receipt verifies on the unchanged file under its name, so the two checks agree
   * whatever their reads were.  On a copy, or under another file of the same content, it verifies
   * if and only if the file need not be the same.
   */
  lemma ReceiptVerifies(parse: Text -> Json, hash: Bytes -> Bytes, lease: Lease, found: Transcript, copy: Transcript,
                        sameFile: bool)
    requires Finalized(parse, hash, lease, found).Some? && copy.content == found.content
    ensures var receipt := Finalized(parse, hash, lease, found).value;
            Verifies(parse, hash, receipt, lease.name, copy, sameFile)
            <==> (sameFile ==> copy.device == found.device && copy.inode == found.inode)
    ensures WellFormedRegion(parse, found.content[lease.baselineBytes..], true, MAX_TRANSCRIPT_JSONL_EVENT_BYTES)
  {
    AcceptedExactly(parse, found.content[lease.baselineBytes..], true, MAX_TRANSCRIPT_JSONL_EVENT_BYTES);
    hide WellFormedRegion;
    CheckedHasMessage(parse, found.content[lease.baselineBytes..], MAX_TRANSCRIPT_JSONL_EVENT_BYTES);
    hide Checked;
  }

  /**
   * A receipt is issued exactly when the name still denotes the leased file, its baseline is the
   * one secured, and what was appended is well-formed and holds a message; this is what it says.
   */
  lemma FinalizedExactly(parse: Text -> Json, hash: Bytes -> Bytes, lease: Lease, found: Transcript)
    ensures var r := Finalized(parse, hash, lease, found);
            var (file, base) := (found.content, lease.baselineBytes);
            if && found.device == lease.device && found.inode == lease.inode
               && base < |file| && hash(file[..base]) == lease.baselineHash
               && WellFormedRegion(parse, file[base..], true, MAX_TRANSCRIPT_JSONL_EVENT_BYTES)
            then r == Some(Receipt(lease.name, lease.device, lease.inode, base, lease.baselineHash, |file|, hash(file),
                                   Messages(parse, Lines(file[base..]), MAX_TRANSCRIPT_JSONL_EVENT_BYTES)))
            else r == None
  {
    var (file, base) := (found.content, lease.baselineBytes);
    if base < |file| {
      AcceptedExactly(parse, file[base..], true, MAX_TRANSCRIPT_JSONL_EVENT_BYTES);
      RegionLines(parse, file[base..]);
    }
    hide Checked, WellFormedRegion, Messages, Lines;
  }

  lemma RegionLines(parse: Text -> Json, region: Bytes)
    ensures WellFormedRegion(parse, region, true, MAX_TRANSCRIPT_JSONL_EVENT_BYTES) ==>
              GoodLines(parse, Lines(region), MAX_TRANSCRIPT_JSONL_EVENT_BYTES)
  {
  }

  /** A receipt verifies exactly when finalization would issue the very same receipt for what is there now. */
  lemma VerifiesExactly(parse: Text -> Json, hash: Bytes -> Bytes, receipt: Receipt, name: string, found: Transcript,
                        sameFile: bool)
    ensures var lease := Lease(receipt.name, receipt.device, receipt.inode, receipt.baselineBytes,
                               receipt.baselineHash);
            Verifies(parse, hash, receipt, name, found, sameFile)
            <==> && receipt.name == name
                 && (sameFile ==> found.device == receipt.device && found.inode == receipt.inode)
                 && Finalized(parse, hash, lease, Transcript(receipt.device, receipt.inode, found.content))
                    == Some(receipt)
  {
    if receipt.baselineBytes < |found.content| {
      var region := found.content[receipt.baselineBytes..];
      if Checked(parse, region, true, MAX_TRANSCRIPT_JSONL_EVENT_BYTES).Some? {
        CheckedHasMessage(parse, region, MAX_TRANSCRIPT_JSONL_EVENT_BYTES);
      }
    }
    hide Checked;
  }

  lemma CheckedHasMessage(parse: Text -> Json, region: Bytes, max: int)
    requires Checked(parse, region, true, max).Some?
    ensures Checked(parse, region, true, max).value.messages >= 1
  {
  }

  method FinalizeTranscript(parse: Text -> Json, hash: Bytes -> Bytes, lease: Lease, found: Transcript)
    returns (r: Option<Receipt>)
    ensures r == Finalized(parse, hash, lease, found)
  {
    hide Checked;
    if found.device != lease.device || found.inode != lease.inode {
      return None;
    }
    var (file, base) := (found.content, lease.baselineBytes);
    if |file| <= base {
      return None;
    }
    assert file[0..base] == file[..base] && file[0..|file|] == file;
    assert file[base..base + (|file| - base)] == file[base..];
    var observed := DigestRegion(hash, file, 0, base);
    if observed != Some(lease.baselineHash) {
      return None;
    }
    var appended := ValidateJsonlRegion(parse, file, base, |file| - base, true, MAX_TRANSCRIPT_JSONL_EVENT_BYTES);
    if appended.Err? {
      return None;
    }
    var digest := DigestRegion(hash, file, 0, |file|);
    return Some(Receipt(lease.name, found.device, found.inode, base, lease.baselineHash, |file|, digest.value,
                        appended.value.messages));
  }

  method VerifyReceipt(parse: Text -> Json, hash: Bytes -> Bytes, receipt: Receipt, name: string, found: Transcript,
                       sameFile: bool) returns (ok: bool)
    ensures ok == Verifies(parse, hash, receipt, name, found, sameFile)
  {
    hide Checked;
    var (file, base) := (found.content, receipt.baselineBytes);
    if receipt.finalBytes <= base || receipt.messages < 1 || receipt.name != name || |file| != receipt.finalBytes {
      return false;
    }
    if sameFile && (found.device != receipt.device || found.inode != receipt.inode) {
      return false;
    }
    assert file[0..base] == file[..base] && file[0..|file|] == file;
    assert file[base..base + (|file| - base)] == file[base..];
    var observed := DigestRegion(hash, file, 0, base);
    if observed != Some(receipt.baselineHash) {
      return false;
    }
    var digest := DigestRegion(hash, file, 0, |file|);
    if digest != Some(receipt.finalHash) {
      return false;
    }
    var appended := ValidateJsonlRegion(parse, file, base, |file| - base, true, MAX_TRANSCRIPT_JSONL_EVENT_BYTES);
    return appended.Ok? && appended.value.messages == receipt.messages;
  }
}
