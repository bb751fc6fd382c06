/**
 * What reading and writing a lease journal amount to (implementer-lease-file.ts), written out:
 * which bytes are a commit line, which pairs of lines commit a revision, which journals are
 * accepted, and when a write or an initialization goes ahead.
 */
module JournalFacts {
  import opened ByteStrings
  import opened Wrappers
  import opened LeaseJournal

  // ---------------------------------------------------------------- commit lines

  const HEX_DIGITS: Bytes := [48, 49, 50, 51, 52, 53, 54, 55, 56, 57, 97, 98, 99, 100, 101, 102]

  /** A SHA-256 digest as it is written. */
  predicate Digest(b: Bytes) {
    |b| == 64 && forall i | 0 <= i < 64 :: b[i] in HEX_DIGITS
  }

  lemma HexExactly(b: Byte)
    ensures LowerHex(b) <==> b in HEX_DIGITS
  {
    if LowerHex(b) {
      assert HEX_DIGITS[if b < 58 then b - 48 else b - 87] == b;
    }
  }

  lemma DigestExactly(b: Bytes)
    ensures Digest(b) <==> |b| == 64 && forall d <- b :: LowerHex(d)
  {
    forall d: Byte ensures LowerHex(d) <==> d in HEX_DIGITS {
      HexExactly(d);
    }
    hide LowerHex;
    if Digest(b) {
      forall d <- b ensures LowerHex(d) {
        var i :| 0 <= i < |b| && b[i] == d;
      }
    }
  }

  /** A number has one decimal form only. */
  lemma {:induction false} OneDecimal(b: Bytes)
    requires Decimal(b)
    ensures Value(b) >= 0 && Digits(Value(b)) == b && (b[0] != 48 ==> Value(b) > 0)
    decreases |b|
  {
    var (front, last) := (b[..|b| - 1], b[|b| - 1]);
    assert last in b && b == front + [last];
    if front != [] {
      assert forall d <- front :: d in b;
      OneDecimal(front);
      var digit: int := last;
      var v := 10 * Value(front) + digit - 48;
      assert v / 10 == Value(front) && v % 10 == digit - 48;
    }
  }

  lemma {:induction false} FieldsJoined(b: Bytes)
    ensures var f := Fields(b);
            if |f| == 1 then b == f[0] && TAB !in b
            else
              && TAB !in f[0] && |f[0]| < |b| && b == f[0] + [TAB] + b[|f[0]| + 1..]
              && Fields(b[|f[0]| + 1..]) == f[1..]
  {
    if b != [] {
      FieldsJoined(b[1..]);
      var rest := Fields(b[1..]);
      if b[0] == TAB {
        assert b == [] + [TAB] + b[1..] && ([[]] + rest)[1..] == rest;
      } else {
        assert Fields(b)[1..] == rest[1..];
        assert b == [b[0]] + b[1..];
      }
    }
  }

  lemma {:induction false} Refolded(a: Bytes, b: Bytes, c: Bytes, d: Bytes)
    ensures a + [TAB] + (b + [TAB] + (c + [TAB] + d)) == a + [TAB] + b + [TAB] + c + [TAB] + d
  {
    var tail := c + [TAB] + d;
    assert b + [TAB] + tail == b + [TAB] + c + [TAB] + d;
    assert a + [TAB] + (b + [TAB] + tail) == a + [TAB] + b + [TAB] + tail;
    assert a + [TAB] + b + [TAB] + tail == a + [TAB] + b + [TAB] + c + [TAB] + d;
  }

  lemma FourFields(b: Bytes)
    requires |Fields(b)| == 4
    ensures var f := Fields(b); b == f[0] + [TAB] + f[1] + [TAB] + f[2] + [TAB] + f[3]
  {
    hide Fields;
    var f := Fields(b);
    FieldsJoined(b);
    var b1 := b[|f[0]| + 1..];
    FieldsJoined(b1);
    var b2 := b1[|f[1]| + 1..];
    assert f[1..][0] == f[1] && f[1..][1..] == f[2..];
    FieldsJoined(b2);
    assert f[2..][0] == f[2] && f[2..][1..] == f[3..];
    FieldsJoined(b2[|f[2]| + 1..]);
    Refolded(f[0], f[1], f[2], f[3]);
  }

  /** The bytes before the fields are looked at. */
  function Unmarked(line: Bytes): Bytes {
    if BYTE_ORDER_MARK <= line then line[3..] else line
  }

  /** A commit line says one thing in one way, up to a byte-order mark. */
  lemma ParseExactly(line: Bytes, revision: int, length: int, digest: Bytes)
    ensures ParseCommit(line) == Some(Commit(revision, length, digest))
            <==> revision >= 0 && length >= 0 && Digest(digest)
                 && Unmarked(line) == CommitText(revision, length, digest)
  {
    var text := Unmarked(line);
    DigestExactly(digest);
    if ParseCommit(line) == Some(Commit(revision, length, digest)) {
      FourFields(text);
      OneDecimal(Fields(text)[1]);
      OneDecimal(Fields(text)[2]);
      hide Digits, Value, Decimal, Fields, LowerHex;
    } else if revision >= 0 && length >= 0 && Digest(digest) && text == CommitText(revision, length, digest) {
      CommitRoundTrip(revision, length, digest);
    }
  }

  // ---------------------------------------------------------------- committed pairs

  /** The record is one this journal may hold, with everything the read checks written out. */
  predicate Fits(c: Codec, at: Place, r: Record) {
    && r.token == at.token && r.commonGitDir == at.commonGitDir && r.revision <= MAX_SAFE_INTEGER
    && c.wellFormed(r) && r.recordDigest == c.stateDigest(r)
  }

  /** Nothing changed that no write may change. */
  predicate KeepsWhatIsFixed(earlier: Record, later: Record) {
    && later.ownerPid == earlier.ownerPid && later.createdAt == earlier.createdAt && later.root == earlier.root
    && later.commonGitDir == earlier.commonGitDir && later.baselineHead == earlier.baselineHead
    && later.attemptRef == earlier.attemptRef && Joined(later.scope) == Joined(earlier.scope)
    && later.directoryIdentity == earlier.directoryIdentity && later.fileIdentity == earlier.fileIdentity
  }

  /** One line of JSON and the commit line that seals it, after the record before. */
  ghost predicate Seals(c: Codec, at: Place, last: Option<Record>, e: Stored) {
    var payload := e.line + [NEWLINE];
    && Digest(c.hash(payload)) && |payload| <= MAX_SAFE_INTEGER
    && Unmarked(e.commitLine) == CommitText(e.record.revision, |payload|, c.hash(payload))
    && c.parse(e.line) == Some(e.record) && Fits(c, at, e.record) && e.record.fileIdentity == at.file
    && (if last.Some?
        then e.record.revision == last.value.revision + 1 && KeepsWhatIsFixed(last.value, e.record)
        else e.record.revision == 0)
  }

  lemma CheckPairExactly(c: Codec, at: Place, e: Stored, last: Option<Record>)
    ensures CheckPair(c, at, e.line + [NEWLINE], e.commitLine, last) == Ok(e.record) <==> Seals(c, at, last, e)
  {
    var payload := e.line + [NEWLINE];
    assert payload[..|payload| - 1] == e.line;
    ParseExactly(e.commitLine, e.record.revision, |payload|, c.hash(payload));
    hide ParseCommit, CommitText, Unmarked, Digest, Joined;
  }

  ghost predicate AllSealed(c: Codec, at: Place, last: Option<Record>, entries: seq<Stored>)
    decreases |entries|
  {
    entries != [] ==>
      && NEWLINE !in entries[0].line && NEWLINE !in entries[0].commitLine && Seals(c, at, last, entries[0])
      && AllSealed(c, at, Some(entries[0].record), entries[1..])
  }

  /** At most one complete line, which is no commit line, and the beginning of another. */
  ghost predicate Uncommitted(tail: Bytes) {
    || NEWLINE !in tail
    || exists n | 0 <= n < |tail| ::
      tail[n] == NEWLINE && NEWLINE !in tail[..n] && NEWLINE !in tail[n + 1..] && !(COMMIT + [TAB] <= tail[..n])
  }

  lemma NoNewline(b: Bytes, from: nat)
    requires from <= |b|
    ensures Newline(b, from) == |b| <==> NEWLINE !in b[from..]
  {
    var n := Newline(b, from);
    if n == |b| {
      assert forall i | 0 <= i < |b| - from :: b[from..][i] == b[from + i];
    } else {
      assert b[from..][n - from] == NEWLINE;
    }
  }

  lemma SameNewline(b: Bytes, i: nat, j: nat)
    requires i < |b| && j < |b| && b[i] == NEWLINE && b[j] == NEWLINE
    requires (forall k | 0 <= k < i :: b[k] != NEWLINE) && forall k | 0 <= k < j :: b[k] != NEWLINE
    ensures i == j
  {
  }

  lemma UncommittedExactly(tail: Bytes)
    ensures Quiet(tail) <==> Uncommitted(tail)
  {
    NoNewline(tail, 0);
    assert tail[0..] == tail;
    var a := Newline(tail, 0);
    if a < |tail| {
      NoNewline(tail, a + 1);
      assert NEWLINE !in tail[..a];
      hide Newline;
      if Uncommitted(tail) {
        var n :| 0 <= n < |tail| && tail[n] == NEWLINE && NEWLINE !in tail[..n] && NEWLINE !in tail[n + 1..]
                 && !(COMMIT + [TAB] <= tail[..n]);
        assert forall k | 0 <= k < n :: tail[k] == tail[..n][k];
        assert forall k | 0 <= k < a :: tail[k] == tail[..a][k];
        SameNewline(tail, a, n);
      }
    }
  }

  function LastOf(entries: seq<Stored>, last: Option<Record>): Option<Record> {
    if entries == [] then last else Some(entries[|entries| - 1].record)
  }

  lemma FirstLine(raw: Bytes, offset: nat, line: Bytes, rest: Bytes)
    requires offset <= |raw| && raw[offset..] == line + [NEWLINE] + rest && NEWLINE !in line
    ensures Newline(raw, offset) == offset + |line| < |raw| && raw[offset..offset + |line|] == line
    ensures raw[offset + |line| + 1..] == rest
  {
    var at := offset + |line|;
    assert forall i | 0 <= i < |line| :: raw[offset + i] == raw[offset..][i] && raw[offset..][i] == line[i];
    assert raw[at] == raw[offset..][|line|];
    NewlineAt(raw, offset, at);
  }

  lemma {:induction false} SealedIsRead(c: Codec, at: Place, raw: Bytes, offset: nat, last: Option<Record>,
                                        entries: seq<Stored>, tail: Bytes)
    requires offset <= |raw| && raw[offset..] == Flattened(entries) + tail
    requires AllSealed(c, at, last, entries) && Quiet(tail)
    ensures |tail| <= |raw|
    ensures ReadFrom(c, at, raw, offset, last) == Finish(at, raw, |raw| - |tail|, false, LastOf(entries, last))
    decreases |entries|
  {
    hide ReadFrom, CheckPair, Newline, Seals, Quiet, Finish;
    if entries == [] {
      assert raw[offset..] == tail;
      QuietIsSkipped(c, at, raw, offset, last);
    } else {
      var (e, more) := (entries[0], Flattened(entries[1..]) + tail);
      var inner := e.commitLine + [NEWLINE] + more;
      assert raw[offset..] == e.line + [NEWLINE] + inner;
      FirstLine(raw, offset, e.line, inner);
      var middle := offset + |e.line| + 1;
      FirstLine(raw, middle, e.commitLine, more);
      PairStep(c, at, raw, offset, last);
      assert raw[offset..middle] == e.line + [NEWLINE];
      CheckPairExactly(c, at, e, last);
      SealedIsRead(c, at, raw, middle + |e.commitLine| + 1, Some(e.record), entries[1..], tail);
    }
  }

  /** The end of a read: no complete line, or one. */
  lemma EndIsQuiet(c: Codec, at: Place, raw: Bytes, offset: nat, last: Option<Record>)
    requires offset <= |raw| && ReadFrom(c, at, raw, offset, last).Ok?
    requires var a := Newline(raw, offset); a == |raw| || Newline(raw, a + 1) == |raw|
    ensures Quiet(raw[offset..])
  {
    hide Newline, CheckPair, StartsCommit;
    var (a, tail) := (Newline(raw, offset), raw[offset..]);
    NewlineShifts(raw, offset, 0);
    if a < |raw| {
      NewlineShifts(raw, offset, a + 1 - offset);
      assert raw[offset..a] == tail[..a - offset];
      assert !StartsCommit(raw[offset..a]);
    }
  }

  lemma OneMorePair(c: Codec, at: Place, raw: Bytes, offset: nat, a: nat, b: nat, last: Option<Record>, e: Stored,
                    entries: seq<Stored>, tail: Bytes)
    requires offset <= a < b < |raw| && raw[a] == NEWLINE && raw[b] == NEWLINE
    requires e.line == raw[offset..a] && e.commitLine == raw[a + 1..b] && raw[b + 1..] == Flattened(entries) + tail
    requires NEWLINE !in e.line && NEWLINE !in e.commitLine && Seals(c, at, last, e)
    requires AllSealed(c, at, Some(e.record), entries)
    ensures raw[offset..] == Flattened([e] + entries) + tail && AllSealed(c, at, last, [e] + entries)
  {
    hide Seals;
    assert ([e] + entries)[1..] == entries;
    var rest := Flattened(entries) + tail;
    assert raw[offset..] == e.line + [NEWLINE] + e.commitLine + [NEWLINE] + rest;
    assert e.line + [NEWLINE] + e.commitLine + [NEWLINE] + rest
           == e.line + [NEWLINE] + e.commitLine + [NEWLINE] + Flattened(entries) + tail;
  }

  lemma {:induction false} ReadIsSealed(c: Codec, at: Place, raw: Bytes, offset: nat, last: Option<Record>)
    returns (entries: seq<Stored>, tail: Bytes)
    requires offset <= |raw| && ReadFrom(c, at, raw, offset, last).Ok?
    ensures raw[offset..] == Flattened(entries) + tail && Quiet(tail) && AllSealed(c, at, last, entries)
    decreases |raw| - offset
  {
    hide CheckPair, Newline, Seals, ReadFrom, Quiet;
    var a := Newline(raw, offset);
    if a == |raw| || Newline(raw, a + 1) == |raw| {
      entries, tail := [], raw[offset..];
      EndIsQuiet(c, at, raw, offset, last);
    } else {
      var b := Newline(raw, a + 1);
      PairStep(c, at, raw, offset, last);
      var (line, commitLine) := (raw[offset..a], raw[a + 1..b]);
      assert raw[offset..a + 1] == line + [NEWLINE];
      var record := CheckPair(c, at, line + [NEWLINE], commitLine, last).value;
      var e := Stored(line, commitLine, record);
      CheckPairExactly(c, at, e, last);
      entries, tail := ReadIsSealed(c, at, raw, b + 1, Some(record));
      OneMorePair(c, at, raw, offset, a, b, last, e, entries, tail);
      entries := [e] + entries;
    }
  }

  /** The directory is the one on record; its link count may have changed. */
  predicate SameDirectory(observed: Identity, recorded: Identity) {
    && observed.device == recorded.device && observed.inode == recorded.inode && observed.mode == recorded.mode
    && observed.directory == recorded.directory && (!observed.directory ==> observed.links == recorded.links)
  }

  ghost predicate Holds(c: Codec, at: Place, raw: Bytes, entries: seq<Stored>, tail: Bytes) {
    && raw == Flattened(entries) + tail && entries != [] && AllSealed(c, at, None, entries) && Uncommitted(tail)
    && SameDirectory(at.directory, entries[|entries| - 1].record.directoryIdentity)
  }

  /**
   * A journal is accepted exactly when it is sealed revisions from 0 on, at least one, and an
   * uncommitted tail, in the directory on record; what is read is the last revision.
   */
  lemma JournalAcceptedExactly(c: Codec, at: Place, raw: Bytes)
    ensures ReadJournal(c, at, raw).Ok? <==> exists entries, tail :: Holds(c, at, raw, entries, tail)
    ensures forall entries: seq<Stored>, tail: Bytes | Holds(c, at, raw, entries, tail) ::
              ReadJournal(c, at, raw) == Ok(Snapshot(entries[|entries| - 1].record, |raw|, |Flattened(entries)|))
  {
    hide ReadFrom, Seals, Quiet;
    assert raw[0..] == raw;
    if ReadJournal(c, at, raw).Ok? {
      var entries, tail := ReadIsSealed(c, at, raw, 0, None);
      SealedIsRead(c, at, raw, 0, None, entries, tail);
      UncommittedExactly(tail);
      assert Holds(c, at, raw, entries, tail);
    }
    forall entries: seq<Stored>, tail: Bytes | Holds(c, at, raw, entries, tail)
      ensures ReadJournal(c, at, raw) == Ok(Snapshot(entries[|entries| - 1].record, |raw|, |Flattened(entries)|))
    {
      UncommittedExactly(tail);
      SealedIsRead(c, at, raw, 0, None, entries, tail);
      LastIsOurs(c, at, None, entries);
    }
  }

  lemma {:induction false} LastIsOurs(c: Codec, at: Place, last: Option<Record>, entries: seq<Stored>)
    requires entries != [] && AllSealed(c, at, last, entries)
    ensures entries[|entries| - 1].record.fileIdentity == at.file
    decreases |entries|
  {
    hide Fits, CommitText, Unmarked, Digest, KeepsWhatIsFixed;
    if |entries| > 1 {
      LastIsOurs(c, at, Some(entries[0].record), entries[1..]);
    }
  }

  // ---------------------------------------------------------------- writes, exactly

  /** A committed history, field by field. */
  lemma HistoryWrittenOut(c: Codec, at: Place, h: seq<Record>, i: nat)
    requires History(c, at, h) && i < |h|
    ensures h[i].revision == i && Fits(c, at, h[i]) && KeepsWhatIsFixed(h[0], h[i])
  {
    RevisionsCount(c, at, h);
    assert SameImmutable(h[0], h[i]) && Acceptable(c, at, h[i]);
  }

  /**
   * A write goes ahead exactly when the journal is accepted, its last revision is the one the
   * writer remembers and nothing fixed differs; any other write leaves the file as it is.
   */
  lemma WritesExactly(c: Codec, at: Place, raw: Bytes, record: Record, progress: Progress)
    requires at.token == record.token && at.commonGitDir == record.commonGitDir
    ensures var (after, result) := WriteJournal(c, at, raw, record, progress);
            var read := ReadJournal(c, at, raw);
            var upToDate := read.Ok? && read.value.record.revision == record.revision
                            && read.value.record.recordDigest == record.recordDigest;
            var begun := upToDate && KeepsWhatIsFixed(read.value.record, record)
                         && |Payload(c, Successor(c, record))| <= MAX_SAFE_INTEGER;
            && (result.Ok? <==> begun && progress.Completed?)
            && (result == Err(Interrupted) <==> begun && !progress.Completed?)
            && (result == Err(ContentsChanged) <==> read.Ok? && !upToDate)
            && (result == Err(ImmutableStateChanged) <==> upToDate && !KeepsWhatIsFixed(read.value.record, record))
            && (!begun ==> after == raw)
            && (result.Ok? ==>
                  && result.value == record.(revision := record.revision + 1, recordDigest := result.value.recordDigest)
                  && result.value.recordDigest == c.stateDigest(record.(revision := record.revision + 1,
                                                                        recordDigest := "")))
  {
    hide ReadJournal, Payload, Joined, Entry;
  }

  /** The first revision is written exactly into an empty file, by whom the record names, in good order. */
  lemma InitializesExactly(c: Codec, at: Place, raw: Bytes, record: Record, progress: Progress)
    requires at.token == record.token && at.commonGitDir == record.commonGitDir
    ensures var (after, result) := Initialized(c, at, raw, record, progress);
            var mine := SameDirectory(at.directory, record.directoryIdentity)
                        && SameDirectory(at.file, record.fileIdentity);
            var begun := && mine && raw == [] && record.revision == 0 && Fits(c, at, record)
                         && |Payload(c, record)| <= MAX_SAFE_INTEGER;
            && (result == Ok(record) <==> begun && progress.Completed?) && (result.Ok? ==> result == Ok(record))
            && (result == Err(Stopped) <==> begun && !progress.Completed?) && (!begun ==> after == raw)
            && (result == Err(IdentityLost) <==> !mine)
            && (result == Err(NotEmpty) <==> mine && (raw != [] || record.revision != 0))
  {
    hide Payload, Entry;
  }
}
