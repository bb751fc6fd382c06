/**
 * The implementer lease journal (implementer-lease-file.ts, with the append transaction of
 * private-path.ts): revisions are a payload line followed by a commit line that names the
 * revision, the payload's length and its digest.
 *
 * SHA-256, JSON and UTF-8 are the functions of a `Codec`; everything else is on bytes.
 * Reads and appends happen under the registry lock, so an append is one step, cut short
 * anywhere by a crash or a failed write.
 */
module LeaseJournal {
  import opened ByteStrings
  import opened Wrappers

  const TAB: Byte := 9
  const BRACE: Byte := 123
  const COMMIT: Bytes := [99, 111, 109, 109, 105, 116]
  const BYTE_ORDER_MARK: Bytes := [0xEF, 0xBB, 0xBF]
  const MAX_SAFE_INTEGER: int := 9007199254740991

  datatype Identity = Identity(device: string, inode: string, directory: bool, mode: int, links: string)

  /** `rest` stands for the fields that change from revision to revision. */
  datatype Record = Record(
    token: string,
    ownerPid: int,
    createdAt: int,
    root: string,
    commonGitDir: string,
    baselineHead: string,
    attemptRef: string,
    scope: seq<string>,
    directoryIdentity: Identity,
    fileIdentity: Identity,
    revision: nat,
    recordDigest: string,
    rest: string)

  datatype Codec = Codec(
    serialize: Record -> Bytes,
    parse: Bytes -> Option<Record>,
    hash: Bytes -> Bytes,
    stateDigest: Record -> string,
    wellFormed: Record -> bool)

  /** Where the journal is read from, and by whom it is expected to be owned. */
  datatype Place = Place(token: string, commonGitDir: string, directory: Identity, file: Identity)

  datatype Snapshot = Snapshot(record: Record, observedBytes: nat, committedBytes: nat)

  datatype ReadError =
    | MalformedCommit
    | CommitLength
    | DigestMismatch
    | MalformedState
    | NonContiguous
    | IdentityChanged
    | ImmutableChanged
    | OrphanCommit
    | NoRevision

  predicate LowerHex(b: Byte) {
    48 <= b <= 57 || 97 <= b <= 102
  }

  /** What is taken from JSON, SHA-256 and the record schema. */
  ghost predicate Sound(c: Codec) {
    && (forall r: Record :: |c.serialize(r)| > 0 && c.serialize(r)[0] == BRACE && NEWLINE !in c.serialize(r))
    && (forall r: Record :: c.parse(c.serialize(r)) == Some(r))
    && (forall b: Bytes :: |c.hash(b)| == 64 && forall d <- c.hash(b) :: LowerHex(d))
    && (forall r: Record, d: string :: c.stateDigest(r.(recordDigest := d)) == c.stateDigest(r))
    && (forall r: Record, n: nat, d: string ::
          c.wellFormed(r.(revision := n, recordDigest := d)) == c.wellFormed(r))
  }

  // ---------------------------------------------------------------- records

  function Joined(scope: seq<string>): string {
    if scope == [] then ""
    else if |scope| == 1 then scope[0]
    else scope[0] + ['\0'] + Joined(scope[1..])
  }

  /** The fields no write may change; the scope is compared as one joined string. */
  predicate SameImmutable(previous: Record, current: Record) {
    && previous.directoryIdentity == current.directoryIdentity
    && previous.fileIdentity == current.fileIdentity
    && previous.ownerPid == current.ownerPid
    && previous.createdAt == current.createdAt
    && previous.root == current.root
    && previous.commonGitDir == current.commonGitDir
    && previous.baselineHead == current.baselineHead
    && previous.attemptRef == current.attemptRef
    && Joined(previous.scope) == Joined(current.scope)
  }

  predicate Acceptable(c: Codec, at: Place, r: Record) {
    && r.token == at.token && r.commonGitDir == at.commonGitDir
    && r.revision <= MAX_SAFE_INTEGER
    && c.wellFormed(r) && r.recordDigest == c.stateDigest(r)
  }

  /** The link count of a directory is not part of who owns it. */
  predicate SameOwner(observed: Identity, recorded: Identity) {
    && observed.device == recorded.device && observed.inode == recorded.inode
    && observed.directory == recorded.directory && observed.mode == recorded.mode
    && (observed.directory || observed.links == recorded.links)
  }

  // ---------------------------------------------------------------- commit lines

  function Digits(n: nat): Bytes {
    if n < 10 then [48 + n] else Digits(n / 10) + [48 + n % 10]
  }

  predicate Decimal(b: Bytes) {
    b != [] && (forall d <- b :: 48 <= d <= 57) && (|b| > 1 ==> b[0] != 48)
  }

  function Value(b: Bytes): int {
    if b == [] then 0
    else
      var digit: int := b[|b| - 1];
      10 * Value(b[..|b| - 1]) + digit - 48
  }

  function Fields(b: Bytes): seq<Bytes>
    ensures |Fields(b)| > 0
  {
    if b == [] then [[]]
    else
      var rest := Fields(b[1..]);
      if b[0] == TAB then [[]] + rest else [[b[0]] + rest[0]] + rest[1..]
  }

  datatype Commit = Commit(revision: int, length: int, digest: Bytes)

  /** Decoding drops one leading byte-order mark, and then everything must be ASCII. */
  function ParseCommit(line: Bytes): Option<Commit> {
    var text := if BYTE_ORDER_MARK <= line then line[3..] else line;
    var fields := Fields(text);
    if && |fields| == 4 && fields[0] == COMMIT && Decimal(fields[1]) && Decimal(fields[2])
       && |fields[3]| == 64 && forall d <- fields[3] :: LowerHex(d)
    then Some(Commit(Value(fields[1]), Value(fields[2]), fields[3]))
    else None
  }

  function CommitText(revision: nat, length: nat, digest: Bytes): Bytes {
    COMMIT + [TAB] + Digits(revision) + [TAB] + Digits(length) + [TAB] + digest
  }

  // ---------------------------------------------------------------- reading

  function Newline(raw: Bytes, from: nat): (at: nat)
    requires from <= |raw|
    ensures from <= at <= |raw|
    ensures forall i | from <= i < at :: raw[i] != NEWLINE
    ensures at < |raw| ==> raw[at] == NEWLINE
    decreases |raw| - from
  {
    if from == |raw| || raw[from] == NEWLINE then from else Newline(raw, from + 1)
  }

  /** One payload line and the commit line after it; `last` is the record read before them. */
  function CheckPair(c: Codec, at: Place, payload: Bytes, commitLine: Bytes, last: Option<Record>)
    : Result<Record, ReadError>
    requires payload != []
  {
    var commit := ParseCommit(commitLine);
    if commit.None? then Err(MalformedCommit)
    else if commit.value.revision > MAX_SAFE_INTEGER || commit.value.length > MAX_SAFE_INTEGER
            || commit.value.length != |payload| then Err(CommitLength)
    else if c.hash(payload) != commit.value.digest then Err(DigestMismatch)
    else
      var parsed := c.parse(payload[..|payload| - 1]);
      if parsed.None? || !Acceptable(c, at, parsed.value) then Err(MalformedState)
      else
        var (current, expected) := (parsed.value, if last.Some? then last.value.revision + 1 else 0);
        if commit.value.revision != expected || current.revision != commit.value.revision then Err(NonContiguous)
        else if at.file != current.fileIdentity then Err(IdentityChanged)
        else if last.Some? && !SameImmutable(last.value, current) then Err(ImmutableChanged)
        else Ok(current)
  }

  function Finish(at: Place, raw: Bytes, offset: nat, orphan: bool, last: Option<Record>): Result<Snapshot, ReadError> {
    if orphan then Err(OrphanCommit)
    else if last.None? then Err(NoRevision)
    else if !SameOwner(at.directory, last.value.directoryIdentity) || !SameOwner(at.file, last.value.fileIdentity)
    then Err(IdentityChanged)
    else Ok(Snapshot(last.value, |raw|, offset))
  }

  predicate StartsCommit(line: Bytes) {
    COMMIT + [TAB] <= line
  }

  /** Reads on from a line boundary, two complete lines at a time. */
  function ReadFrom(c: Codec, at: Place, raw: Bytes, offset: nat, last: Option<Record>): Result<Snapshot, ReadError>
    requires offset <= |raw|
    decreases |raw| - offset
  {
    var a := Newline(raw, offset);
    if a == |raw| then Finish(at, raw, offset, false, last)
    else
      var b := Newline(raw, a + 1);
      if b == |raw| then Finish(at, raw, offset, StartsCommit(raw[offset..a]), last)
      else
        match CheckPair(c, at, raw[offset..a + 1], raw[a + 1..b], last)
        case Err(e) => Err(e)
        case Ok(current) => ReadFrom(c, at, raw, b + 1, Some(current))
  }

  function ReadJournal(c: Codec, at: Place, raw: Bytes): Result<Snapshot, ReadError> {
    ReadFrom(c, at, raw, 0, None)
  }

  // ---------------------------------------------------------------- writing

  datatype WriteError =
    | Unreadable(error: ReadError)
    | ContentsChanged
    | ImmutableStateChanged
    | PayloadTooLong
    | Interrupted

  /** How far one append gets: not begun, the tail trimmed and k bytes written, or completed. */
  datatype Progress = NotBegun | Cut(written: nat) | Completed

  function Payload(c: Codec, r: Record): Bytes {
    c.serialize(r) + [NEWLINE]
  }

  function CommitLine(c: Codec, r: Record): Bytes
  {
    CommitText(r.revision, |Payload(c, r)|, c.hash(Payload(c, r))) + [NEWLINE]
  }

  function Entry(c: Codec, r: Record): Bytes
  {
    Payload(c, r) + CommitLine(c, r)
  }

  function Successor(c: Codec, r: Record): Record {
    var next := r.(revision := r.revision + 1, recordDigest := "");
    next.(recordDigest := c.stateDigest(next))
  }

  /** What an append of `entry` leaves on disk when it stops at `progress`. */
  function Appended(raw: Bytes, committed: nat, entry: Bytes, progress: Progress): Bytes
    requires committed <= |raw|
  {
    match progress
    case NotBegun => raw
    case Cut(written) => raw[..committed] + if written < |entry| then entry[..written] else entry
    case Completed => raw[..committed] + entry
  }

  /** One write by a process that remembers `record`; what it remembers afterwards comes back. */
  function WriteJournal(c: Codec, at: Place, raw: Bytes, record: Record, progress: Progress)
    : (Bytes, Result<Record, WriteError>)
    requires at.token == record.token && at.commonGitDir == record.commonGitDir
  {
    match ReadJournal(c, at, raw)
    case Err(e) => (raw, Err(Unreadable(e)))
    case Ok(persisted) =>
      SnapshotWithin(c, at, raw, 0, None);
      if persisted.record.revision != record.revision || persisted.record.recordDigest != record.recordDigest
      then (raw, Err(ContentsChanged))
      else if !SameImmutable(persisted.record, record) then (raw, Err(ImmutableStateChanged))
      else if |Payload(c, Successor(c, record))| > MAX_SAFE_INTEGER then (raw, Err(PayloadTooLong))
      else
        ReadIsAcceptable(c, at, raw, 0, None);
        var next := Successor(c, record);
        (Appended(raw, persisted.committedBytes, Entry(c, next), progress),
         if progress.Completed? then Ok(next) else Err(Interrupted))
  }

  lemma PairStep(c: Codec, at: Place, raw: Bytes, offset: nat, last: Option<Record>)
    requires offset <= |raw| && Newline(raw, offset) < |raw| && Newline(raw, Newline(raw, offset) + 1) < |raw|
    ensures var a := Newline(raw, offset);
            var b := Newline(raw, a + 1);
            ReadFrom(c, at, raw, offset, last) ==
            match CheckPair(c, at, raw[offset..a + 1], raw[a + 1..b], last)
            case Err(e) => Err(e)
            case Ok(current) => ReadFrom(c, at, raw, b + 1, Some(current))
  {
    hide CheckPair, Newline;
  }

  lemma {:induction false} SnapshotWithin(c: Codec, at: Place, raw: Bytes, offset: nat, last: Option<Record>)
    requires offset <= |raw|
    ensures var r := ReadFrom(c, at, raw, offset, last);
            r.Ok? ==> r.value.observedBytes == |raw| && offset <= r.value.committedBytes <= |raw|
    decreases |raw| - offset
  {
    hide CheckPair, Newline;
    var a := Newline(raw, offset);
    if a < |raw| && Newline(raw, a + 1) < |raw| {
      hide ReadFrom;
      var b := Newline(raw, a + 1);
      PairStep(c, at, raw, offset, last);
      match CheckPair(c, at, raw[offset..a + 1], raw[a + 1..b], last)
      case Err(_) =>
      case Ok(current) => SnapshotWithin(c, at, raw, b + 1, Some(current));
    }
  }

  lemma CheckedIsAcceptable(c: Codec, at: Place, payload: Bytes, commitLine: Bytes, last: Option<Record>)
    requires payload != []
    ensures var r := CheckPair(c, at, payload, commitLine, last); r.Ok? ==> Acceptable(c, at, r.value)
  {
    hide Acceptable, SameImmutable, ParseCommit;
  }

  lemma {:induction false} ReadIsAcceptable(c: Codec, at: Place, raw: Bytes, offset: nat, last: Option<Record>)
    requires offset <= |raw| && (last.Some? ==> Acceptable(c, at, last.value))
    ensures var r := ReadFrom(c, at, raw, offset, last); r.Ok? ==> Acceptable(c, at, r.value.record)
    decreases |raw| - offset
  {
    hide CheckPair, Newline, Acceptable;
    var a := Newline(raw, offset);
    if a < |raw| && Newline(raw, a + 1) < |raw| {
      hide ReadFrom;
      var b := Newline(raw, a + 1);
      PairStep(c, at, raw, offset, last);
      CheckedIsAcceptable(c, at, raw[offset..a + 1], raw[a + 1..b], last);
      match CheckPair(c, at, raw[offset..a + 1], raw[a + 1..b], last)
      case Err(_) =>
      case Ok(current) => ReadIsAcceptable(c, at, raw, b + 1, Some(current));
    }
  }

  // ---------------------------------------------------------------- commit lines round-trip

  lemma {:induction false} DigitsRoundTrip(n: nat)
    ensures Decimal(Digits(n)) && Value(Digits(n)) == n && (n > 0 ==> Digits(n)[0] != 48)
    ensures forall d <- Digits(n) :: d != TAB && d != NEWLINE
  {
    if n >= 10 {
      DigitsRoundTrip(n / 10);
      assert Digits(n)[..|Digits(n)| - 1] == Digits(n / 10);
    }
  }

  lemma {:induction false} FieldsOfText(x: Bytes, y: Bytes)
    requires TAB !in x
    ensures Fields(x + [TAB] + y) == [x] + Fields(y)
  {
    if x == [] {
      assert x + [TAB] + y == [TAB] + y;
    } else {
      assert x[0] in x && [x[0]] + x[1..] == x;
      assert (x + [TAB] + y)[1..] == x[1..] + [TAB] + y;
      FieldsOfText(x[1..], y);
    }
  }

  lemma {:induction false} OneField(x: Bytes)
    requires TAB !in x
    ensures Fields(x) == [x]
  {
    if x != [] {
      assert x[0] in x && [x[0]] + x[1..] == x;
      OneField(x[1..]);
    }
  }

  lemma CommitRoundTrip(revision: nat, length: nat, digest: Bytes)
    requires |digest| == 64 && forall d <- digest :: LowerHex(d)
    ensures ParseCommit(CommitText(revision, length, digest)) == Some(Commit(revision, length, digest))
  {
    DigitsRoundTrip(revision);
    DigitsRoundTrip(length);
    var (r, l) := (Digits(revision), Digits(length));
    hide Digits, Value, Decimal;
    CommitFields(r, l, digest);
    assert CommitText(revision, length, digest)[0] == 99;
  }

  lemma CommitFields(r: Bytes, l: Bytes, digest: Bytes)
    requires TAB !in r && TAB !in l && TAB !in digest
    ensures Fields(COMMIT + [TAB] + r + [TAB] + l + [TAB] + digest) == [COMMIT, r, l, digest]
  {
    hide Fields;
    var rest := r + [TAB] + (l + [TAB] + digest);
    assert COMMIT + [TAB] + r + [TAB] + l + [TAB] + digest == COMMIT + [TAB] + rest;
    FieldsOfText(COMMIT, rest);
    FieldsOfText(r, l + [TAB] + digest);
    FieldsOfText(l, digest);
    OneField(digest);
  }

  lemma CommitHasNoNewline(revision: nat, length: nat, digest: Bytes)
    requires forall d <- digest :: LowerHex(d)
    ensures NEWLINE !in CommitText(revision, length, digest)
  {
    DigitsRoundTrip(revision);
    DigitsRoundTrip(length);
    hide Digits;
  }

  // ---------------------------------------------------------------- whole journals

  function Journal(c: Codec, h: seq<Record>): Bytes
  {
    if h == [] then [] else Journal(c, h[..|h| - 1]) + Entry(c, h[|h| - 1])
  }

  /** `r` may follow `last` in a journal kept at this place. */
  ghost predicate Follows(c: Codec, at: Place, last: Option<Record>, r: Record) {
    && Acceptable(c, at, r) && |Payload(c, r)| <= MAX_SAFE_INTEGER
    && r.revision == (if last.Some? then last.value.revision + 1 else 0)
    && r.fileIdentity == at.file && SameOwner(at.directory, r.directoryIdentity)
    && (last.Some? ==> SameImmutable(last.value, r))
  }

  function Last(h: seq<Record>): Option<Record> {
    if h == [] then None else Some(h[|h| - 1])
  }

  /** Committed revisions: 0, 1, 2 and so on, each a lawful successor of the one before. */
  ghost predicate History(c: Codec, at: Place, h: seq<Record>)
    decreases |h|
  {
    h != [] ==> History(c, at, h[..|h| - 1]) && Follows(c, at, Last(h[..|h| - 1]), h[|h| - 1])
  }

  lemma {:induction false} RevisionsCount(c: Codec, at: Place, h: seq<Record>)
    requires History(c, at, h)
    ensures forall i | 0 <= i < |h| :: h[i].revision == i
    ensures forall i | 0 <= i < |h| :: SameImmutable(h[0], h[i]) && Acceptable(c, at, h[i])
    decreases |h|
  {
    if h != [] {
      var before := h[..|h| - 1];
      RevisionsCount(c, at, before);
      forall i | 0 <= i < |h|
        ensures h[i].revision == i && SameImmutable(h[0], h[i]) && Acceptable(c, at, h[i])
      {
        assert i < |before| ==> h[i] == before[i];
        assert before != [] ==> before[0] == h[0] && SameImmutable(h[0], before[|before| - 1]);
      }
    }
  }

  lemma NewlineAt(raw: Bytes, from: nat, at: nat)
    requires from <= at < |raw| && raw[at] == NEWLINE && forall i | from <= i < at :: raw[i] != NEWLINE
    ensures Newline(raw, from) == at
  {
  }

  /** The checks a committed entry passes. */
  lemma EntryPasses(c: Codec, at: Place, last: Option<Record>, r: Record)
    requires Sound(c) && Follows(c, at, last, r)
    ensures CheckPair(c, at, Payload(c, r), CommitText(r.revision, |Payload(c, r)|, c.hash(Payload(c, r))), last)
        == Ok(r)
  {
    CommitRoundTrip(r.revision, |Payload(c, r)|, c.hash(Payload(c, r)));
    hide ParseCommit, CommitText, SameImmutable;
    assert Payload(c, r)[..|Payload(c, r)| - 1] == c.serialize(r);
  }

  lemma EntryByBytes(raw: Bytes, offset: nat, line: Bytes, text: Bytes)
    requires var entry := line + [NEWLINE] + text + [NEWLINE];
             offset + |entry| <= |raw| && raw[offset..offset + |entry|] == entry
    ensures forall i | offset <= i < offset + |line| :: raw[i] == line[i - offset]
    ensures raw[offset + |line|] == NEWLINE
    ensures forall i | offset + |line| < i <= offset + |line| + |text| :: raw[i] == text[i - offset - |line| - 1]
    ensures raw[offset + |line| + 1 + |text|] == NEWLINE
  {
    var entry := line + [NEWLINE] + text + [NEWLINE];
    assert forall i | 0 <= i < |entry| :: entry[i] == raw[offset + i];
    forall i | offset <= i < offset + |line| ensures raw[i] == line[i - offset] {
      assert entry[i - offset] == line[i - offset];
    }
    forall i | offset + |line| < i <= offset + |line| + |text| ensures raw[i] == text[i - offset - |line| - 1] {
      assert entry[i - offset] == text[i - offset - |line| - 1];
    }
    assert entry[|line|] == NEWLINE && entry[|line| + 1 + |text|] == NEWLINE;
  }

  lemma TwoLines(raw: Bytes, offset: nat, line: Bytes, text: Bytes)
    requires NEWLINE !in line && NEWLINE !in text
    requires var entry := line + [NEWLINE] + text + [NEWLINE];
             offset + |entry| <= |raw| && raw[offset..offset + |entry|] == entry
    ensures var a := Newline(raw, offset);
            && a == offset + |line| < |raw| && raw[offset..a + 1] == line + [NEWLINE]
            && Newline(raw, a + 1) == a + 1 + |text| < |raw| && raw[a + 1..a + 1 + |text|] == text
  {
    EntryByBytes(raw, offset, line, text);
    var a := offset + |line|;
    NewlineAt(raw, offset, a);
    NewlineAt(raw, a + 1, a + 1 + |text|);
  }

  lemma EntryLines(c: Codec, raw: Bytes, offset: nat, r: Record)
    requires Sound(c)
    requires offset + |Entry(c, r)| <= |raw| && raw[offset..offset + |Entry(c, r)|] == Entry(c, r)
    ensures var (payload, text) := (Payload(c, r), CommitText(r.revision, |Payload(c, r)|, c.hash(Payload(c, r))));
            var a := Newline(raw, offset);
            && a < |raw| && raw[offset..a + 1] == payload
            && Newline(raw, a + 1) == a + 1 + |text| < |raw|
            && raw[a + 1..a + 1 + |text|] == text && a + 2 + |text| == offset + |Entry(c, r)|
  {
    var text := CommitText(r.revision, |Payload(c, r)|, c.hash(Payload(c, r)));
    CommitHasNoNewline(r.revision, |Payload(c, r)|, c.hash(Payload(c, r)));
    hide CommitText, Newline;
    assert Entry(c, r) == c.serialize(r) + [NEWLINE] + text + [NEWLINE];
    TwoLines(raw, offset, c.serialize(r), text);
  }

  /** Reading on from a committed entry moves past it with its record in hand. */
  lemma EntryIsRead(c: Codec, at: Place, raw: Bytes, offset: nat, last: Option<Record>, r: Record)
    requires Sound(c) && Follows(c, at, last, r)
    requires offset + |Entry(c, r)| <= |raw| && raw[offset..offset + |Entry(c, r)|] == Entry(c, r)
    ensures ReadFrom(c, at, raw, offset, last) == ReadFrom(c, at, raw, offset + |Entry(c, r)|, Some(r))
  {
    hide CheckPair, CommitText, Entry, Follows, Sound, Newline, Payload;
    EntryLines(c, raw, offset, r);
    EntryPasses(c, at, last, r);
    PayloadNotEmpty(c, r);
  }

  lemma PayloadNotEmpty(c: Codec, r: Record)
    ensures Payload(c, r) != []
  {
  }

  lemma {:induction false} HistoryIsRead(c: Codec, at: Place, h: seq<Record>, tail: Bytes)
    requires Sound(c) && History(c, at, h)
    ensures var raw := Journal(c, h) + tail;
            ReadJournal(c, at, raw) == ReadFrom(c, at, raw, |Journal(c, h)|, Last(h))
    decreases |h|
  {
    hide ReadFrom, Sound, Follows, Entry;
    if h != [] {
      var (before, r) := (h[..|h| - 1], h[|h| - 1]);
      var (j, entry) := (Journal(c, before), Entry(c, r));
      HistoryIsRead(c, at, before, entry + tail);
      Middle(j, entry, tail);
      EntryIsRead(c, at, j + entry + tail, |j|, Last(before), r);
    }
  }

  lemma Middle(x: Bytes, y: Bytes, z: Bytes)
    ensures x + y + z == x + (y + z) && (x + y + z)[|x|..|x| + |y|] == y
  {
  }

  /** A tail that holds no committed pair and no commit line on its own. */
  ghost predicate Quiet(tail: Bytes) {
    var a := Newline(tail, 0);
    a == |tail| || (Newline(tail, a + 1) == |tail| && !StartsCommit(tail[..a]))
  }

  lemma {:induction false} NewlineShifts(raw: Bytes, offset: nat, from: nat)
    requires offset <= |raw| && from <= |raw| - offset
    ensures Newline(raw, offset + from) == offset + Newline(raw[offset..], from)
    decreases |raw| - offset - from
  {
    if offset + from < |raw| && raw[offset + from] != NEWLINE {
      NewlineShifts(raw, offset, from + 1);
    }
  }

  lemma QuietIsSkipped(c: Codec, at: Place, raw: Bytes, offset: nat, last: Option<Record>)
    requires offset <= |raw| && Quiet(raw[offset..])
    ensures ReadFrom(c, at, raw, offset, last) == Finish(at, raw, offset, false, last)
  {
    var tail := raw[offset..];
    NewlineShifts(raw, offset, 0);
    var a := Newline(tail, 0);
    if a < |tail| {
      NewlineShifts(raw, offset, a + 1);
      assert raw[offset..offset + a] == tail[..a];
    }
  }

  /** A journal with an uncommitted tail reads as its last committed revision. */
  lemma ReadsLastCommitted(c: Codec, at: Place, h: seq<Record>, tail: Bytes)
    requires Sound(c) && History(c, at, h) && h != [] && Quiet(tail) && SameOwner(at.file, at.file)
    ensures var raw := Journal(c, h) + tail;
            ReadJournal(c, at, raw) == Ok(Snapshot(h[|h| - 1], |raw|, |Journal(c, h)|))
  {
    HistoryIsRead(c, at, h, tail);
    var raw := Journal(c, h) + tail;
    assert raw[|Journal(c, h)|..] == tail;
    hide Sound, Journal, Entry, Acceptable, SameImmutable, ReadFrom;
    QuietIsSkipped(c, at, raw, |Journal(c, h)|, Last(h));
  }

  /** Whatever an interrupted append leaves of one entry is a quiet tail. */
  lemma PrefixIsQuiet(c: Codec, r: Record, k: nat)
    requires Sound(c) && k < |Entry(c, r)|
    ensures Quiet(Entry(c, r)[..k])
  {
    var (line, text) := (c.serialize(r), CommitText(r.revision, |Payload(c, r)|, c.hash(Payload(c, r))));
    var tail := Entry(c, r)[..k];
    CommitHasNoNewline(r.revision, |Payload(c, r)|, c.hash(Payload(c, r)));
    hide CommitText;
    assert Entry(c, r) == line + [NEWLINE] + text + [NEWLINE];
    if k <= |line| {
      assert forall i | 0 <= i < k :: tail[i] == line[i];
    } else {
      assert tail[..|line|] == line && tail[|line|] == NEWLINE;
      assert forall i | 0 <= i < |line| :: tail[i] == line[i];
      NewlineAt(tail, 0, |line|);
      assert tail[..|line|][0] == BRACE;
      forall i | |line| + 1 <= i < k ensures tail[i] != NEWLINE {
        assert tail[i] == text[i - |line| - 1];
      }
    }
  }

  // ---------------------------------------------------------------- what an accepted journal holds

  datatype Stored = Stored(line: Bytes, commitLine: Bytes, record: Record)

  /** One committed revision as it lies on disk. */
  ghost predicate Committed(c: Codec, at: Place, last: Option<Record>, e: Stored) {
    && NEWLINE !in e.line && NEWLINE !in e.commitLine
    && ParseCommit(e.commitLine)
       == Some(Commit(e.record.revision, |e.line| + 1, c.hash(e.line + [NEWLINE])))
    && c.parse(e.line) == Some(e.record) && Acceptable(c, at, e.record)
    && e.record.revision == (if last.Some? then last.value.revision + 1 else 0)
    && e.record.fileIdentity == at.file
    && (last.Some? ==> SameImmutable(last.value, e.record))
  }

  ghost predicate AllCommitted(c: Codec, at: Place, last: Option<Record>, entries: seq<Stored>)
    decreases |entries|
  {
    entries != [] ==>
      Committed(c, at, last, entries[0]) && AllCommitted(c, at, Some(entries[0].record), entries[1..])
  }

  function Flattened(entries: seq<Stored>): Bytes {
    if entries == [] then []
    else entries[0].line + [NEWLINE] + entries[0].commitLine + [NEWLINE] + Flattened(entries[1..])
  }

  lemma PassedIsCommitted(c: Codec, at: Place, line: Bytes, commitLine: Bytes, last: Option<Record>)
    requires NEWLINE !in line && NEWLINE !in commitLine
    ensures var r := CheckPair(c, at, line + [NEWLINE], commitLine, last);
            r.Ok? ==> Committed(c, at, last, Stored(line, commitLine, r.value))
  {
    hide ParseCommit, Acceptable, SameImmutable;
    assert (line + [NEWLINE])[..|line|] == line;
  }

  lemma SplitsAtLines(raw: Bytes, offset: nat, a: nat, b: nat)
    requires offset <= a < b < |raw| && raw[a] == NEWLINE && raw[b] == NEWLINE
    ensures raw[offset..] == raw[offset..a] + [NEWLINE] + raw[a + 1..b] + [NEWLINE] + raw[b + 1..]
    ensures raw[offset..a + 1] == raw[offset..a] + [NEWLINE]
  {
  }

  lemma TailIsQuiet(raw: Bytes, offset: nat)
    requires offset <= |raw|
    requires var a := Newline(raw, offset);
             a == |raw| || (Newline(raw, a + 1) == |raw| && !StartsCommit(raw[offset..a]))
    ensures Quiet(raw[offset..])
  {
    var (tail, a) := (raw[offset..], Newline(raw, offset));
    NewlineShifts(raw, offset, 0);
    if a < |raw| {
      NewlineShifts(raw, offset, a - offset + 1);
      assert tail[..a - offset] == raw[offset..a];
    }
  }

  lemma FinishedQuietly(c: Codec, at: Place, raw: Bytes, offset: nat, last: Option<Record>)
    requires offset <= |raw| && ReadFrom(c, at, raw, offset, last).Ok?
    requires var a := Newline(raw, offset); a == |raw| || Newline(raw, a + 1) == |raw|
    ensures Quiet(raw[offset..]) && last.Some? && Flattened([]) == [] && [] + raw[offset..] == raw[offset..]
    ensures ReadFrom(c, at, raw, offset, last).value == Snapshot(last.value, |raw|, offset)
  {
    hide CheckPair, Newline;
    TailIsQuiet(raw, offset);
  }

  /** One more committed pair: how the bytes split there, and that reading goes on behind it. */
  lemma AcceptedStep(c: Codec, at: Place, raw: Bytes, offset: nat, last: Option<Record>) returns (e: Stored, next: nat)
    requires offset <= |raw| && ReadFrom(c, at, raw, offset, last).Ok?
    requires var a := Newline(raw, offset); a < |raw| && Newline(raw, a + 1) < |raw|
    ensures offset < next <= |raw| && next == offset + |e.line| + |e.commitLine| + 2
    ensures raw[offset..] == e.line + [NEWLINE] + e.commitLine + [NEWLINE] + raw[next..]
    ensures Committed(c, at, last, e)
    ensures ReadFrom(c, at, raw, offset, last) == ReadFrom(c, at, raw, next, Some(e.record))
  {
    hide CheckPair, Committed, ReadFrom, Newline;
    var a := Newline(raw, offset);
    var b := Newline(raw, a + 1);
    PairStep(c, at, raw, offset, last);
    SplitsAtLines(raw, offset, a, b);
    PassedIsCommitted(c, at, raw[offset..a], raw[a + 1..b], last);
    e := Stored(raw[offset..a], raw[a + 1..b], CheckPair(c, at, raw[offset..a + 1], raw[a + 1..b], last).value);
    next := b + 1;
  }

  lemma {:induction false} AcceptedFrom(c: Codec, at: Place, raw: Bytes, offset: nat, last: Option<Record>)
    returns (entries: seq<Stored>, tail: Bytes)
    requires offset <= |raw| && ReadFrom(c, at, raw, offset, last).Ok?
    ensures raw[offset..] == Flattened(entries) + tail && Quiet(tail) && AllCommitted(c, at, last, entries)
    ensures var got := ReadFrom(c, at, raw, offset, last).value;
            && got.committedBytes == offset + |Flattened(entries)|
            && Some(got.record) == if entries == [] then last else Some(entries[|entries| - 1].record)
    decreases |raw| - offset
  {
    hide ReadFrom, Committed, Newline, Flattened, Quiet;
    var a := Newline(raw, offset);
    if a == |raw| || Newline(raw, a + 1) == |raw| {
      entries, tail := [], raw[offset..];
      FinishedQuietly(c, at, raw, offset, last);
    } else {
      var first, next := AcceptedStep(c, at, raw, offset, last);
      var rest;
      rest, tail := AcceptedFrom(c, at, raw, next, Some(first.record));
      entries := [first] + rest;
      FlattenedPrepends(first, rest, tail);
    }
  }

  lemma FlattenedPrepends(first: Stored, rest: seq<Stored>, tail: Bytes)
    ensures ([first] + rest)[1..] == rest && ([first] + rest)[0] == first
    ensures first.line + [NEWLINE] + first.commitLine + [NEWLINE] + (Flattened(rest) + tail)
            == Flattened([first] + rest) + tail
    ensures |Flattened([first] + rest)| == |first.line| + |first.commitLine| + 2 + |Flattened(rest)|
  {
    assert ([first] + rest)[1..] == rest;
  }

  /**
   * A journal that is read without an error is a sequence of committed revisions, each with a
   * commit line naming its own revision, length and digest, followed by an uncommitted tail.
   */
  lemma AcceptedIsCommitted(c: Codec, at: Place, raw: Bytes) returns (entries: seq<Stored>, tail: Bytes)
    requires ReadJournal(c, at, raw).Ok?
    ensures raw == Flattened(entries) + tail && Quiet(tail) && AllCommitted(c, at, None, entries) && entries != []
    ensures ReadJournal(c, at, raw).value == Snapshot(entries[|entries| - 1].record, |raw|, |Flattened(entries)|)
  {
    entries, tail := AcceptedFrom(c, at, raw, 0, None);
    SnapshotWithin(c, at, raw, 0, None);
    assert raw[0..] == raw;
  }

  /** A commit line left without its payload is an error. */
  lemma OrphanIsRefused(c: Codec, at: Place, h: seq<Record>, line: Bytes)
    requires Sound(c) && History(c, at, h) && NEWLINE !in line && StartsCommit(line)
    ensures ReadJournal(c, at, Journal(c, h) + (line + [NEWLINE])) == Err(OrphanCommit)
  {
    var tail := line + [NEWLINE];
    var (raw, offset) := (Journal(c, h) + tail, |Journal(c, h)|);
    hide Journal, ReadFrom, Sound, History, StartsCommit;
    HistoryIsRead(c, at, h, tail);
    assert raw[offset..offset + |line|] == line;
    LoneLine(raw, offset, line);
    LoneLineEnds(c, at, raw, offset, Last(h), line);
  }

  lemma LoneLine(raw: Bytes, offset: nat, line: Bytes)
    requires offset + |line| + 1 == |raw| && raw[offset..offset + |line|] == line && raw[|raw| - 1] == NEWLINE
    requires NEWLINE !in line
    ensures Newline(raw, offset) == |raw| - 1 && Newline(raw, |raw|) == |raw|
  {
    forall i | offset <= i < offset + |line| ensures raw[i] != NEWLINE {
      assert raw[i] == line[i - offset];
    }
    NewlineAt(raw, offset, |raw| - 1);
  }

  lemma LoneLineEnds(c: Codec, at: Place, raw: Bytes, offset: nat, last: Option<Record>, line: Bytes)
    requires offset < |raw| && Newline(raw, offset) == |raw| - 1 && Newline(raw, |raw|) == |raw|
    requires raw[offset..|raw| - 1] == line && StartsCommit(line)
    ensures ReadFrom(c, at, raw, offset, last) == Err(OrphanCommit)
  {
    hide Newline, CheckPair;
  }

  // ---------------------------------------------------------------- one write

  lemma SuccessorFollows(c: Codec, at: Place, h: seq<Record>, record: Record)
    requires Sound(c) && History(c, at, h) && h != [] && c.wellFormed(record)
    requires at.token == record.token && at.commonGitDir == record.commonGitDir
    requires h[|h| - 1].revision == record.revision && SameImmutable(h[|h| - 1], record)
    requires record.revision + 1 <= MAX_SAFE_INTEGER && |Payload(c, Successor(c, record))| <= MAX_SAFE_INTEGER
    ensures History(c, at, h + [Successor(c, record)])
  {
    var next := Successor(c, record);
    assert (h + [next])[..|h|] == h;
    var bare := record.(revision := record.revision + 1, recordDigest := "");
    assert next == bare.(recordDigest := c.stateDigest(bare));
  }

  lemma JournalGrows(c: Codec, h: seq<Record>, r: Record)
    ensures Journal(c, h + [r]) == Journal(c, h) + Entry(c, r)
  {
    assert (h + [r])[..|h|] == h;
  }

  ghost predicate Writer(c: Codec, at: Place, record: Record) {
    at.token == record.token && at.commonGitDir == record.commonGitDir && c.wellFormed(record)
  }

  /** The process remembers exactly the last committed revision. */
  predicate UpToDate(last: Record, record: Record) {
    && last.revision == record.revision && last.recordDigest == record.recordDigest
    && SameImmutable(last, record)
  }

  lemma AppendedJournal(c: Codec, h: seq<Record>, tail: Bytes, next: Record, progress: Progress)
    returns (h': seq<Record>, tail': Bytes)
    requires Sound(c) && Quiet(tail)
    ensures Appended(Journal(c, h) + tail, |Journal(c, h)|, Entry(c, next), progress) == Journal(c, h') + tail'
    ensures Quiet(tail') && (h' == h || h' == h + [next])
    ensures progress.Completed? ==> h' == h + [next] && tail' == []
  {
    var raw := Journal(c, h) + tail;
    assert raw[..|Journal(c, h)|] == Journal(c, h);
    JournalGrows(c, h, next);
    hide Entry, Journal;
    if progress.NotBegun? {
      h', tail' := h, tail;
    } else if progress.Cut? && progress.written < |Entry(c, next)| {
      h', tail' := h, Entry(c, next)[..progress.written];
      PrefixIsQuiet(c, next, progress.written);
    } else {
      h', tail' := h + [next], [];
    }
  }

  /**
   * One write, stopped anywhere: what is committed stays, at most the writer's own successor
   * is added, a writer that is not up to date adds nothing, and the result is again a journal.
   */
  lemma WriteKeepsJournal(c: Codec, at: Place, h: seq<Record>, tail: Bytes, record: Record, progress: Progress)
    returns (h': seq<Record>, tail': Bytes)
    requires Sound(c) && History(c, at, h) && h != [] && Quiet(tail) && Writer(c, at, record) && |h| <= MAX_SAFE_INTEGER
    ensures var (raw, last) := (Journal(c, h) + tail, h[|h| - 1]);
            var (after, result) := WriteJournal(c, at, raw, record, progress);
            && after == Journal(c, h') + tail' && History(c, at, h') && Quiet(tail')
            && (h' == h || (UpToDate(last, record) && h' == h + [Successor(c, record)]))
            && (!UpToDate(last, record) ==> after == raw && result.Err?)
            && (result.Ok? ==> h' == h + [result.value] && tail' == [])
            && (UpToDate(last, record) && progress.Completed? ==>
                  result.Ok? || |Payload(c, Successor(c, record))| > MAX_SAFE_INTEGER)
  {
    ReadsLastCommitted(c, at, h, tail);
    RevisionsCount(c, at, h);
    hide Journal, Entry, ReadJournal, Payload, SameImmutable;
    var last := h[|h| - 1];
    if UpToDate(last, record) && |Payload(c, Successor(c, record))| <= MAX_SAFE_INTEGER {
      SuccessorFollows(c, at, h, record);
      h', tail' := AppendedJournal(c, h, tail, Successor(c, record), progress);
    } else {
      h', tail' := h, tail;
    }
  }

  /** A stale or diverged writer is refused and touches nothing. */
  lemma StaleWriterAppendsNothing(c: Codec, at: Place, h: seq<Record>, tail: Bytes, record: Record, progress: Progress)
    requires Sound(c) && History(c, at, h) && h != [] && Quiet(tail) && Writer(c, at, record)
    requires record.revision != |h| - 1
    ensures WriteJournal(c, at, Journal(c, h) + tail, record, progress) == (Journal(c, h) + tail, Err(ContentsChanged))
  {
    ReadsLastCommitted(c, at, h, tail);
    RevisionsCount(c, at, h);
    hide Journal, Entry, ReadJournal;
  }

  // ---------------------------------------------------------------- runs

  /** One process trying to write what it remembers, and how far it gets. */
  datatype Attempt = Attempt(record: Record, progress: Progress)

  ghost predicate Writers(c: Codec, at: Place, attempts: seq<Attempt>) {
    forall a <- attempts :: Writer(c, at, a.record)
  }

  function Played(c: Codec, at: Place, raw: Bytes, attempts: seq<Attempt>): Bytes
    requires forall a <- attempts :: at.token == a.record.token && at.commonGitDir == a.record.commonGitDir
    decreases |attempts|
  {
    if attempts == [] then raw
    else
      Played(c, at, WriteJournal(c, at, raw, attempts[0].record, attempts[0].progress).0, attempts[1..])
  }

  /**
   * Over any run of crashed, retried, stale and uncertain writes the committed revisions are
   * 0 to n, nothing committed is ever lost or altered, and every revision agrees with the
   * first on the immutable fields.
   */
  lemma {:induction false} HistoryIsLinear(c: Codec, at: Place, h: seq<Record>, tail: Bytes, attempts: seq<Attempt>)
    returns (h': seq<Record>, tail': Bytes)
    requires Sound(c) && History(c, at, h) && h != [] && Quiet(tail) && Writers(c, at, attempts)
    requires |h| + |attempts| <= MAX_SAFE_INTEGER + 1
    ensures Played(c, at, Journal(c, h) + tail, attempts) == Journal(c, h') + tail'
    ensures h <= h' && |h'| <= |h| + |attempts| && History(c, at, h') && Quiet(tail')
    ensures forall i | 0 <= i < |h'| :: h'[i].revision == i && SameImmutable(h'[0], h'[i])
    ensures ReadJournal(c, at, Played(c, at, Journal(c, h) + tail, attempts))
            == Ok(Snapshot(h'[|h'| - 1], |Journal(c, h') + tail'|, |Journal(c, h')|))
    decreases |attempts|
  {
    hide WriteJournal, ReadJournal, History, Quiet, Sound, Journal, SameImmutable, Acceptable;
    if attempts == [] {
      h', tail' := h, tail;
      RevisionsCount(c, at, h);
      ReadsLastCommitted(c, at, h, tail);
    } else {
      var h1, tail1 := WriteKeepsJournal(c, at, h, tail, attempts[0].record, attempts[0].progress);
      h', tail' := HistoryIsLinear(c, at, h1, tail1, attempts[1..]);
    }
  }

  /** Reading an append cut after k bytes: the old revision until the last byte, then the new one. */
  lemma CrashReadsOldOrNew(c: Codec, at: Place, h: seq<Record>, record: Record, k: nat)
    requires Sound(c) && History(c, at, h) && h != [] && Writer(c, at, record) && |h| <= MAX_SAFE_INTEGER
    requires UpToDate(h[|h| - 1], record) && |Payload(c, Successor(c, record))| <= MAX_SAFE_INTEGER
    requires k <= |Entry(c, Successor(c, record))|
    ensures var next := Successor(c, record);
            var raw := Journal(c, h) + Entry(c, next)[..k];
            ReadJournal(c, at, raw) ==
            if k < |Entry(c, next)| then Ok(Snapshot(h[|h| - 1], |raw|, |Journal(c, h)|))
            else Ok(Snapshot(next, |raw|, |raw|))
  {
    var next := Successor(c, record);
    RevisionsCount(c, at, h);
    SuccessorFollows(c, at, h, record);
    hide ReadJournal, History, Sound, Journal, Entry, SameImmutable, Successor, Payload;
    if k < |Entry(c, next)| {
      PrefixIsQuiet(c, next, k);
      ReadsLastCommitted(c, at, h, Entry(c, next)[..k]);
    } else {
      JournalGrows(c, h, next);
      assert Entry(c, next)[..k] == Entry(c, next);
      assert Journal(c, h + [next]) + [] == Journal(c, h) + Entry(c, next);
      ReadsLastCommitted(c, at, h + [next], []);
    }
  }

  lemma TooFarIsRefused(c: Codec, at: Place, last: Option<Record>, r: Record)
    requires Sound(c) && r.revision > MAX_SAFE_INTEGER
    ensures CheckPair(c, at, Payload(c, r), CommitText(r.revision, |Payload(c, r)|, c.hash(Payload(c, r))), last)
            == Err(CommitLength)
  {
    CommitRoundTrip(r.revision, |Payload(c, r)|, c.hash(Payload(c, r)));
    hide ParseCommit, CommitText;
  }

  lemma RefusedEntryIsRead(c: Codec, at: Place, raw: Bytes, offset: nat, last: Option<Record>, r: Record)
    requires Sound(c) && r.revision > MAX_SAFE_INTEGER
    requires offset + |Entry(c, r)| == |raw| && raw[offset..] == Entry(c, r)
    ensures ReadFrom(c, at, raw, offset, last) == Err(CommitLength)
  {
    hide CheckPair, CommitText, Entry, Sound, Newline, Payload;
    EntryLines(c, raw, offset, r);
    TooFarIsRefused(c, at, last, r);
    PayloadNotEmpty(c, r);
  }

  lemma CompletedWrite(c: Codec, at: Place, h: seq<Record>, tail: Bytes, record: Record)
    requires Sound(c) && History(c, at, h) && h != [] && Quiet(tail) && Writer(c, at, record)
    requires UpToDate(h[|h| - 1], record) && |Payload(c, Successor(c, record))| <= MAX_SAFE_INTEGER
    ensures WriteJournal(c, at, Journal(c, h) + tail, record, Completed)
            == (Journal(c, h) + Entry(c, Successor(c, record)), Ok(Successor(c, record)))
  {
    ReadsLastCommitted(c, at, h, tail);
    hide ReadFrom, ReadJournal, History, Sound, Journal, Entry, SameImmutable, Payload;
    var raw := Journal(c, h) + tail;
    assert raw[..|Journal(c, h)|] == Journal(c, h);
  }

  lemma TooFarIsUnreadable(c: Codec, at: Place, h: seq<Record>, next: Record)
    requires Sound(c) && History(c, at, h) && next.revision > MAX_SAFE_INTEGER
    ensures ReadJournal(c, at, Journal(c, h) + Entry(c, next)).Err?
  {
    HistoryIsRead(c, at, h, Entry(c, next));
    hide ReadFrom, History, Sound, Journal, Entry;
    var after := Journal(c, h) + Entry(c, next);
    assert after[|Journal(c, h)|..] == Entry(c, next);
    RefusedEntryIsRead(c, at, after, |Journal(c, h)|, Last(h), next);
  }

  /**
   * A completed write leaves a journal that can be read again exactly when the new revision
   * is still a safe integer; the writer does not check it.
   */
  lemma StaysReadableExactly(c: Codec, at: Place, h: seq<Record>, tail: Bytes, record: Record)
    requires Sound(c) && History(c, at, h) && h != [] && Quiet(tail) && Writer(c, at, record)
    requires UpToDate(h[|h| - 1], record) && |Payload(c, Successor(c, record))| <= MAX_SAFE_INTEGER
    ensures var (after, result) := WriteJournal(c, at, Journal(c, h) + tail, record, Completed);
            && result == Ok(Successor(c, record))
            && (ReadJournal(c, at, after).Ok? <==> record.revision + 1 <= MAX_SAFE_INTEGER)
  {
    CompletedWrite(c, at, h, tail, record);
    hide ReadFrom, ReadJournal, WriteJournal, History, Sound, Journal, Entry, SameImmutable, Payload;
    var next := Successor(c, record);
    if record.revision + 1 <= MAX_SAFE_INTEGER {
      RevisionsCount(c, at, h);
      CrashReadsOldOrNew(c, at, h, record, |Entry(c, next)|);
      assert Entry(c, next)[..|Entry(c, next)|] == Entry(c, next);
    } else {
      TooFarIsUnreadable(c, at, h, next);
    }
  }

  // ---------------------------------------------------------------- the first revision

  datatype InitError = IdentityLost | NotEmpty | Malformed | TooLong | Stopped

  function Initialized(c: Codec, at: Place, raw: Bytes, record: Record, progress: Progress)
    : (Bytes, Result<Record, InitError>)
    requires at.token == record.token && at.commonGitDir == record.commonGitDir
  {
    if !SameOwner(at.directory, record.directoryIdentity) || !SameOwner(at.file, record.fileIdentity)
    then (raw, Err(IdentityLost))
    else if raw != [] || record.revision != 0 then (raw, Err(NotEmpty))
    else if !Acceptable(c, at, record) then (raw, Err(Malformed))
    else if |Payload(c, record)| > MAX_SAFE_INTEGER then (raw, Err(TooLong))
    else (Appended(raw, 0, Entry(c, record), progress), if progress.Completed? then Ok(record) else Err(Stopped))
  }

  /** Initialization commits revision 0 or leaves an incomplete journal, which no read accepts. */
  lemma InitializesOrStaysIncomplete(c: Codec, at: Place, record: Record, progress: Progress)
    requires Sound(c) && at.token == record.token && at.commonGitDir == record.commonGitDir && !at.file.directory
    ensures var (after, result) := Initialized(c, at, [], record, progress);
            && (result.Ok? ==> History(c, at, [record]) && after == Journal(c, [record]))
            && (result.Err? ==> ReadJournal(c, at, after) == Err(NoRevision)
                                || (History(c, at, [record]) && after == Journal(c, [record])))
  {
    var (after, result) := Initialized(c, at, [], record, progress);
    JournalGrows(c, [], record);
    assert [] + [record] == [record] && [record][..0] == [];
    assert History(c, at, []) && Journal(c, []) == [];
    hide Journal, Entry, Payload, Quiet, ReadFrom, CheckPair;
    if progress.Cut? && progress.written < |Entry(c, record)| {
      PrefixIsQuiet(c, record, progress.written);
      var tail := Entry(c, record)[..progress.written];
      assert tail[0..] == tail && [] + tail == tail;
      QuietIsSkipped(c, at, tail, 0, None);
    }
    EmptyHasNoRevision(c, at);
  }

  lemma EmptyHasNoRevision(c: Codec, at: Place)
    ensures ReadJournal(c, at, []) == Err(NoRevision)
  {
  }

  // ---------------------------------------------------------------- the file

  /** A complete line: where it starts, and the offset after its newline. */
  datatype JournalLine = JournalLine(start: nat, end: nat)

  function Lines(raw: Bytes, offset: nat): seq<JournalLine>
    requires offset <= |raw|
    decreases |raw| - offset
  {
    var at := Newline(raw, offset);
    if at == |raw| then [] else [JournalLine(offset, at + 1)] + Lines(raw, at + 1)
  }

  class LeaseFile {
    var bytes: Bytes
    const place: Place

    constructor (place: Place, bytes: Bytes)
      ensures this.place == place && this.bytes == bytes
    {
      this.place, this.bytes := place, bytes;
    }

    method IndexOfNewline(from: nat) returns (at: nat)
      requires from <= |bytes|
      ensures at == Newline(bytes, from)
    {
      at := from;
      while at < |bytes| && bytes[at] != NEWLINE
        invariant from <= at <= |bytes|
        invariant Newline(bytes, from) == Newline(bytes, at)
      {
        at := at + 1;
      }
    }

    method CompleteLines() returns (lines: seq<JournalLine>)
      ensures lines == Lines(bytes, 0)
    {
      lines := [];
      var offset := 0;
      while offset < |bytes|
        invariant 0 <= offset <= |bytes|
        invariant lines + Lines(bytes, offset) == Lines(bytes, 0)
      {
        var terminator := IndexOfNewline(offset);
        if terminator == |bytes| {
          assert Lines(bytes, offset) == [];
          break;
        }
        assert lines + ([JournalLine(offset, terminator + 1)] + Lines(bytes, terminator + 1))
               == (lines + [JournalLine(offset, terminator + 1)]) + Lines(bytes, terminator + 1);
        lines := lines + [JournalLine(offset, terminator + 1)];
        offset := terminator + 1;
      }
    }

    method Read(c: Codec) returns (r: Result<Snapshot, ReadError>)
      ensures r == ReadJournal(c, place, bytes)
    {
      hide CheckPair, Newline, ReadFrom, Finish, Lines, StartsCommit;
      var lines := CompleteLines();
      var last: Option<Record> := None;
      var committedBytes: nat, lineIndex: nat := 0, 0;
      assert lines[0..] == lines;
      while lineIndex + 1 < |lines|
        invariant 0 <= lineIndex <= |lines| && committedBytes <= |bytes|
        invariant lines[lineIndex..] == Lines(bytes, committedBytes)
        invariant ReadJournal(c, place, bytes) == ReadFrom(c, place, bytes, committedBytes, last)
        decreases |lines| - lineIndex
      {
        var (payloadLine, commitLine) := (lines[lineIndex], lines[lineIndex + 1]);
        NextTwoLines(bytes, committedBytes, lines, lineIndex);
        PairStep(c, place, bytes, committedBytes, last);
        var checked := CheckPair(c, place, bytes[payloadLine.start..payloadLine.end],
                                 bytes[commitLine.start..commitLine.end - 1], last);
        if checked.Err? {
          return Err(checked.error);
        }
        last, committedBytes, lineIndex := Some(checked.value), commitLine.end, lineIndex + 2;
      }
      LastLines(c, place, bytes, committedBytes, last, lines[lineIndex..]);
      var orphan := lineIndex < |lines| && StartsCommit(bytes[lines[lineIndex].start..lines[lineIndex].end - 1]);
      r := Finish(place, bytes, committedBytes, orphan, last);
    }

    /** Appends the successor of `record`, stopping where the environment stops it. */
    method Write(c: Codec, record: Record, progress: Progress) returns (r: Result<Record, WriteError>)
      requires place.token == record.token && place.commonGitDir == record.commonGitDir
      modifies this
      ensures (bytes, r) == WriteJournal(c, place, old(bytes), record, progress)
    {
      hide ReadFrom, Entry, Payload, SameImmutable;
      var persisted := Read(c);
      if persisted.Err? {
        return Err(Unreadable(persisted.error));
      }
      SnapshotWithin(c, place, bytes, 0, None);
      var (last, committed) := (persisted.value.record, persisted.value.committedBytes);
      if last.revision != record.revision || last.recordDigest != record.recordDigest {
        return Err(ContentsChanged);
      }
      if !SameImmutable(last, record) {
        return Err(ImmutableStateChanged);
      }
      var next := Successor(c, record);
      if |Payload(c, next)| > MAX_SAFE_INTEGER {
        return Err(PayloadTooLong);
      }
      if progress.NotBegun? {
        return Err(Interrupted);
      }
      var entry := Entry(c, next);
      bytes := bytes[..committed];
      if progress.Cut? {
        bytes := bytes + if progress.written < |entry| then entry[..progress.written] else entry;
        return Err(Interrupted);
      }
      bytes := bytes + entry;
      return Ok(next);
    }
  }

  lemma NextTwoLines(raw: Bytes, offset: nat, lines: seq<JournalLine>, i: nat)
    requires offset <= |raw| && i + 1 < |lines| && lines[i..] == Lines(raw, offset)
    ensures var a := Newline(raw, offset);
            && a < |raw| && lines[i] == JournalLine(offset, a + 1)
            && Newline(raw, a + 1) < |raw| && lines[i + 1] == JournalLine(a + 1, Newline(raw, a + 1) + 1)
            && lines[i + 2..] == Lines(raw, Newline(raw, a + 1) + 1)
  {
    hide Newline;
    var a := Newline(raw, offset);
    assert lines[i] == lines[i..][0] && lines[i + 1] == lines[i..][1] && lines[i + 2..] == lines[i..][2..];
    assert Lines(raw, offset)[1..] == Lines(raw, a + 1);
    assert Lines(raw, offset)[2..] == Lines(raw, a + 1)[1..];
  }

  lemma LastLines(c: Codec, at: Place, raw: Bytes, offset: nat, last: Option<Record>, lines: seq<JournalLine>)
    requires offset <= |raw| && lines == Lines(raw, offset) && |lines| < 2
    ensures |lines| == 1 ==> lines[0].start == offset <= lines[0].end - 1 < |raw|
    ensures ReadFrom(c, at, raw, offset, last)
            == Finish(at, raw, offset, |lines| == 1 && StartsCommit(raw[lines[0].start..lines[0].end - 1]), last)
  {
    hide CheckPair, Newline;
    var a := Newline(raw, offset);
    if a < |raw| {
      assert Lines(raw, offset) == [JournalLine(offset, a + 1)] + Lines(raw, a + 1);
      assert Lines(raw, a + 1) == [];
    }
  }
}
