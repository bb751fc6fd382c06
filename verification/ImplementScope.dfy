/**
 * Write scopes: repository-relative path prefixes (implement-scope.ts).
 *
 * A string is a sequence of Unicode scalar values, which is what code-point order compares;
 * its length is counted in UTF-16 units, which is what the bound of 1024 limits.  The case
 * and compatibility folding of `scopesOverlap` is a parameter.
 */
module ImplementScope {
  import opened Wrappers

  const MAX_PATH_UNITS := 1024
  const MAX_ENTRIES := 64

  datatype PathError = Unbounded | Absolute | OutsideRepository | GitMetadata

  datatype ScopeError = EmptyScope | TooManyEntries | BadEntry(error: PathError)

  // ---------------------------------------------------------------- segments

  function Split(value: string): (segments: seq<string>)
    ensures |segments| > 0
  {
    if value == "" then [""]
    else
      var rest := Split(value[1..]);
      if value[0] == '/' then [""] + rest else [[value[0]] + rest[0]] + rest[1..]
  }

  function Join(segments: seq<string>): string {
    if segments == [] then ""
    else if |segments| == 1 then segments[0]
    else segments[0] + "/" + Join(segments[1..])
  }

  /** Empty and "." segments vanish; ".." takes one back, or stays when there is none to take. */
  function Resolve(segments: seq<string>, stack: seq<string>): seq<string>
    decreases |segments|
  {
    if segments == [] then stack
    else if segments[0] == "" || segments[0] == "." then Resolve(segments[1..], stack)
    else if segments[0] == ".." && stack != [] && stack[|stack| - 1] != ".."
    then Resolve(segments[1..], stack[..|stack| - 1])
    else Resolve(segments[1..], stack + [segments[0]])
  }

  predicate EndsWithSlash(value: string) {
    value != "" && value[|value| - 1] == '/'
  }

  /** path.posix.normalize on a relative path; a trailing slash survives. */
  function Normalize(value: string): string {
    var segments := Resolve(Split(value), []);
    (if segments == [] then "." else Join(segments)) + if EndsWithSlash(value) then "/" else ""
  }

  // ---------------------------------------------------------------- one path

  function Units(value: string): nat {
    if value == "" then 0 else (if value[0] as int >= 0x10000 then 2 else 1) + Units(value[1..])
  }

  predicate PlainChar(ch: char) {
    ch as int > 0x1f && ch as int != 0x7f && ch != '\\'
  }

  function NormalizePath(value: string): Result<string, PathError> {
    if value == "" || Units(value) > MAX_PATH_UNITS || exists ch <- value :: !PlainChar(ch) then Err(Unbounded)
    else if value[0] == '/' then Err(Absolute)
    else
      var normalized := Normalize(value);
      if normalized == ".." || "../" <= normalized then Err(OutsideRepository)
      else if ".git" in Split(normalized) then Err(GitMetadata)
      else Ok(normalized)
  }

  // ---------------------------------------------------------------- scopes

  /** `path` is already normalized. */
  predicate CoveredBy(path: string, owner: string) {
    owner == "." || path == owner || owner + "/" <= path
  }

  predicate Within(path: string, scope: seq<string>) {
    NormalizePath(path).Ok? && exists owner <- scope :: CoveredBy(NormalizePath(path).value, owner)
  }

  function Compare(left: string, right: string): int {
    if left == "" || right == "" then |left| - |right|
    else if left[0] != right[0] then left[0] as int - right[0] as int
    else Compare(left[1..], right[1..])
  }

  /** Places one entry into a sorted list without repetition. */
  function InsertUnique(entry: string, sorted: seq<string>): seq<string> {
    if sorted == [] then [entry]
    else if Compare(entry, sorted[0]) == 0 then sorted
    else if Compare(entry, sorted[0]) < 0 then [entry] + sorted
    else [sorted[0]] + InsertUnique(entry, sorted[1..])
  }

  function SortUnique(entries: seq<string>): seq<string> {
    if entries == [] then [] else InsertUnique(entries[|entries| - 1], SortUnique(entries[..|entries| - 1]))
  }

  /** Keeps the candidates no kept entry covers, in order. */
  function Reduce(candidates: seq<string>): seq<string> {
    if candidates == [] then []
    else
      var (kept, last) := (Reduce(candidates[..|candidates| - 1]), candidates[|candidates| - 1]);
      if exists owner <- kept :: Within(last, [owner]) then kept else kept + [last]
  }

  function NormalizeAll(scope: seq<string>): Result<seq<string>, PathError> {
    if scope == [] then Ok([])
    else
      match NormalizePath(scope[0])
      case Err(e) => Err(e)
      case Ok(first) =>
        match NormalizeAll(scope[1..])
        case Err(e) => Err(e)
        case Ok(rest) => Ok([first] + rest)
  }

  function NormalizeScope(scope: seq<string>): Result<seq<string>, ScopeError> {
    if scope == [] then Err(EmptyScope)
    else if |scope| > MAX_ENTRIES then Err(TooManyEntries)
    else
      match NormalizeAll(scope)
      case Err(e) => Err(BadEntry(e))
      case Ok(paths) => Ok(Reduce(SortUnique(paths)))
  }

  function Folded(fold: string -> string, scope: seq<string>): seq<string> {
    seq(|scope|, i requires 0 <= i < |scope| => fold(scope[i]))
  }

  predicate SomeWithin(paths: seq<string>, scope: seq<string>) {
    exists path <- paths :: Within(path, scope)
  }

  predicate ScopesOverlap(fold: string -> string, left: seq<string>, right: seq<string>) {
    var (l, r) := (Folded(fold, left), Folded(fold, right));
    SomeWithin(l, r) || SomeWithin(r, l)
  }

  // ---------------------------------------------------------------- splitting and joining

  lemma {:induction false} JoinSplit(value: string)
    ensures Join(Split(value)) == value
    ensures forall s <- Split(value) :: '/' !in s
  {
    if value != "" {
      JoinSplit(value[1..]);
      var rest := Split(value[1..]);
      if value[0] == '/' {
        assert ([""] + rest)[1..] == rest;
        assert value == "/" + value[1..];
      } else {
        var first := [value[0]] + rest[0];
        assert ([first] + rest[1..])[1..] == rest[1..];
        assert value == [value[0]] + value[1..];
        if |rest| == 1 {
          assert rest == [rest[0]];
        }
      }
    }
  }

  lemma {:induction false} SplitOne(segment: string)
    requires '/' !in segment
    ensures Split(segment) == [segment]
  {
    if segment != "" {
      SplitOne(segment[1..]);
      assert segment[0] in segment && [segment[0]] + segment[1..] == segment;
    }
  }

  lemma {:induction false} SplitFirst(segment: string, rest: string)
    requires '/' !in segment
    ensures Split(segment + "/" + rest) == [segment] + Split(rest)
  {
    var whole := segment + "/" + rest;
    if segment == "" {
      assert whole[1..] == rest;
    } else {
      assert segment[0] in segment && [segment[0]] + segment[1..] == segment;
      assert whole[1..] == segment[1..] + "/" + rest;
      SplitFirst(segment[1..], rest);
    }
  }

  lemma {:induction false} SplitJoin(segments: seq<string>)
    requires segments != [] && forall s <- segments :: '/' !in s
    ensures Split(Join(segments)) == segments
  {
    if |segments| == 1 {
      SplitOne(segments[0]);
    } else {
      SplitJoin(segments[1..]);
      SplitFirst(segments[0], Join(segments[1..]));
    }
  }

  lemma {:induction false} JoinAppend(segments: seq<string>, last: string)
    requires segments != []
    ensures Join(segments + [last]) == Join(segments) + "/" + last
  {
    if |segments| > 1 {
      assert (segments + [last])[1..] == segments[1..] + [last];
      JoinAppend(segments[1..], last);
    }
  }

  // ---------------------------------------------------------------- resolving

  predicate Ordinary(segment: string) {
    segment != "" && segment != "." && segment != ".." && '/' !in segment
  }

  /** Only leading ".." are left, and no empty or "." segment. */
  ghost predicate Clean(segments: seq<string>) {
    && (forall s <- segments :: s == ".." || Ordinary(s))
    && (forall i, j | 0 <= i < j < |segments| && segments[j] == ".." :: segments[i] == "..")
  }

  lemma {:induction false} ResolveIsClean(segments: seq<string>, stack: seq<string>)
    requires Clean(stack) && forall s <- segments :: '/' !in s
    ensures Clean(Resolve(segments, stack))
    decreases |segments|
  {
    if segments != [] {
      var (s, rest) := (segments[0], segments[1..]);
      if s == "" || s == "." {
        ResolveIsClean(rest, stack);
      } else if s == ".." && stack != [] && stack[|stack| - 1] != ".." {
        ResolveIsClean(rest, stack[..|stack| - 1]);
      } else {
        ResolveIsClean(rest, stack + [s]);
      }
    }
  }

  lemma {:induction false} ResolveKeepsOrdinary(segments: seq<string>, stack: seq<string>)
    requires forall s <- segments :: Ordinary(s)
    ensures Resolve(segments, stack) == stack + segments
    ensures Resolve(segments + [""], stack) == stack + segments
    decreases |segments|
  {
    if segments != [] {
      assert Ordinary(segments[0]);
      ResolveKeepsOrdinary(segments[1..], stack + [segments[0]]);
      assert (segments + [""])[1..] == segments[1..] + [""];
      assert stack + [segments[0]] + segments[1..] == stack + segments;
    } else {
      assert segments + [""] == [""] && [""][1..] == [];
      assert Resolve([""], stack) == Resolve([], stack);
    }
  }

  /** A clean path that does not climb out is ordinary throughout. */
  lemma CleanInsideIsOrdinary(segments: seq<string>)
    requires Clean(segments) && (segments != [] ==> segments[0] != "..")
    ensures forall s <- segments :: Ordinary(s)
  {
    forall s <- segments ensures Ordinary(s) {
      var i :| 0 <= i < |segments| && segments[i] == s;
      assert i == 0 || segments[0] == ".." || segments[i] != "..";
    }
  }

  // ---------------------------------------------------------------- plain characters and length

  predicate Plain(value: string) {
    forall ch <- value :: PlainChar(ch)
  }

  predicate AllPlain(segments: seq<string>) {
    forall s <- segments :: Plain(s)
  }

  lemma {:induction false} SplitPlain(value: string)
    requires Plain(value)
    ensures AllPlain(Split(value))
  {
    if value != "" {
      SplitPlain(value[1..]);
      var rest := Split(value[1..]);
      assert PlainChar(value[0]) && Plain(rest[0]);
      assert Plain([value[0]] + rest[0]);
    }
  }

  lemma {:induction false} JoinPlain(segments: seq<string>)
    requires AllPlain(segments)
    ensures Plain(Join(segments))
  {
    if segments != [] {
      assert Plain(segments[0]);
      JoinPlain(segments[1..]);
    }
  }

  /** The units of the segments, each with one separator. */
  function Weight(segments: seq<string>): nat {
    if segments == [] then 0 else Units(segments[0]) + 1 + Weight(segments[1..])
  }

  lemma {:induction false} UnitsAdd(left: string, right: string)
    ensures Units(left + right) == Units(left) + Units(right)
  {
    if left == "" {
      assert left + right == right;
    } else {
      assert (left + right)[1..] == left[1..] + right;
      UnitsAdd(left[1..], right);
    }
  }

  lemma {:induction false} WeightAppend(segments: seq<string>, last: string)
    ensures Weight(segments + [last]) == Weight(segments) + Units(last) + 1
  {
    if segments == [] {
      assert Weight([last]) == Units(last) + 1 + Weight([]);
    } else {
      assert (segments + [last])[1..] == segments[1..] + [last];
      WeightAppend(segments[1..], last);
    }
  }

  lemma {:induction false} SplitWeight(value: string)
    ensures Weight(Split(value)) == Units(value) + 1
  {
    if value != "" {
      SplitWeight(value[1..]);
      var rest := Split(value[1..]);
      if value[0] == '/' {
        assert ([""] + rest)[1..] == rest;
      } else {
        UnitsAdd([value[0]], rest[0]);
        assert Units([value[0]]) == Units(value) - Units(value[1..]);
        assert ([[value[0]] + rest[0]] + rest[1..])[1..] == rest[1..];
      }
    }
  }

  lemma {:induction false} JoinWeight(segments: seq<string>)
    requires segments != []
    ensures Units(Join(segments)) + 1 == Weight(segments)
  {
    if |segments| > 1 {
      JoinWeight(segments[1..]);
      UnitsAdd(segments[0], "/" + Join(segments[1..]));
      UnitsAdd("/", Join(segments[1..]));
      assert segments[0] + "/" + Join(segments[1..]) == segments[0] + ("/" + Join(segments[1..]));
    } else {
      assert Weight(segments) == Units(segments[0]) + 1 + Weight([]);
    }
  }

  lemma {:induction false} ResolveShrinks(segments: seq<string>, stack: seq<string>)
    requires AllPlain(segments) && AllPlain(stack)
    ensures AllPlain(Resolve(segments, stack))
    ensures Weight(Resolve(segments, stack)) <= Weight(stack) + Weight(segments)
    ensures segments != [] && segments[|segments| - 1] == "" ==>
              Weight(Resolve(segments, stack)) < Weight(stack) + Weight(segments)
    decreases |segments|
  {
    if segments != [] {
      var (s, rest) := (segments[0], segments[1..]);
      if s == "" || s == "." {
        ResolveShrinks(rest, stack);
      } else if s == ".." && stack != [] && stack[|stack| - 1] != ".." {
        ResolveShrinks(rest, stack[..|stack| - 1]);
        WeightAppend(stack[..|stack| - 1], stack[|stack| - 1]);
        assert stack[..|stack| - 1] + [stack[|stack| - 1]] == stack;
      } else {
        WeightAppend(stack, s);
        ResolveShrinks(rest, stack + [s]);
      }
    }
  }

  // ---------------------------------------------------------------- normalized paths

  /** A path as normalization leaves it: "." or ordinary segments, perhaps with a trailing slash. */
  ghost predicate Canonical(path: string, segments: seq<string>, trailing: bool) {
    && (forall s <- segments :: Ordinary(s) && s != ".git")
    && path == (if segments == [] then "." else Join(segments)) + if trailing then "/" else ""
  }

  lemma {:induction false} LastSegment(value: string)
    requires EndsWithSlash(value)
    ensures Split(value)[|Split(value)| - 1] == "" && |Split(value)| > 1
  {
    if |value| == 1 {
      assert value == "/" && value[1..] == "";
    } else {
      LastSegment(value[1..]);
    }
  }

  lemma {:induction false} JoinFirst(segments: seq<string>)
    requires segments != [] && segments[0] != ""
    ensures segments[0] <= Join(segments) && Join(segments) != ""
    ensures |segments| > 1 ==> segments[0] + "/" <= Join(segments)
    ensures segments[|segments| - 1] != "" ==>
              Join(segments)[|Join(segments)| - 1] == segments[|segments| - 1][|segments[|segments| - 1]| - 1]
  {
    if |segments| > 1 {
      if segments[1] != "" {
        JoinFirst(segments[1..]);
      } else {
        JoinEnd(segments[1..]);
      }
    }
  }

  lemma {:induction false} JoinEnd(segments: seq<string>)
    requires segments != []
    ensures segments[|segments| - 1] != "" ==>
              Join(segments) != ""
              && Join(segments)[|Join(segments)| - 1] == segments[|segments| - 1][|segments[|segments| - 1]| - 1]
  {
    if |segments| > 1 {
      JoinEnd(segments[1..]);
    }
  }

  lemma ClimbsOut(segments: seq<string>, trailing: bool)
    requires segments != [] && segments[0] == ".."
    ensures var path := Join(segments) + if trailing then "/" else ""; path == ".." || "../" <= path
  {
    JoinFirst(segments);
  }

  /** What an accepted path is, and that its length stays within the bound. */
  lemma AcceptedIsCanonical(value: string) returns (segments: seq<string>)
    requires NormalizePath(value).Ok?
    ensures Canonical(NormalizePath(value).value, segments, EndsWithSlash(value))
    ensures segments == Resolve(Split(value), [])
  {
    segments := Resolve(Split(value), []);
    JoinSplit(value);
    ResolveIsClean(Split(value), []);
    var normalized := Normalize(value);
    if segments != [] && segments[0] == ".." {
      ClimbsOut(segments, EndsWithSlash(value));
    }
    CleanInsideIsOrdinary(segments);
    SplitCanonical(segments, EndsWithSlash(value), normalized);
    CanonicalEnds(segments, EndsWithSlash(value), normalized);
  }

  lemma SplitCanonical(segments: seq<string>, trailing: bool, path: string)
    requires forall s <- segments :: Ordinary(s)
    requires path == (if segments == [] then "." else Join(segments)) + if trailing then "/" else ""
    ensures Split(path) == (if segments == [] then ["."] else segments) + if trailing then [""] else []
  {
    hide Join, Split;
    var front := if segments == [] then ["."] else segments;
    assert path == Join(front) + if trailing then "/" else "" by { JoinOne("."); }
    assert forall s <- front :: s != "" && '/' !in s;
    if trailing {
      JoinAppend(front, "");
      assert path == Join(front + [""]);
      SplitJoin(front + [""]);
    } else {
      assert path == Join(front);
      SplitJoin(front);
    }
  }

  lemma JoinOne(segment: string)
    ensures Join([segment]) == segment
  {
  }

  lemma CanonicalEnds(segments: seq<string>, trailing: bool, path: string)
    requires forall s <- segments :: Ordinary(s)
    requires path == (if segments == [] then "." else Join(segments)) + if trailing then "/" else ""
    ensures path != "" && path[0] != '/' && (EndsWithSlash(path) <==> trailing)
  {
    hide Join;
    var front := if segments == [] then ["."] else segments;
    assert path == Join(front) + if trailing then "/" else "" by { JoinOne("."); }
    assert forall s <- front :: s != "" && '/' !in s;
    assert front[0] in front && front[|front| - 1] in front;
    JoinFirst(front);
    var last := front[|front| - 1];
    assert last[|last| - 1] in last;
    assert path[0] == front[0][0] && front[0][0] in front[0];
  }

  lemma NormalizedLength(value: string)
    requires NormalizePath(value).Ok?
    ensures var path := NormalizePath(value).value; Plain(path) && Units(path) <= Units(value)
  {
    var segments := Resolve(Split(value), []);
    SplitPlain(value);
    SplitWeight(value);
    ResolveShrinks(Split(value), []);
    JoinPlain(segments);
    if EndsWithSlash(value) {
      LastSegment(value);
    }
    var front := if segments == [] then "." else Join(segments);
    assert Units(".") == 1 && Units("/") == 1 && (|value| > 1 ==> Units(value) >= 2) by {
      UnitsAtLeast(value);
    }
    if segments != [] {
      JoinWeight(segments);
    }
    UnitsAdd(front, "/");
    assert front + "" == front;
  }

  lemma {:induction false} UnitsAtLeast(value: string)
    ensures Units(value) >= |value|
  {
    if value != "" {
      UnitsAtLeast(value[1..]);
    }
  }

  /** Normalizing a path that is already canonical changes nothing. */
  lemma CanonicalIsFixed(path: string, segments: seq<string>, trailing: bool)
    requires Canonical(path, segments, trailing) && Plain(path) && Units(path) <= MAX_PATH_UNITS
    ensures NormalizePath(path) == Ok(path)
  {
    SplitCanonical(segments, trailing, path);
    CanonicalEnds(segments, trailing, path);
    var front := if segments == [] then ["."] else segments;
    ResolveKeepsOrdinary(segments, []);
    assert Resolve(Split(path), []) == segments by {
      if segments == [] {
        ResolveDot(trailing);
      } else {
        assert Split(path) == if trailing then segments + [""] else segments;
      }
    }
    assert Normalize(path) == path;
    NotOutside(path, segments, trailing);
    assert ".git" !in Split(path);
  }

  lemma ResolveDot(trailing: bool)
    ensures Resolve(["."] + if trailing then [""] else [], []) == []
  {
    var segments := ["."] + if trailing then [""] else [];
    assert segments[1..] == if trailing then [""] else [];
    if trailing {
      assert [""][1..] == [];
    }
  }

  lemma NotOutside(path: string, segments: seq<string>, trailing: bool)
    requires Canonical(path, segments, trailing)
    ensures path != ".." && !("../" <= path)
  {
    SplitCanonical(segments, trailing, path);
    CanonicalEnds(segments, trailing, path);
    assert segments != [] ==> segments[0] in segments;
    FirstSegment(path);
  }

  lemma FirstSegment(path: string)
    ensures path == ".." || "../" <= path ==> Split(path)[0] == ".."
  {
    if path == ".." {
      SplitOne("..");
    } else if "../" <= path {
      assert path == ".." + "/" + path[3..];
      SplitFirst("..", path[3..]);
    }
  }

  /** An accepted path normalizes to itself from then on. */
  lemma NormalizeIsIdempotent(value: string)
    requires NormalizePath(value).Ok?
    ensures NormalizePath(NormalizePath(value).value) == NormalizePath(value)
  {
    var segments := AcceptedIsCanonical(value);
    NormalizedLength(value);
    CanonicalIsFixed(NormalizePath(value).value, segments, EndsWithSlash(value));
  }

  predicate IsNormalized(path: string) {
    NormalizePath(path) == Ok(path)
  }

  /** A scope entry that kept a trailing slash covers no path but itself. */
  lemma TrailingSlashCoversOnlyItself(owner: string, path: string)
    requires IsNormalized(owner) && EndsWithSlash(owner)
    ensures Within(path, [owner]) <==> NormalizePath(path) == Ok(owner)
  {
    if NormalizePath(path).Ok? {
      var n := NormalizePath(path).value;
      var segments := AcceptedIsCanonical(path);
      SplitCanonical(segments, EndsWithSlash(path), n);
      CanonicalEnds(segments, EndsWithSlash(path), n);
      assert owner in [owner];
      if owner + "/" <= n {
        NoDoubleSlash(n, |owner| - 1, segments, EndsWithSlash(path));
      }
    }
  }

  lemma {:induction false} EmptySegment(value: string, at: nat)
    requires at + 1 < |value| && value[at] == '/' && value[at + 1] == '/'
    ensures exists i | 0 < i < |Split(value)| - 1 :: Split(value)[i] == ""
    decreases at
  {
    var rest := Split(value[1..]);
    if at == 0 {
      assert value[1..][0] == '/';
      var inner := Split(value[1..][1..]);
      assert rest == [""] + inner;
      assert Split(value) == [""] + ([""] + inner);
      assert Split(value)[1] == "";
    } else {
      EmptySegment(value[1..], at - 1);
      var i :| 0 < i < |rest| - 1 && rest[i] == "";
      if value[0] == '/' {
        assert Split(value)[i + 1] == "";
      } else {
        assert Split(value)[i] == "";
      }
    }
  }

  lemma NoDoubleSlash(path: string, at: nat, segments: seq<string>, trailing: bool)
    requires at + 1 < |path| && Canonical(path, segments, trailing)
    ensures !(path[at] == '/' && path[at + 1] == '/')
  {
    SplitCanonical(segments, trailing, path);
    CanonicalEnds(segments, trailing, path);
    var split := Split(path);
    forall i | 0 <= i < |split| - 1 ensures split[i] != "" {
      assert segments != [] ==> split[i] == segments[i] && segments[i] in segments;
    }
    if path[at] == '/' && path[at + 1] == '/' {
      EmptySegment(path, at);
    }
  }

  // ---------------------------------------------------------------- the order

  lemma {:induction false} CompareSelf(x: string)
    ensures Compare(x, x) == 0
  {
    if x != "" {
      CompareSelf(x[1..]);
    }
  }

  lemma {:induction false} CompareZero(x: string, y: string)
    requires Compare(x, y) == 0
    ensures x == y
  {
    if x != "" && y != "" {
      CompareZero(x[1..], y[1..]);
      assert x == [x[0]] + x[1..] && y == [y[0]] + y[1..];
    }
  }

  lemma {:induction false} CompareOpposite(x: string, y: string)
    ensures Compare(x, y) == -Compare(y, x)
  {
    if x != "" && y != "" {
      CompareOpposite(x[1..], y[1..]);
    }
  }

  lemma {:induction false} CompareTransitive(x: string, y: string, z: string)
    requires Compare(x, y) < 0 && Compare(y, z) < 0
    ensures Compare(x, z) < 0
  {
    if x != "" && y != "" && z != "" && x[0] == y[0] && y[0] == z[0] {
      CompareTransitive(x[1..], y[1..], z[1..]);
    }
  }

  lemma {:induction false} ExtensionIsGreater(x: string, y: string)
    requires x < y
    ensures Compare(x, y) < 0
  {
    if x != "" {
      assert x[1..] < y[1..];
      ExtensionIsGreater(x[1..], y[1..]);
    }
  }

  ghost predicate Ascending(s: seq<string>) {
    forall i, j | 0 <= i < j < |s| :: Compare(s[i], s[j]) < 0
  }

  lemma {:induction false} InsertAscends(entry: string, sorted: seq<string>)
    requires Ascending(sorted)
    ensures Ascending(InsertUnique(entry, sorted))
    ensures forall x :: x in InsertUnique(entry, sorted) <==> x in sorted || x == entry
  {
    if sorted != [] {
      var rest := sorted[1..];
      assert forall i | 0 <= i < |rest| :: rest[i] == sorted[i + 1];
      InsertAscends(entry, rest);
      CompareOpposite(entry, sorted[0]);
      var after := InsertUnique(entry, sorted);
      if Compare(entry, sorted[0]) == 0 {
        CompareZero(entry, sorted[0]);
      } else if Compare(entry, sorted[0]) < 0 {
        forall j | 0 <= j < |sorted| ensures Compare(entry, sorted[j]) < 0 {
          if j > 0 {
            CompareTransitive(entry, sorted[0], sorted[j]);
          }
        }
      } else {
        var tail := InsertUnique(entry, rest);
        forall j | 0 <= j < |tail| ensures Compare(sorted[0], tail[j]) < 0 {
          assert tail[j] in tail;
        }
        assert after == [sorted[0]] + tail;
      }
    }
  }

  lemma {:induction false} SortAscends(entries: seq<string>)
    ensures Ascending(SortUnique(entries))
    ensures forall x :: x in SortUnique(entries) <==> x in entries
    decreases |entries|
  {
    if entries != [] {
      var (front, last) := (entries[..|entries| - 1], entries[|entries| - 1]);
      SortAscends(front);
      InsertAscends(last, SortUnique(front));
      assert entries == front + [last];
    }
  }

  /** Sorting what is sorted already changes nothing. */
  lemma {:induction false} SortFixed(entries: seq<string>)
    requires Ascending(entries)
    ensures SortUnique(entries) == entries
    decreases |entries|
  {
    if entries != [] {
      var (front, last) := (entries[..|entries| - 1], entries[|entries| - 1]);
      SortFixed(front);
      InsertLast(last, front);
      assert entries == front + [last];
    }
  }

  lemma {:induction false} InsertLast(entry: string, sorted: seq<string>)
    requires forall x <- sorted :: Compare(x, entry) < 0
    ensures InsertUnique(entry, sorted) == sorted + [entry]
  {
    if sorted != [] {
      assert sorted[0] in sorted;
      CompareOpposite(sorted[0], entry);
      InsertLast(entry, sorted[1..]);
      assert sorted == [sorted[0]] + sorted[1..];
    }
  }

  // ---------------------------------------------------------------- coverage

  lemma CoverTransitive(path: string, middle: string, owner: string)
    requires CoveredBy(path, middle) && CoveredBy(middle, owner)
    ensures CoveredBy(path, owner)
  {
    if middle == "." && owner != "." && path != owner {
      assert owner + "/" <= "." || owner == ".";
    }
  }

  lemma WithinOne(path: string, owner: string)
    ensures Within(path, [owner]) <==> NormalizePath(path).Ok? && CoveredBy(NormalizePath(path).value, owner)
  {
    assert owner in [owner];
  }

  ghost predicate AllNormalized(paths: seq<string>) {
    forall p <- paths :: IsNormalized(p)
  }

  /** Every later entry is outside every earlier one. */
  ghost predicate Reduced(paths: seq<string>) {
    forall i, j | 0 <= i < j < |paths| :: !CoveredBy(paths[j], paths[i])
  }

  lemma NormalizedWithin(path: string, owner: string)
    requires IsNormalized(path)
    ensures Within(path, [owner]) <==> CoveredBy(path, owner)
  {
    WithinOne(path, owner);
  }

  ghost predicate CoversAll(owners: seq<string>, paths: seq<string>) {
    forall x <- paths :: exists owner <- owners :: CoveredBy(x, owner)
  }

  lemma {:induction false} ReduceKeepsCoverage(candidates: seq<string>)
    requires Ascending(candidates) && AllNormalized(candidates)
    ensures var kept := Reduce(candidates);
            && Ascending(kept) && Reduced(kept) && |kept| <= |candidates|
            && (forall x <- kept :: x in candidates) && CoversAll(kept, candidates)
    decreases |candidates|
  {
    hide CoveredBy, Compare, IsNormalized, Within;
    if candidates != [] {
      var (front, last) := (candidates[..|candidates| - 1], candidates[|candidates| - 1]);
      assert candidates == front + [last] && last in candidates;
      ReduceKeepsCoverage(front);
      ReduceStep(candidates, front, last);
    }
  }

  lemma ReduceStep(candidates: seq<string>, front: seq<string>, last: string)
    requires Ascending(candidates) && candidates == front + [last] && IsNormalized(last)
    requires var before := Reduce(front);
             && Ascending(before) && Reduced(before) && |before| <= |front|
             && (forall x <- before :: x in front) && CoversAll(before, front)
    ensures var kept := Reduce(candidates);
            && Ascending(kept) && Reduced(kept) && |kept| <= |candidates|
            && (forall x <- kept :: x in candidates) && CoversAll(kept, candidates)
  {
    hide CoveredBy, Compare, IsNormalized, Within, CoversAll, Ascending, Reduced;
    var before := Reduce(front);
    assert candidates[..|candidates| - 1] == front;
    if exists owner <- before :: Within(last, [owner]) {
      var owner :| owner in before && Within(last, [owner]);
      NormalizedWithin(last, owner);
      CoversOneMore(before, front, last, owner);
    } else {
      forall owner <- before ensures !CoveredBy(last, owner) {
        NormalizedWithin(last, owner);
      }
      ReducedGrows(front, before, last);
      CoversItself(last);
      CoversMore(before, last, front);
      CoversOneMore(before + [last], front, last, last);
    }
  }

  lemma ReducedGrows(front: seq<string>, before: seq<string>, last: string)
    requires Ascending(front + [last]) && Ascending(before) && Reduced(before) && forall x <- before :: x in front
    requires forall owner <- before :: !CoveredBy(last, owner)
    ensures Ascending(before + [last]) && Reduced(before + [last])
  {
    hide CoveredBy, Compare;
    forall i | 0 <= i < |before| ensures Compare(before[i], last) < 0 {
      assert before[i] in front;
      var k :| 0 <= k < |front| && front[k] == before[i];
      assert (front + [last])[k] == front[k] && (front + [last])[|front|] == last;
    }
  }

  lemma CoversItself(path: string)
    ensures CoveredBy(path, path)
  {
  }

  lemma CoversOneMore(owners: seq<string>, paths: seq<string>, last: string, owner: string)
    requires CoversAll(owners, paths) && owner in owners && CoveredBy(last, owner)
    ensures CoversAll(owners, paths + [last])
  {
    hide CoveredBy;
  }

  lemma CoversMore(owners: seq<string>, more: string, paths: seq<string>)
    requires CoversAll(owners, paths)
    ensures CoversAll(owners + [more], paths)
  {
    hide CoveredBy;
    forall x <- paths ensures exists owner <- owners + [more] :: CoveredBy(x, owner) {
      var owner :| owner in owners && CoveredBy(x, owner);
      assert owner in owners + [more];
    }
  }

  lemma {:induction false} ReduceFixed(paths: seq<string>)
    requires Reduced(paths) && AllNormalized(paths)
    ensures Reduce(paths) == paths
    decreases |paths|
  {
    if paths != [] {
      var (front, last) := (paths[..|paths| - 1], paths[|paths| - 1]);
      assert paths == front + [last];
      ReduceFixed(front);
      forall owner <- front ensures !Within(last, [owner]) {
        WithinOne(last, owner);
        assert last in paths;
      }
    }
  }

  lemma {:induction false} NormalizeAllEach(scope: seq<string>)
    ensures NormalizeAll(scope).Ok? <==> forall e <- scope :: NormalizePath(e).Ok?
    ensures NormalizeAll(scope).Ok? ==>
              var paths := NormalizeAll(scope).value;
              |paths| == |scope| && forall i | 0 <= i < |scope| :: NormalizePath(scope[i]) == Ok(paths[i])
  {
    if scope != [] {
      NormalizeAllEach(scope[1..]);
      if NormalizeAll(scope).Ok? {
        var paths := NormalizeAll(scope).value;
        forall i | 0 <= i < |scope| ensures NormalizePath(scope[i]) == Ok(paths[i]) {
          assert i > 0 ==> scope[i] == scope[1..][i - 1];
        }
        forall e <- scope ensures NormalizePath(e).Ok? {
          assert e == scope[0] || e in scope[1..];
        }
      } else if NormalizePath(scope[0]).Ok? {
        var e :| e in scope[1..] && NormalizePath(e).Err?;
        assert e in scope;
      }
    }
  }

  lemma {:induction false} NormalizeAllFixed(paths: seq<string>)
    requires AllNormalized(paths)
    ensures NormalizeAll(paths) == Ok(paths)
  {
    if paths != [] {
      assert paths[0] in paths && IsNormalized(paths[0]);
      NormalizeAllFixed(paths[1..]);
      assert [paths[0]] + paths[1..] == paths;
    }
  }

  lemma {:induction false} SortNoLonger(entries: seq<string>)
    ensures |SortUnique(entries)| <= |entries|
    decreases |entries|
  {
    if entries != [] {
      SortNoLonger(entries[..|entries| - 1]);
      InsertNoLonger(entries[|entries| - 1], SortUnique(entries[..|entries| - 1]));
    }
  }

  lemma {:induction false} InsertNoLonger(entry: string, sorted: seq<string>)
    ensures |InsertUnique(entry, sorted)| <= |sorted| + 1
  {
    if sorted != [] {
      InsertNoLonger(entry, sorted[1..]);
    }
  }

  /** The parts of an accepted scope: its normalized entries, sorted, and what reduction keeps. */
  lemma ScopeParts(scope: seq<string>) returns (paths: seq<string>, sorted: seq<string>)
    requires NormalizeScope(scope).Ok?
    ensures NormalizeAll(scope) == Ok(paths) && sorted == SortUnique(paths)
        && NormalizeScope(scope).value == Reduce(sorted)
    ensures |paths| == |scope| && forall i | 0 <= i < |scope| :: NormalizePath(scope[i]) == Ok(paths[i])
    ensures Ascending(sorted) && AllNormalized(sorted) && |sorted| <= |scope|
    ensures forall x :: x in sorted <==> x in paths
  {
    paths := NormalizeAll(scope).value;
    sorted := SortUnique(paths);
    NormalizeAllEach(scope);
    SortAscends(paths);
    SortNoLonger(paths);
    forall x <- sorted ensures IsNormalized(x) {
      var i :| 0 <= i < |paths| && paths[i] == x;
      NormalizeIsIdempotent(scope[i]);
    }
  }

  /** Some entry of the scope, once normalized, covers the path. */
  ghost predicate EntryCovers(scope: seq<string>, path: string) {
    exists i | 0 <= i < |scope| ::
      NormalizePath(scope[i]).Ok? && Within(path, [NormalizePath(scope[i]).value])
  }

  /** Normalizing a scope keeps exactly what its entries cover. */
  lemma NormalizationKeepsCoverage(scope: seq<string>, path: string)
    requires NormalizeScope(scope).Ok?
    ensures Within(path, NormalizeScope(scope).value) <==> EntryCovers(scope, path)
  {
    hide NormalizePath, CoveredBy, Reduce, SortUnique, NormalizeAll;
    var paths, sorted := ScopeParts(scope);
    ReduceKeepsCoverage(sorted);
    var kept := Reduce(sorted);
    if Within(path, kept) {
      KeptIsEntry(scope, paths, kept, path);
    }
    if EntryCovers(scope, path) {
      var i :| 0 <= i < |scope| && NormalizePath(scope[i]).Ok? && Within(path, [NormalizePath(scope[i]).value]);
      assert paths[i] in sorted;
      EntryIsKept(path, paths[i], kept);
    }
  }

  lemma KeptIsEntry(scope: seq<string>, paths: seq<string>, kept: seq<string>, path: string)
    requires |paths| == |scope| && forall i | 0 <= i < |scope| :: NormalizePath(scope[i]) == Ok(paths[i])
    requires Within(path, kept) && forall x <- kept :: x in paths
    ensures EntryCovers(scope, path)
  {
    hide NormalizePath, CoveredBy;
    var owner :| owner in kept && CoveredBy(NormalizePath(path).value, owner);
    var i :| 0 <= i < |paths| && paths[i] == owner;
    WithinOne(path, paths[i]);
    assert NormalizePath(scope[i]).value == owner;
  }

  lemma EntryIsKept(path: string, entry: string, kept: seq<string>)
    requires Within(path, [entry]) && exists owner <- kept :: CoveredBy(entry, owner)
    ensures Within(path, kept)
  {
    hide NormalizePath, CoveredBy;
    WithinOne(path, entry);
    var owner :| owner in kept && CoveredBy(entry, owner);
    CoverTransitive(NormalizePath(path).value, entry, owner);
  }

  /** In a normalized scope one entry lies within another only when the other is a later ".". */
  lemma NormalizedScopeIsAntichain(scope: seq<string>, i: nat, j: nat)
    requires NormalizeScope(scope).Ok?
    requires i < |NormalizeScope(scope).value| && j < |NormalizeScope(scope).value| && i != j
    ensures var kept := NormalizeScope(scope).value;
            Within(kept[i], [kept[j]]) <==> kept[j] == "." && i < j
  {
    var paths, sorted := ScopeParts(scope);
    ReduceKeepsCoverage(sorted);
    var kept := Reduce(sorted);
    assert kept[i] in kept && kept[i] in sorted;
    WithinOne(kept[i], kept[j]);
    if i < j {
      CompareOpposite(kept[i], kept[j]);
      CompareSelf(kept[i]);
      if kept[j] + "/" <= kept[i] {
        ExtensionIsGreater(kept[j], kept[i]);
      }
    }
  }

  /** A normalized scope normalizes to itself, so a stored record passes its canonical-scope check. */
  lemma ScopeNormalizationIsIdempotent(scope: seq<string>)
    requires NormalizeScope(scope).Ok?
    ensures NormalizeScope(NormalizeScope(scope).value) == NormalizeScope(scope)
  {
    var paths, sorted := ScopeParts(scope);
    ReduceKeepsCoverage(sorted);
    var kept := Reduce(sorted);
    assert paths[0] in sorted;
    NormalizeAllFixed(kept);
    SortFixed(kept);
    ReduceFixed(kept);
  }

  // ---------------------------------------------------------------- overlap

  /** Folding works segment by segment and leaves the whole-repository entry alone. */
  ghost predicate Segmentwise(fold: string -> string) {
    fold(".") == "." && forall x: string, y: string :: fold(x + "/" + y) == fold(x) + "/" + fold(y)
  }

  ghost predicate FoldsClean(fold: string -> string, scope: seq<string>) {
    forall e <- scope :: IsNormalized(e) && IsNormalized(fold(e))
  }

  lemma OverlapIsSymmetric(fold: string -> string, left: seq<string>, right: seq<string>)
    ensures ScopesOverlap(fold, left, right) <==> ScopesOverlap(fold, right, left)
  {
    hide SomeWithin;
  }

  /** Folding keeps one entry within another. */
  lemma FoldKeepsCover(fold: string -> string, path: string, owner: string)
    requires Segmentwise(fold) && CoveredBy(path, owner)
    ensures CoveredBy(fold(path), fold(owner))
  {
    if owner + "/" <= path {
      var y := path[|owner| + 1..];
      assert path == owner + "/" + y;
      assert fold(owner + "/" + y) == fold(owner) + "/" + fold(y);
    }
  }

  /** Of two entries that cover one path, one covers the other. */
  lemma CommonPathNests(path: string, a: string, b: string)
    requires CoveredBy(path, a) && CoveredBy(path, b)
    ensures CoveredBy(a, b) || CoveredBy(b, a)
  {
    if a != "." && b != "." && a != b {
      if |a| <= |b| {
        assert a == path[..|a|];
        assert b == path[..|b|];
        assert |a| < |b| && path[|a|] == '/';
        assert a + "/" == b[..|a| + 1];
      } else {
        assert b == path[..|b|] && a == path[..|a|] && path[|b|] == '/';
        assert b + "/" == a[..|b| + 1];
      }
    }
  }

  lemma NestedOverlap(fold: string -> string, inner: string, left: seq<string>, owner: string, right: seq<string>)
    requires Segmentwise(fold) && inner in left && owner in right && CoveredBy(inner, owner)
    requires IsNormalized(fold(inner))
    ensures ScopesOverlap(fold, left, right)
  {
    FoldKeepsCover(fold, inner, owner);
    hide NormalizePath, CoveredBy;
    var i :| 0 <= i < |left| && left[i] == inner;
    var j :| 0 <= j < |right| && right[j] == owner;
    var (l, r) := (Folded(fold, left), Folded(fold, right));
    assert l[i] == fold(inner) && r[j] == fold(owner);
    assert Within(l[i], r) by {
      assert r[j] in r && NormalizePath(l[i]).value == l[i];
    }
    assert SomeWithin(l, r);
  }

  /** Scopes that do not overlap share no path, as long as every entry folds to a valid path. */
  lemma NoOverlapMeansDisjoint(fold: string -> string, left: seq<string>, right: seq<string>, path: string)
    requires Segmentwise(fold) && FoldsClean(fold, left) && FoldsClean(fold, right)
    requires !ScopesOverlap(fold, left, right)
    ensures !(Within(path, left) && Within(path, right))
  {
    if Within(path, left) && Within(path, right) {
      var n := NormalizePath(path).value;
      var a :| a in left && CoveredBy(n, a);
      var b :| b in right && CoveredBy(n, b);
      CommonPathNests(n, a, b);
      if CoveredBy(a, b) {
        NestedOverlap(fold, a, left, b, right);
      } else {
        NestedOverlap(fold, b, right, a, left);
        OverlapIsSymmetric(fold, left, right);
      }
    }
  }

  /** An entry overlaps itself exactly when folding leaves it a valid path. */
  lemma OverlapSeesItselfExactly(fold: string -> string, entry: string)
    ensures ScopesOverlap(fold, [entry], [entry]) <==> IsNormalized(fold(entry))
  {
    var f := fold(entry);
    assert Folded(fold, [entry]) == [f];
    assert f in [f];
    WithinOne(f, f);
    if NormalizePath(f).Ok? {
      var n := NormalizePath(f).value;
      NormalizedLength(f);
      if f + "/" <= n {
        ExtensionIsLonger(f, n);
      } else if f == "." {
        DotIsNormalized();
      }
    }
  }

  lemma ExtensionIsLonger(x: string, y: string)
    requires x + "/" <= y
    ensures Units(x) < Units(y)
  {
    UnitsAdd(x + "/", y[|x| + 1..]);
    UnitsAdd(x, "/");
    assert y == x + "/" + y[|x| + 1..] && Units("/") == 1;
  }

  lemma DotIsNormalized()
    ensures IsNormalized(".")
  {
    assert Canonical(".", [], false) && Plain(".") && Units(".") == 1;
    CanonicalIsFixed(".", [], false);
  }

  ghost predicate Disjoint(left: seq<string>, right: seq<string>) {
    forall path :: !(Within(path, left) && Within(path, right))
  }

  ghost predicate DrawnFrom(scope: seq<string>, entries: set<string>) {
    forall e <- scope :: e in entries
  }

  /** The overlap answer can be trusted for every pair of scopes over these entries. */
  ghost predicate Trustworthy(fold: string -> string, entries: set<string>) {
    forall left, right | DrawnFrom(left, entries) && DrawnFrom(right, entries) && !ScopesOverlap(fold, left, right) ::
      Disjoint(left, right)
  }

  /**
   * A negative answer means disjoint scopes for all scopes over some entries exactly when
   * every one of those entries still is a valid path after folding.
   */
  lemma OverlapTrustworthyExactly(fold: string -> string, entries: set<string>)
    requires Segmentwise(fold) && forall e <- entries :: IsNormalized(e)
    ensures Trustworthy(fold, entries) <==> forall e <- entries :: IsNormalized(fold(e))
  {
    if Trustworthy(fold, entries) {
      forall e <- entries ensures IsNormalized(fold(e)) {
        assert DrawnFrom([e], entries);
        OverlapSeesItselfExactly(fold, e);
        WithinOne(e, e);
        assert Disjoint([e], [e]) ==> !Within(e, [e]);
      }
    }
    if forall e <- entries :: IsNormalized(fold(e)) {
      forall left, right | DrawnFrom(left, entries) && DrawnFrom(right, entries) && !ScopesOverlap(fold, left, right)
        ensures Disjoint(left, right)
      {
        forall path ensures !(Within(path, left) && Within(path, right)) {
          NoOverlapMeansDisjoint(fold, left, right, path);
        }
      }
    }
  }

  /** ".Git" is an accepted entry that no longer overlaps itself once it is folded to ".git". */
  lemma FoldedGitDirectoryIsMissed(fold: string -> string)
    requires fold(".Git") == ".git"
    ensures IsNormalized(".Git") && Within(".Git", [".Git"]) && !ScopesOverlap(fold, [".Git"], [".Git"])
  {
    assert Ordinary(".Git") && Plain(".Git");
    assert Units(".Git") <= 8 by {
      assert ".Git" == "." + "G" + "i" + "t";
      UnitsAdd("." + "G" + "i", "t");
      UnitsAdd("." + "G", "i");
      UnitsAdd(".", "G");
    }
    assert Join([".Git"]) + "" == ".Git";
    CanonicalIsFixed(".Git", [".Git"], false);
    WithinOne(".Git", ".Git");
    OverlapSeesItselfExactly(fold, ".Git");
    SplitOne(".git");
    assert !IsNormalized(".git");
  }

  // ---------------------------------------------------------------- the loops

  method CompareCodePoints(left: string, right: string) returns (difference: int)
    ensures difference == Compare(left, right)
  {
    var index := 0;
    while index < |left| && index < |right|
      invariant 0 <= index <= |left| && index <= |right|
      invariant Compare(left, right) == Compare(left[index..], right[index..])
    {
      if left[index] != right[index] {
        return left[index] as int - right[index] as int;
      }
      assert left[index..][1..] == left[index + 1..] && right[index..][1..] == right[index + 1..];
      index := index + 1;
    }
    return |left| - |right|;
  }

  function Prepended(paths: seq<string>, rest: Result<seq<string>, PathError>): Result<seq<string>, PathError> {
    match rest
    case Err(e) => Err(e)
    case Ok(more) => Ok(paths + more)
  }

  lemma PrependNothing(scope: seq<string>)
    ensures NormalizeAll(scope) == Prepended([], NormalizeAll(scope[0..]))
  {
    assert scope[0..] == scope;
    if NormalizeAll(scope).Ok? {
      assert [] + NormalizeAll(scope).value == NormalizeAll(scope).value;
    }
  }

  lemma PrependStep(paths: seq<string>, scope: seq<string>)
    requires scope != []
    ensures match NormalizePath(scope[0])
            case Err(e) => Prepended(paths, NormalizeAll(scope)) == Err(e)
            case Ok(first) =>
              Prepended(paths, NormalizeAll(scope)) == Prepended(paths + [first], NormalizeAll(scope[1..]))
  {
    hide NormalizePath;
    if NormalizePath(scope[0]).Ok? && NormalizeAll(scope[1..]).Ok? {
      var (first, rest) := (NormalizePath(scope[0]).value, NormalizeAll(scope[1..]).value);
      assert paths + ([first] + rest) == paths + [first] + rest;
    }
  }

  method NormalizeImplementScope(scope: seq<string>) returns (r: Result<seq<string>, ScopeError>)
    ensures r == NormalizeScope(scope)
  {
    hide NormalizePath, Within, InsertUnique;
    if scope == [] {
      return Err(EmptyScope);
    }
    if |scope| > MAX_ENTRIES {
      return Err(TooManyEntries);
    }
    var paths: seq<string> := [];
    PrependNothing(scope);
    while |paths| < |scope|
      invariant |paths| <= |scope|
      invariant NormalizeAll(scope) == Prepended(paths, NormalizeAll(scope[|paths|..]))
      decreases |scope| - |paths|
    {
      PrependStep(paths, scope[|paths|..]);
      var entry := NormalizePath(scope[|paths|]);
      if entry.Err? {
        return Err(BadEntry(entry.error));
      }
      assert scope[|paths|..][1..] == scope[|paths| + 1..];
      paths := paths + [entry.value];
    }
    assert NormalizeAll(scope[|paths|..]) == Ok([]);
    var sorted: seq<string> := [];
    for i := 0 to |paths|
      invariant sorted == SortUnique(paths[..i])
    {
      assert paths[..i + 1][..i] == paths[..i];
      sorted := InsertUnique(paths[i], sorted);
    }
    assert paths[..|paths|] == paths && paths + [] == paths;
    var reduced: seq<string> := [];
    for i := 0 to |sorted|
      invariant reduced == Reduce(sorted[..i])
    {
      assert sorted[..i + 1][..i] == sorted[..i];
      if !exists owner <- reduced :: Within(sorted[i], [owner]) {
        reduced := reduced + [sorted[i]];
      }
    }
    assert sorted[..|sorted|] == sorted;
    return Ok(reduced);
  }
}
