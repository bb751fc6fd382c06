/**
 * What repository-relative paths mean (implement-scope.ts): a path leads from the repository
 * root to a place, and accepting, normalizing and covering are said in terms of places,
 * without the strings the program works with.
 */
module ScopeMeaning {
  import opened Wrappers
  import opened ImplementScope

  /** So many directories above where one started, and then down these names. */
  datatype Place = Place(ups: nat, names: seq<string>)

  function Entered(p: Place, segment: string): Place {
    if segment == "" || segment == "." then p
    else if segment != ".." then p.(names := p.names + [segment])
    else if p.names == [] then p.(ups := p.ups + 1)
    else p.(names := p.names[..|p.names| - 1])
  }

  function Walked(p: Place, segments: seq<string>): Place
    decreases |segments|
  {
    if segments == [] then p else Walked(Entered(p, segments[0]), segments[1..])
  }

  const ROOT := Place(0, [])

  function Destination(path: string): Place {
    Walked(ROOT, Split(path))
  }

  function Dots(n: nat): seq<string> {
    seq(n, _ => "..")
  }

  lemma {:induction false} ResolveWalks(segments: seq<string>, p: Place)
    requires forall name <- p.names :: name != ".."
    ensures var q := Walked(p, segments);
            Resolve(segments, Dots(p.ups) + p.names) == Dots(q.ups) + q.names && forall name <- q.names :: name != ".."
    decreases |segments|
  {
    if segments != [] {
      var stack := Dots(p.ups) + p.names;
      var next := Entered(p, segments[0]);
      ResolveWalks(segments[1..], next);
      if segments[0] == ".." && p.names != [] {
        assert stack[|stack| - 1] == p.names[|p.names| - 1] && p.names[|p.names| - 1] in p.names;
        assert stack[..|stack| - 1] == Dots(next.ups) + next.names;
      } else if segments[0] == ".." {
        assert stack == Dots(p.ups) && stack + [".."] == Dots(next.ups) + next.names;
      } else if segments[0] != "" && segments[0] != "." {
        assert stack + [segments[0]] == Dots(next.ups) + next.names;
      }
    }
  }

  /** The segments normalization keeps: first the way up, then the ordinary names of the place. */
  lemma Resolved(path: string)
    ensures Resolve(Split(path), []) == Dots(Destination(path).ups) + Destination(path).names
    ensures forall name <- Destination(path).names :: Ordinary(name)
  {
    var q := Destination(path);
    ResolveWalks(Split(path), ROOT);
    assert Dots(0) + [] == [];
    JoinSplit(path);
    ResolveIsClean(Split(path), []);
    forall name <- q.names ensures Ordinary(name) {
      assert name in Dots(q.ups) + q.names;
    }
  }

  // ---------------------------------------------------------------- which paths are accepted

  /** The code units JavaScript counts. */
  function Utf16(value: string): (units: seq<nat>)
    ensures forall u <- units :: u < 0x1_0000
  {
    if value == "" then []
    else
      var code := value[0] as int;
      (if code < 0x1_0000 then [code] else [0xD7C0 + code / 0x400, 0xDC00 + code % 0x400]) + Utf16(value[1..])
  }

  lemma {:induction false} UnitsAreUtf16(value: string)
    ensures Units(value) == |Utf16(value)|
  {
    if value != "" {
      UnitsAreUtf16(value[1..]);
    }
  }

  /** Not empty, at most 1024 units, no control character, no backslash. */
  predicate Bounded(value: string) {
    && 0 < |Utf16(value)| <= 1024
    && forall ch <- value :: ch >= ' ' && ch as int != 127 && ch != '\\'
  }

  lemma BoundedExactly(value: string)
    ensures Bounded(value)
            <==> !(value == "" || Units(value) > MAX_PATH_UNITS || exists ch <- value :: !PlainChar(ch))
  {
    UnitsAreUtf16(value);
    UnitsAtLeast(value);
    assert forall ch: char :: PlainChar(ch) <==> ch >= ' ' && ch as int != 127 && ch != '\\';
  }

  lemma OutsideExactly(value: string)
    ensures var normalized := Normalize(value);
            normalized == ".." || "../" <= normalized <==> Destination(value).ups > 0
    ensures Destination(value).ups == 0 ==> (".git" in Split(Normalize(value)) <==> ".git" in Destination(value).names)
  {
    hide Normalize, Split, Resolve, Join;
    Resolved(value);
    NormalizeIs(value);
    var q := Destination(value);
    var segments := Dots(q.ups) + q.names;
    if q.ups > 0 {
      assert segments[0] == "..";
      ClimbsOut(segments, EndsWithSlash(value));
    } else {
      assert segments == q.names;
      SplitCanonical(q.names, EndsWithSlash(value), Normalize(value));
      FirstSegment(Normalize(value));
      assert q.names != [] ==> q.names[0] in q.names;
    }
  }

  lemma NormalizeIs(value: string)
    ensures var segments := Resolve(Split(value), []);
            Normalize(value)
            == (if segments == [] then "." else Join(segments)) + if EndsWithSlash(value) then "/" else ""
  {
  }

  /**
   * A path is accepted exactly when it is bounded and relative and leads to a place inside the
   * repository and outside any `.git`, wherever it went on the way; and otherwise this says why not.
   */
  lemma PathAcceptedExactly(value: string)
    ensures var (r, place) := (NormalizePath(value), Destination(value));
            && (r == Err(Unbounded) <==> !Bounded(value))
            && (r == Err(Absolute) <==> Bounded(value) && value[0] == '/')
            && (r == Err(OutsideRepository) <==> Bounded(value) && value[0] != '/' && place.ups > 0)
            && (r == Err(GitMetadata)
                <==> Bounded(value) && value[0] != '/' && place.ups == 0 && ".git" in place.names)
            && (r.Ok? <==> Bounded(value) && value[0] != '/' && place.ups == 0 && ".git" !in place.names)
  {
    hide Normalize, Split, Units, Utf16;
    BoundedExactly(value);
    OutsideExactly(value);
  }

  /** Normalizing keeps the place a path leads to, and writes it in one way only. */
  lemma NormalizationKeepsThePlace(value: string)
    requires NormalizePath(value).Ok?
    ensures var path := NormalizePath(value).value;
            && Destination(path) == Destination(value)
            && path == (if Destination(value).names == [] then "." else Join(Destination(value).names))
                       + if EndsWithSlash(value) then "/" else ""
  {
    hide Normalize, Split, Resolve, Join;
    var path := NormalizePath(value).value;
    NormalizeIsIdempotent(value);
    PathAcceptedExactly(value);
    PathAcceptedExactly(path);
    Resolved(value);
    Resolved(path);
    NormalizeIs(value);
    assert Dots(0) + Destination(value).names == Destination(value).names;
    assert Dots(0) + Destination(path).names == Destination(path).names;
    var segments := AcceptedIsCanonical(path);
    SplitCanonical(Destination(value).names, EndsWithSlash(value), path);
    ResolvesToItself(Destination(value).names, EndsWithSlash(value), path);
  }

  lemma ResolvesToItself(names: seq<string>, trailing: bool, path: string)
    requires forall name <- names :: Ordinary(name)
    requires Split(path) == (if names == [] then ["."] else names) + if trailing then [""] else []
    ensures Resolve(Split(path), []) == names
  {
    ResolveKeepsOrdinary(names, []);
    ResolveDot(trailing);
    assert names + [] == names && [] + names == names;
  }

  // ---------------------------------------------------------------- what is covered

  lemma SplitStep(value: string)
    requires value != ""
    ensures var rest := Split(value[1..]);
            Split(value) == if value[0] == '/' then [""] + rest else [[value[0]] + rest[0]] + rest[1..]
  {
  }

  lemma Prepended(first: string, rest: seq<string>, more: seq<string>)
    requires rest != []
    ensures [first + rest[0]] + rest[1..] + more == [first + (rest + more)[0]] + (rest + more)[1..]
  {
    assert (rest + more)[1..] == rest[1..] + more;
  }

  lemma {:induction false} SplitAt(left: string, right: string)
    ensures Split(left + "/" + right) == Split(left) + Split(right)
  {
    hide Split;
    var whole := left + "/" + right;
    SplitStep(whole);
    if left == "" {
      assert whole[1..] == right;
      SplitOne("");
    } else {
      assert whole[1..] == left[1..] + "/" + right && whole[0] == left[0];
      SplitAt(left[1..], right);
      SplitStep(left);
      var rest := Split(left[1..]);
      if left[0] == '/' {
        assert [""] + (rest + Split(right)) == [""] + rest + Split(right);
      } else {
        Prepended([left[0]], rest, Split(right));
      }
    }
  }

  lemma {:induction false} JoinAt(left: seq<string>, right: seq<string>)
    requires left != [] && right != []
    ensures Join(left + right) == Join(left) + "/" + Join(right)
  {
    if |left| > 1 {
      assert (left + right)[1..] == left[1..] + right;
      JoinAt(left[1..], right);
    } else {
      assert (left + right)[1..] == right;
    }
  }

  /** What a path that begins with another and a slash says about their segments. */
  lemma PrefixOfSegments(path: string, names: seq<string>, trailing: bool, owner: string, above: seq<string>)
    requires (forall name <- names :: Ordinary(name)) && (forall name <- above :: Ordinary(name)) && above != []
    requires Split(path) == (if names == [] then ["."] else names) + if trailing then [""] else []
    requires Split(owner) == above && (path == owner || owner + "/" <= path)
    ensures above <= names
  {
    hide Split;
    if path != owner {
      var rest := path[|owner| + 1..];
      assert path == owner + "/" + rest;
      SplitAt(owner, rest);
      assert Split(path)[0] == above[0] && above[0] in above;
      var whole := names + if trailing then [""] else [];
      assert above + Split(rest) == whole;
      assert |above| <= |names| && above == whole[..|above|] && whole[..|above|] == names[..|above|];
    } else {
      assert above[0] in above && above[|above| - 1] in above;
      assert Split(path)[|Split(path)| - 1] == above[|above| - 1];
      assert names + [] == names;
    }
  }

  lemma BelowIsCovered(path: string, names: seq<string>, trailing: bool, owner: string, above: seq<string>)
    requires path == (if names == [] then "." else Join(names)) + (if trailing then "/" else "")
    requires above != [] && owner == Join(above) && above <= names
    ensures path == owner || owner + "/" <= path
  {
    hide Join;
    if above != names {
      var below := names[|above|..];
      assert names == above + below;
      JoinAt(above, below);
    }
  }

  lemma CoveredIsBelow(path: string, owner: string)
    requires NormalizePath(path).Ok? && IsNormalized(owner) && !EndsWithSlash(owner)
    ensures CoveredBy(NormalizePath(path).value, owner) <==> Destination(owner).names <= Destination(path).names
  {
    hide Normalize, NormalizePath, Split, Resolve, Join, Destination, EndsWithSlash;
    var n := NormalizePath(path).value;
    var (names, above) := (Destination(path).names, Destination(owner).names);
    NormalizationKeepsThePlace(path);
    NormalizationKeepsThePlace(owner);
    Resolved(path);
    Resolved(owner);
    SplitCanonical(names, EndsWithSlash(path), n);
    SplitCanonical(above, false, owner);
    if above != [] {
      assert owner != "." by { assert Split(owner) == above && above[0] in above; SplitOne("."); }
      if n == owner || owner + "/" <= n {
        PrefixOfSegments(n, names, EndsWithSlash(path), owner, above);
      }
      if above <= names {
        BelowIsCovered(n, names, EndsWithSlash(path), owner, above);
      }
    }
  }

  /** An entry that ends in no slash covers exactly the accepted paths that lead to its place or below it. */
  lemma WithinMeansBelow(path: string, owner: string)
    requires IsNormalized(owner) && !EndsWithSlash(owner)
    ensures Within(path, [owner])
            <==> NormalizePath(path).Ok? && Destination(owner).names <= Destination(path).names
  {
    hide NormalizePath, Destination, EndsWithSlash, CoveredBy;
    WithinOne(path, owner);
    if NormalizePath(path).Ok? {
      CoveredIsBelow(path, owner);
    }
  }

  // ---------------------------------------------------------------- scopes

  /** The first entry that is refused, and why. */
  predicate FirstRefused(scope: seq<string>, i: nat, error: PathError) {
    && i < |scope| && NormalizePath(scope[i]) == Err(error)
    && forall j | 0 <= j < i :: NormalizePath(scope[j]).Ok?
  }

  lemma RefusedAtOnce(scope: seq<string>)
    requires scope != [] && NormalizePath(scope[0]).Err?
    ensures FirstRefused(scope, 0, NormalizePath(scope[0]).error)
  {
  }

  lemma RefusedLater(scope: seq<string>, i: nat, error: PathError)
    requires scope != [] && NormalizePath(scope[0]).Ok? && FirstRefused(scope[1..], i, error)
    ensures FirstRefused(scope, i + 1, error)
  {
    hide NormalizePath;
    assert forall j | 0 < j < |scope| :: scope[j] == scope[1..][j - 1];
  }

  lemma {:induction false} NormalizeAllExactly(scope: seq<string>)
    ensures NormalizeAll(scope).Ok? ==> forall i | 0 <= i < |scope| :: NormalizePath(scope[i]).Ok?
    ensures NormalizeAll(scope).Err? ==> exists i: nat :: FirstRefused(scope, i, NormalizeAll(scope).error)
    decreases |scope|
  {
    hide NormalizePath, FirstRefused;
    if scope != [] {
      var rest := scope[1..];
      NormalizeAllExactly(rest);
      assert forall i | 0 < i < |scope| :: scope[i] == rest[i - 1];
      if NormalizePath(scope[0]).Err? {
        RefusedAtOnce(scope);
        assert FirstRefused(scope, 0, NormalizeAll(scope).error);
      } else if NormalizeAll(rest).Err? {
        var i: nat :| FirstRefused(rest, i, NormalizeAll(rest).error);
        RefusedLater(scope, i, NormalizeAll(rest).error);
        assert FirstRefused(scope, i + 1, NormalizeAll(scope).error);
      }
    }
  }

  /** A scope is accepted exactly when it has 1 to 64 entries, all of them accepted; else this is the error. */
  lemma ScopeAcceptedExactly(scope: seq<string>)
    ensures match NormalizeScope(scope)
            case Ok(_) => 1 <= |scope| <= 64 && forall i | 0 <= i < |scope| :: NormalizePath(scope[i]).Ok?
            case Err(EmptyScope) => scope == []
            case Err(TooManyEntries) => |scope| > 64
            case Err(BadEntry(e)) => 1 <= |scope| <= 64 && exists i: nat :: FirstRefused(scope, i, e)
  {
    NormalizeAllExactly(scope);
    hide NormalizeAll, NormalizePath, FirstRefused;
  }

  predicate Nested(left: Place, right: Place) {
    left.names <= right.names || right.names <= left.names
  }

  /** Entries that are in good order once folded overlap exactly when the place of one lies below that of the other. */
  lemma OverlapMeansNested(fold: string -> string, left: seq<string>, right: seq<string>)
    requires forall entry <- left + right :: IsNormalized(fold(entry)) && !EndsWithSlash(fold(entry))
    ensures ScopesOverlap(fold, left, right)
            <==> exists i, j | 0 <= i < |left| && 0 <= j < |right| ::
              Nested(Destination(fold(left[i])), Destination(fold(right[j])))
  {
    hide NormalizePath, Destination, EndsWithSlash;
    var (l, r) := (Folded(fold, left), Folded(fold, right));
    forall i, j | 0 <= i < |left| && 0 <= j < |right|
      ensures Nested(Destination(l[i]), Destination(r[j])) <==> Within(l[i], [r[j]]) || Within(r[j], [l[i]])
    {
      assert left[i] in left + right && right[j] in left + right;
      WithinMeansBelow(l[i], r[j]);
      WithinMeansBelow(r[j], l[i]);
    }
    SomeWithinExactly(l, r);
    SomeWithinExactly(r, l);
    hide Within, SomeWithin, IsNormalized, Nested;
    if ScopesOverlap(fold, left, right) {
      if SomeWithin(l, r) {
        var i, j :| 0 <= i < |l| && 0 <= j < |r| && Within(l[i], [r[j]]);
        assert Nested(Destination(fold(left[i])), Destination(fold(right[j])));
      } else {
        var j, i :| 0 <= j < |r| && 0 <= i < |l| && Within(r[j], [l[i]]);
        assert Nested(Destination(fold(left[i])), Destination(fold(right[j])));
      }
    }
    if i, j :| 0 <= i < |left| && 0 <= j < |right| && Nested(Destination(fold(left[i])), Destination(fold(right[j]))) {
      assert Nested(Destination(l[i]), Destination(r[j]));
    }
  }

  lemma SomeWithinExactly(paths: seq<string>, scope: seq<string>)
    ensures SomeWithin(paths, scope)
            <==> exists i, j | 0 <= i < |paths| && 0 <= j < |scope| :: Within(paths[i], [scope[j]])
  {
    hide NormalizePath;
    forall i | 0 <= i < |paths|
      ensures Within(paths[i], scope) <==> exists j | 0 <= j < |scope| :: Within(paths[i], [scope[j]])
    {
      forall owner ensures Within(paths[i], [owner])
                           <==> NormalizePath(paths[i]).Ok? && CoveredBy(NormalizePath(paths[i]).value, owner)
      {
        WithinOne(paths[i], owner);
      }
    }
  }
}
