/**
 * Retiring an owned directory tree (private-path.ts): the tree is inventoried when it is
 * sealed, compared with that inventory twice before anything is deleted, and then deleted
 * entry by entry, deepest first, each entry's identity checked once more.
 *
 * A path is its list of names below the root, which is the empty path.  The filesystem may
 * report any link count for a directory; `report` says which.
 */
module OwnedTree {
  import opened Wrappers

  type Path = seq<string>

  /** A directory or a file; a file knows how many names it has. */
  datatype Node = Dir(inode: nat) | File(inode: nat, links: nat)

  type Fs = map<Path, Node>

  datatype Identity = Identity(inode: nat, directory: bool, links: nat)

  datatype Tree = Tree(root: Identity, entries: map<Path, Identity>)

  /** Every entry's parent is a directory of the same tree. */
  ghost predicate TreeShaped(fs: Fs) {
    forall p | p in fs && p != [] :: p[..|p| - 1] in fs && fs[p[..|p| - 1]].Dir?
  }

  // ---------------------------------------------------------------- identities

  function IdentityOf(fs: Fs, report: (Fs, Path) -> nat, p: Path): Identity
    requires p in fs
  {
    match fs[p]
    case Dir(inode) => Identity(inode, true, report(fs, p))
    case File(inode, links) => Identity(inode, false, links)
  }

  /** None when the path is gone or is a file with more than one name. */
  function Inspect(fs: Fs, report: (Fs, Path) -> nat, p: Path): Option<Identity> {
    if p !in fs || (fs[p].File? && fs[p].links != 1) then None else Some(IdentityOf(fs, report, p))
  }

  /** A directory's link count changes while its children are removed, so it is not compared. */
  predicate SameIdentity(left: Identity, right: Identity) {
    left.inode == right.inode && left.directory == right.directory && (left.directory || left.links == right.links)
  }

  predicate Holds(fs: Fs, report: (Fs, Path) -> nat, p: Path, expected: Identity) {
    Inspect(fs, report, p).Some? && SameIdentity(Inspect(fs, report, p).value, expected)
  }

  // ---------------------------------------------------------------- inventory

  predicate Inspectable(fs: Fs, report: (Fs, Path) -> nat) {
    forall p | p in fs && p != [] :: Inspect(fs, report, p).Some?
  }

  /** Everything below the root; None when something there is not private. */
  function Inventory(fs: Fs, report: (Fs, Path) -> nat): Option<map<Path, Identity>> {
    if Inspectable(fs, report) then Some(map p | p in fs && p != [] :: IdentityOf(fs, report, p)) else None
  }

  function Sealed(fs: Fs, report: (Fs, Path) -> nat, root: Identity, expected: seq<Path>): Option<Tree> {
    if !Holds(fs, report, [], root) || |set p | p in expected| != |expected| then None
    else
      match Inventory(fs, report)
      case None => None
      case Some(entries) => if entries.Keys == (set p | p in expected) then Some(Tree(root, entries)) else None
  }

  predicate Matches(tree: Tree, fs: Fs, report: (Fs, Path) -> nat) {
    && Holds(fs, report, [], tree.root) && Inspectable(fs, report)
    && (forall p | p in fs && p != [] :: p in tree.entries)
    && (forall p <- tree.entries :: Holds(fs, report, p, tree.entries[p]))
  }

  // ---------------------------------------------------------------- deletion

  predicate IsEmpty(fs: Fs, dir: Path) {
    forall p <- fs :: !(|p| == |dir| + 1 && dir <= p)
  }

  /** One deletion: the identity is checked, and a directory must be empty. */
  function Deleted(fs: Fs, report: (Fs, Path) -> nat, p: Path, expected: Identity): Option<Fs> {
    if !Holds(fs, report, p, expected) then None
    else if expected.directory && !IsEmpty(fs, p) then None
    else Some(fs - {p})
  }

  /** What is left, and whether every entry could be deleted. */
  function DeletedAll(fs: Fs, report: (Fs, Path) -> nat, tree: Tree, order: seq<Path>): (Fs, bool)
    requires forall p <- order :: p in tree.entries
    decreases |order|
  {
    if order == [] then (fs, true)
    else
      assert order[0] in order;
      match Deleted(fs, report, order[0], tree.entries[order[0]])
      case None => (fs, false)
      case Some(rest) => DeletedAll(rest, report, tree, order[1..])
  }

  /** Deeper entries come first. */
  ghost predicate DeepestFirst(order: seq<Path>) {
    forall i, j | 0 <= i < j < |order| :: |order[i]| >= |order[j]|
  }

  ghost predicate Distinct(order: seq<Path>) {
    forall i, j | 0 <= i < j < |order| :: order[i] != order[j]
  }

  ghost predicate Enumerates(order: seq<Path>, paths: set<Path>) {
    Distinct(order) && forall p :: p in order <==> p in paths
  }

  /** A tree that matched its inventory is deleted completely, each directory being empty when its turn comes. */
  lemma {:induction false} MatchingTreeGoesAway(fs: Fs, report: (Fs, Path) -> nat, tree: Tree, order: seq<Path>)
    requires DeepestFirst(order) && Enumerates(order, fs.Keys - {[]}) && TreeShaped(fs)
    requires forall p <- order :: p in tree.entries && Holds(fs, report, p, tree.entries[p])
    ensures DeletedAll(fs, report, tree, order) == (map p | p in fs && p == [] :: fs[p], true)
    decreases |order|
  {
    hide Holds, IsEmpty, TreeShaped, DeepestFirst;
    if order == [] {
      forall p <- fs ensures p == [] {
        assert p in order <==> p in fs.Keys - {[]};
      }
      assert fs == map p | p in fs && p == [] :: fs[p];
    } else {
      var (p, rest) := (order[0], order[1..]);
      assert p in order;
      DeepestIsEmpty(fs, order);
      var after := fs - {p};
      forall q <- rest ensures q in tree.entries && Holds(after, report, q, tree.entries[q]) {
        assert q in order;
        FirstIsNotLater(order, q);
        HoldsStill(fs, report, p, q, tree.entries[q]);
      }
      RestDeepestFirst(order);
      RestEnumerates(order, fs.Keys - {[]});
      assert after.Keys - {[]} == (fs.Keys - {[]}) - {p};
      StillTreeShaped(fs, p);
      MatchingTreeGoesAway(after, report, tree, rest);
      assert p != [];
      assert (map q | q in after && q == [] :: after[q]) == (map q | q in fs && q == [] :: fs[q]);
    }
  }

  lemma FirstIsNotLater(order: seq<Path>, q: Path)
    requires Distinct(order) && order != [] && q in order[1..]
    ensures q != order[0]
  {
    var i :| 0 <= i < |order[1..]| && order[1..][i] == q;
    assert order[i + 1] == q;
  }

  lemma RestDeepestFirst(order: seq<Path>)
    requires DeepestFirst(order) && order != []
    ensures DeepestFirst(order[1..])
  {
    assert forall i | 0 <= i < |order[1..]| :: order[1..][i] == order[i + 1];
  }

  lemma DeepestIsEmpty(fs: Fs, order: seq<Path>)
    requires DeepestFirst(order) && Enumerates(order, fs.Keys - {[]}) && order != []
    ensures IsEmpty(fs, order[0])
  {
    forall q <- fs ensures !(|q| == |order[0]| + 1 && order[0] <= q) {
      if q != [] {
        assert q in order;
        var i :| 0 <= i < |order| && order[i] == q;
        assert i == 0 || |order[0]| >= |order[i]|;
      }
    }
  }

  lemma RestEnumerates(order: seq<Path>, paths: set<Path>)
    requires Enumerates(order, paths) && order != []
    ensures Enumerates(order[1..], paths - {order[0]})
  {
    var rest := order[1..];
    assert forall i | 0 <= i < |rest| :: rest[i] == order[i + 1];
    forall p ensures p in rest <==> p in paths - {order[0]} {
      if p in paths && p != order[0] {
        assert p in order;
        var i :| 0 <= i < |order| && order[i] == p;
        assert rest[i - 1] == p;
      }
      if p in rest {
        var i :| 0 <= i < |rest| && rest[i] == p;
        assert p in order;
      }
    }
  }

  /** Deleting one entry changes no other entry's identity, only some directory's link count. */
  lemma HoldsStill(fs: Fs, report: (Fs, Path) -> nat, gone: Path, p: Path, expected: Identity)
    requires p != gone && Holds(fs, report, p, expected)
    ensures Holds(fs - {gone}, report, p, expected)
  {
  }

  lemma StillTreeShaped(fs: Fs, p: Path)
    requires TreeShaped(fs) && IsEmpty(fs, p)
    ensures TreeShaped(fs - {p})
  {
    forall q | q in fs - {p} && q != []
      ensures q[..|q| - 1] in fs - {p} && (fs - {p})[q[..|q| - 1]].Dir?
    {
      assert q[..|q| - 1] <= q;
    }
  }

  // ---------------------------------------------------------------- retirement

  /**
   * The whole retirement.  `between` is what others make of the tree between the two
   * comparisons.  What is left, and whether it succeeded.
   */
  function Retired(fs: Fs, between: Fs, report: (Fs, Path) -> nat, tree: Tree, order: seq<Path>): (Fs, bool)
    requires forall p <- order :: p in tree.entries
  {
    if !Matches(tree, fs, report) then (fs, false)
    else if !Matches(tree, between, report) then (between, false)
    else
      var (left, ok) := DeletedAll(between, report, tree, order);
      if !ok || !Holds(left, report, [], tree.root) || !IsEmpty(left, []) then (left, false) else (left - {[]}, true)
  }

  /** A tree that differs from its inventory at either comparison loses nothing. */
  lemma MismatchLosesNothing(fs: Fs, between: Fs, report: (Fs, Path) -> nat, tree: Tree, order: seq<Path>)
    requires forall p <- order :: p in tree.entries
    ensures !Matches(tree, fs, report) ==> Retired(fs, between, report, tree, order) == (fs, false)
    ensures Matches(tree, fs, report) && !Matches(tree, between, report) ==>
              Retired(fs, between, report, tree, order) == (between, false)
  {
  }

  /** An exact inventory: retirement removes every entry and the root, whatever link counts directories report. */
  lemma ExactInventoryIsRetired(fs: Fs, between: Fs, report: (Fs, Path) -> nat, tree: Tree, order: seq<Path>)
    requires Matches(tree, fs, report) && Matches(tree, between, report) && TreeShaped(between)
    requires DeepestFirst(order) && Enumerates(order, tree.entries.Keys) && [] !in tree.entries
    ensures (forall p <- order :: p in tree.entries) && Retired(fs, between, report, tree, order) == (map[], true)
  {
    hide Holds, Inspectable, IsEmpty, TreeShaped, DeepestFirst;
    forall p <- order ensures p in tree.entries && Holds(between, report, p, tree.entries[p]) {
      assert p in tree.entries.Keys;
    }
    SameKeys(between, report, tree);
    MatchingTreeGoesAway(between, report, tree, order);
    var left := DeletedAll(between, report, tree, order).0;
    RootHolds(between, left, report, tree.root);
    assert left - {[]} == map[];
  }

  /**
   * All or nothing, when nobody interferes with the deletions themselves: a tree that matches its
   * inventory at both comparisons is removed with its root, and any other loses nothing.
   */
  lemma RetirementIsAllOrNothing(fs: Fs, between: Fs, report: (Fs, Path) -> nat, tree: Tree, order: seq<Path>)
    requires TreeShaped(between) && [] !in tree.entries
    requires DeepestFirst(order) && Enumerates(order, tree.entries.Keys)
    ensures (forall p <- order :: p in tree.entries)
    ensures var both := Matches(tree, fs, report) && Matches(tree, between, report);
            var (left, ok) := Retired(fs, between, report, tree, order);
            && (ok <==> both)
            && left == (if both then map[] else if Matches(tree, fs, report) then between else fs)
  {
    hide Matches, TreeShaped, DeepestFirst;
    forall p <- order ensures p in tree.entries {
      assert p in tree.entries.Keys;
    }
    MismatchLosesNothing(fs, between, report, tree, order);
    if Matches(tree, fs, report) && Matches(tree, between, report) {
      ExactInventoryIsRetired(fs, between, report, tree, order);
    }
  }

  lemma SameKeys(fs: Fs, report: (Fs, Path) -> nat, tree: Tree)
    requires Matches(tree, fs, report) && [] !in tree.entries
    ensures tree.entries.Keys == fs.Keys - {[]}
  {
    hide Holds;
    forall p ensures p in tree.entries <==> p in fs.Keys - {[]} {
      if p in tree.entries {
        HoldsMeansThere(fs, report, p, tree.entries[p]);
      }
    }
  }

  lemma HoldsMeansThere(fs: Fs, report: (Fs, Path) -> nat, p: Path, expected: Identity)
    requires Holds(fs, report, p, expected)
    ensures p in fs
  {
  }

  lemma RootHolds(fs: Fs, left: Fs, report: (Fs, Path) -> nat, root: Identity)
    requires Holds(fs, report, [], root) && left == map p | p in fs && p == [] :: fs[p]
    ensures Holds(left, report, [], root) && IsEmpty(left, [])
  {
  }

  /** What was sealed matches as long as nothing changes, even if link counts of directories do. */
  lemma SealedTreeMatches(fs: Fs, report: (Fs, Path) -> nat, root: Identity, expected: seq<Path>,
                          later: (Fs, Path) -> nat)
    requires Sealed(fs, report, root, expected).Some?
    ensures Matches(Sealed(fs, report, root, expected).value, fs, later)
    ensures [] !in Sealed(fs, report, root, expected).value.entries
    ensures Sealed(fs, report, root, expected).value.entries.Keys == (set p | p in expected)
  {
    var tree := Sealed(fs, report, root, expected).value;
    forall p <- tree.entries ensures Holds(fs, later, p, tree.entries[p]) {
      assert Inspect(fs, report, p).Some?;
    }
    forall p | p in fs && p != [] ensures Inspect(fs, later, p).Some? {
      assert Inspect(fs, report, p).Some?;
    }
  }

  // ---------------------------------------------------------------- sealing and matching, written out

  lemma {:induction false} CountedOnce(s: seq<Path>)
    ensures |set p | p in s| <= |s|
    ensures |set p | p in s| == |s| <==> Distinct(s)
    decreases |s|
  {
    if s != [] {
      var (front, last) := (s[..|s| - 1], s[|s| - 1]);
      CountedOnce(front);
      assert (set p | p in s) == (set p | p in front) + {last};
      if last in front {
        var i :| 0 <= i < |front| && front[i] == last;
        assert s[i] == s[|s| - 1];
        assert (set p | p in s) == (set p | p in front);
      } else {
        assert forall i | 0 <= i < |front| :: s[i] == front[i];
      }
    }
  }

  /** The root is the directory or the file with one name that its owner remembers. */
  predicate RootIs(fs: Fs, root: Identity) {
    [] in fs && if root.directory then fs[[]] == Dir(root.inode) else fs[[]] == File(root.inode, 1) && root.links == 1
  }

  /** Every file has one name only. */
  predicate Private(fs: Fs) {
    forall p <- fs :: fs[p].File? ==> fs[p].links == 1
  }

  /** A tree is sealed exactly when its root is the owner's, all is private and the declared entries are those found. */
  lemma SealedExactly(fs: Fs, report: (Fs, Path) -> nat, root: Identity, expected: seq<Path>)
    ensures Sealed(fs, report, root, expected).Some?
            <==> RootIs(fs, root) && Private(fs) && Enumerates(expected, fs.Keys - {[]})
  {
    CountedOnce(expected);
    InventoryExactly(fs, report);
    assert Holds(fs, report, [], root) <==> RootIs(fs, root);
    if Inventory(fs, report).Some? {
      assert (set p | p in expected) == fs.Keys - {[]} <==> forall p :: p in expected <==> p in fs.Keys - {[]};
    }
  }

  lemma InventoryExactly(fs: Fs, report: (Fs, Path) -> nat)
    ensures Inventory(fs, report).Some? <==> forall p | p in fs && p != [] :: fs[p].File? ==> fs[p].links == 1
    ensures Inventory(fs, report).Some? ==> Inventory(fs, report).value.Keys == fs.Keys - {[]}
  {
    forall p | p in fs && p != [] ensures Inspect(fs, report, p).Some? <==> (fs[p].File? ==> fs[p].links == 1) {
    }
  }

  /** What was sealed matches later exactly when not one entry was added, removed or replaced. */
  lemma MatchesExactly(fs: Fs, report: (Fs, Path) -> nat, root: Identity, expected: seq<Path>, now: Fs,
                       later: (Fs, Path) -> nat)
    requires Sealed(fs, report, root, expected).Some?
    ensures Matches(Sealed(fs, report, root, expected).value, now, later) <==> now == fs
  {
    var tree := Sealed(fs, report, root, expected).value;
    SealedTreeMatches(fs, report, root, expected, later);
    SealedExactly(fs, report, root, expected);
    if Matches(tree, now, later) {
      SameKeys(now, later, tree);
      assert now.Keys == fs.Keys;
      forall p <- now ensures now[p] == fs[p] {
        assert p != [] ==> Holds(now, later, p, tree.entries[p]);
      }
    }
  }

  /** A sealed tree is retired exactly when nothing changed before the deletions began. */
  lemma SealedTreeIsRetiredExactly(fs: Fs, report: (Fs, Path) -> nat, root: Identity, expected: seq<Path>,
                                   now: Fs, between: Fs, later: (Fs, Path) -> nat, order: seq<Path>)
    requires Sealed(fs, report, root, expected).Some? && TreeShaped(between)
    requires DeepestFirst(order) && Enumerates(order, fs.Keys - {[]})
    ensures forall p <- order :: p in Sealed(fs, report, root, expected).value.entries
    ensures Retired(now, between, later, Sealed(fs, report, root, expected).value, order)
            == if now != fs then (now, false) else if between != fs then (between, false) else (map[], true)
  {
    var tree := Sealed(fs, report, root, expected).value;
    SealedTreeMatches(fs, report, root, expected, later);
    SealedExactly(fs, report, root, expected);
    assert tree.entries.Keys == fs.Keys - {[]};
    MatchesExactly(fs, report, root, expected, now, later);
    MatchesExactly(fs, report, root, expected, between, later);
    hide Sealed, Retired, Matches;
    RetirementIsAllOrNothing(now, between, later, tree, order);
  }

  // ---------------------------------------------------------------- interference while deleting

  /** Deletion with others changing the tree before every step; each removal with what it saw. */
  function DeletedAmid(fs: Fs, report: (Fs, Path) -> nat, tree: Tree, order: seq<Path>,
                       others: (nat, Fs) -> Fs): seq<(Fs, Path)>
    requires forall p <- order :: p in tree.entries
    decreases |order|
  {
    if order == [] then []
    else
      assert order[0] in order;
      var seen := others(|order|, fs);
      match Deleted(seen, report, order[0], tree.entries[order[0]])
      case None => []
      case Some(rest) => [(seen, order[0])] + DeletedAmid(rest, report, tree, order[1..], others)
  }

  /** Even then only sealed entries go, each with its sealed identity, and no directory that holds anything. */
  lemma {:induction false} OnlySealedEntriesGo(fs: Fs, report: (Fs, Path) -> nat, tree: Tree, order: seq<Path>,
                                               others: (nat, Fs) -> Fs, k: nat)
    requires forall p <- order :: p in tree.entries
    requires k < |DeletedAmid(fs, report, tree, order, others)|
    ensures var (seen, p) := DeletedAmid(fs, report, tree, order, others)[k];
            && p in tree.entries && Holds(seen, report, p, tree.entries[p])
            && (tree.entries[p].directory ==> IsEmpty(seen, p))
    decreases |order|
  {
    hide Holds, IsEmpty;
    assert order[0] in order;
    var seen := others(|order|, fs);
    assert Deleted(seen, report, order[0], tree.entries[order[0]]).Some?;
    if k > 0 {
      OnlySealedEntriesGo(Deleted(seen, report, order[0], tree.entries[order[0]]).value, report, tree, order[1..],
                          others, k - 1);
    }
  }

  /** Nothing is skipped: the entries go in their order, and all of them when nobody interferes and none is refused. */
  lemma {:induction false} GoneInOrder(fs: Fs, report: (Fs, Path) -> nat, tree: Tree, order: seq<Path>,
                                       others: (nat, Fs) -> Fs)
    requires forall p <- order :: p in tree.entries
    ensures var gone := DeletedAmid(fs, report, tree, order, others);
            && |gone| <= |order| && (forall k | 0 <= k < |gone| :: gone[k].1 == order[k])
            && ((forall n: nat, t: Fs :: others(n, t) == t) ==>
                  (|gone| == |order| <==> DeletedAll(fs, report, tree, order).1))
    decreases |order|
  {
    hide Deleted;
    if order != [] {
      assert order[0] in order;
      var seen := others(|order|, fs);
      var left := Deleted(seen, report, order[0], tree.entries[order[0]]);
      if left.Some? {
        GoneInOrder(left.value, report, tree, order[1..], others);
      }
    }
  }

  // ---------------------------------------------------------------- the loops

  /** The order of path names the program sorts by, of which only this is needed. */
  ghost predicate StrictOrder(compare: (Path, Path) -> int) {
    && (forall p, q :: compare(p, q) < 0 ==> !(compare(q, p) < 0))
    && (forall p, q, r :: compare(p, q) < 0 && compare(q, r) < 0 ==> compare(p, r) < 0)
  }

  /** Deeper before shallower, then files before directories, then names from last to first. */
  predicate Before(entries: map<Path, Identity>, compare: (Path, Path) -> int, p: Path, q: Path)
    requires p in entries && q in entries
  {
    if |p| != |q| then |p| > |q|
    else if entries[p].directory != entries[q].directory then entries[q].directory
    else compare(q, p) < 0
  }

  ghost predicate Sorted(entries: map<Path, Identity>, compare: (Path, Path) -> int, order: seq<Path>) {
    && (forall i | 0 <= i < |order| :: order[i] in entries)
    && (forall i, j | 0 <= i < j < |order| :: !Before(entries, compare, order[j], order[i]))
  }

  /** What sorted means, entry by entry: depth first, then files, then names backwards. */
  lemma SortedWrittenOut(entries: map<Path, Identity>, compare: (Path, Path) -> int, order: seq<Path>, i: nat, j: nat)
    requires Sorted(entries, compare, order) && i < j < |order|
    ensures |order[i]| >= |order[j]|
    ensures |order[i]| == |order[j]| ==>
              && (entries[order[i]].directory ==> entries[order[j]].directory)
              && (entries[order[i]].directory == entries[order[j]].directory ==> compare(order[i], order[j]) >= 0)
  {
    assert !Before(entries, compare, order[j], order[i]);
  }

  lemma SortedIsDeepestFirst(entries: map<Path, Identity>, compare: (Path, Path) -> int, order: seq<Path>)
    requires Sorted(entries, compare, order)
    ensures DeepestFirst(order)
  {
  }

  function Placed(entries: map<Path, Identity>, compare: (Path, Path) -> int, p: Path, order: seq<Path>): seq<Path>
    requires p in entries && forall q <- order :: q in entries
  {
    if order == [] then [p]
    else
      assert order[0] in order;
      if Before(entries, compare, p, order[0]) then [p] + order
      else [order[0]] + Placed(entries, compare, p, order[1..])
  }

  lemma {:induction false} PlacedMembers(entries: map<Path, Identity>, compare: (Path, Path) -> int, p: Path,
                                         order: seq<Path>)
    requires p in entries && forall q <- order :: q in entries
    ensures forall q :: q in Placed(entries, compare, p, order) <==> q in order || q == p
  {
    if order != [] {
      assert order[0] in order;
      if !Before(entries, compare, p, order[0]) {
        PlacedMembers(entries, compare, p, order[1..]);
        forall q ensures q in Placed(entries, compare, p, order) <==> q in order || q == p {
          assert q in order <==> q == order[0] || q in order[1..];
        }
      }
    }
  }

  lemma {:induction false} PlacedSorted(entries: map<Path, Identity>, compare: (Path, Path) -> int, p: Path,
                                        order: seq<Path>)
    requires StrictOrder(compare) && p in entries && (forall q <- order :: q in entries)
    requires Sorted(entries, compare, order)
    ensures Sorted(entries, compare, Placed(entries, compare, p, order))
  {
    PlacedMembers(entries, compare, p, order);
    if order != [] {
      var (first, rest) := (order[0], order[1..]);
      assert first in order;
      if Before(entries, compare, p, first) {
        forall k | 0 <= k < |order| ensures !Before(entries, compare, order[k], p) {
          assert order[k] in order;
          NotBefore(entries, compare, order[k], p, first);
        }
      } else {
        assert forall k | 0 <= k < |rest| :: rest[k] == order[k + 1];
        PlacedSorted(entries, compare, p, rest);
        PlacedMembers(entries, compare, p, rest);
        var tail := Placed(entries, compare, p, rest);
        forall k | 0 <= k < |tail| ensures !Before(entries, compare, tail[k], first) {
          assert tail[k] in tail;
          if tail[k] != p {
            var l :| 0 <= l < |rest| && rest[l] == tail[k];
          }
        }
      }
    }
  }

  /** What does not come before the first entry does not come before one that precedes it. */
  lemma NotBefore(entries: map<Path, Identity>, compare: (Path, Path) -> int, q: Path, p: Path, first: Path)
    requires StrictOrder(compare) && p in entries && q in entries && first in entries
    requires Before(entries, compare, p, first) && (q == first || !Before(entries, compare, q, first))
    ensures !Before(entries, compare, q, p)
  {
  }

  lemma NothingIsDistinct()
    ensures Distinct([])
  {
  }

  lemma DistinctGrows(first: Path, rest: seq<Path>)
    requires Distinct(rest) && first !in rest
    ensures Distinct([first] + rest)
  {
    var r := [first] + rest;
    forall i, j | 0 <= i < j < |r| ensures r[i] != r[j] {
      assert r[j] == rest[j - 1] && (i > 0 ==> r[i] == rest[i - 1]);
    }
  }

  lemma {:induction false} PlacedDistinct(entries: map<Path, Identity>, compare: (Path, Path) -> int, p: Path,
                                          order: seq<Path>)
    requires p in entries && (forall q <- order :: q in entries) && p !in order && Distinct(order)
    ensures Distinct(Placed(entries, compare, p, order))
  {
    if order != [] {
      var (first, rest) := (order[0], order[1..]);
      assert first in order && forall i | 0 <= i < |rest| :: rest[i] == order[i + 1];
      if Before(entries, compare, p, first) {
        DistinctGrows(p, order);
      } else {
        PlacedDistinct(entries, compare, p, rest);
        PlacedMembers(entries, compare, p, rest);
        DistinctGrows(first, Placed(entries, compare, p, rest));
      }
    }
  }

  method DeletionOrder(entries: map<Path, Identity>, compare: (Path, Path) -> int) returns (order: seq<Path>)
    requires StrictOrder(compare)
    ensures Sorted(entries, compare, order) && DeepestFirst(order) && Enumerates(order, entries.Keys)
  {
    hide StrictOrder, DeepestFirst, Before, Distinct;
    order := [];
    assert Distinct(order) by { NothingIsDistinct(); }
    var pending := entries.Keys;
    while pending != {}
      invariant pending <= entries.Keys && Sorted(entries, compare, order)
      invariant Enumerates(order, entries.Keys - pending)
      decreases pending
    {
      var p :| p in pending;
      assert forall q <- order :: q in entries;
      PlacedMembers(entries, compare, p, order);
      PlacedSorted(entries, compare, p, order);
      PlacedDistinct(entries, compare, p, order);
      var placed := Placed(entries, compare, p, order);
      forall q ensures q in placed <==> q in entries.Keys - (pending - {p}) {
        assert q in order <==> q in entries.Keys - pending;
      }
      order := placed;
      pending := pending - {p};
    }
    SortedIsDeepestFirst(entries, compare, order);
  }

  class PrivateTree {
    var fs: Fs
    const report: (Fs, Path) -> nat
    const compare: (Path, Path) -> int

    constructor (fs: Fs, report: (Fs, Path) -> nat, compare: (Path, Path) -> int)
      ensures this.fs == fs && this.report == report && this.compare == compare
    {
      this.fs, this.report, this.compare := fs, report, compare;
    }

    /** Deletes the entries of a tree that matches, then its root; stops at the first surprise. */
    method Retire(tree: Tree) returns (ok: bool)
      requires [] !in tree.entries && TreeShaped(fs) && StrictOrder(compare)
      modifies this
      ensures if Matches(tree, old(fs), report) then ok && fs == map[] else !ok && fs == old(fs)
    {
      if !Matches(tree, fs, report) {
        return false;
      }
      var order := DeletionOrder(tree.entries, compare);
      ExactInventoryIsRetired(fs, fs, report, tree, order);
      hide Holds, Matches, IsEmpty, TreeShaped, DeepestFirst;
      ghost var start := fs;
      var i := 0;
      assert order[0..] == order;
      while i < |order|
        invariant i <= |order|
        invariant DeletedAll(start, report, tree, order) == DeletedAll(fs, report, tree, order[i..])
      {
        var p := order[i];
        assert p in order && order[i..][0] == p && order[i..][1..] == order[i + 1..];
        // Without interference between the deletions nothing surprises here.
        if !Holds(fs, report, p, tree.entries[p]) || (tree.entries[p].directory && !IsEmpty(fs, p)) {
          assert false;
        }
        fs := fs - {p};
        i := i + 1;
      }
      assert order[i..] == [];
      ok := Holds(fs, report, [], tree.root) && IsEmpty(fs, []);
      if ok {
        fs := fs - {[]};
      }
    }
  }

  // ---------------------------------------------------------------- the walk

  function BelowOf(fs: Fs, dir: Path): set<Path> {
    set p | p in fs && dir < p
  }

  /** The part of the inventory below one directory. */
  function InventoryBelow(fs: Fs, report: (Fs, Path) -> nat, dir: Path): Option<map<Path, Identity>> {
    if exists p <- BelowOf(fs, dir) :: Inspect(fs, report, p).None? then None
    else Some(map p | p in BelowOf(fs, dir) :: IdentityOf(fs, report, p))
  }

  lemma {:induction false} AncestorsExist(fs: Fs, p: Path, n: nat)
    requires TreeShaped(fs) && p in fs && n <= |p|
    ensures p[..n] in fs && (n < |p| ==> fs[p[..n]].Dir?)
    decreases |p| - n
  {
    if n == |p| {
      assert p[..n] == p;
    } else {
      AncestorsExist(fs, p, n + 1);
      assert p[..n + 1][..n] == p[..n];
    }
  }

  /** What lies at or below these children of the directory. */
  function FoundIn(fs: Fs, report: (Fs, Path) -> nat, dir: Path, done: set<Path>): map<Path, Identity> {
    map p | p in BelowOf(fs, dir) && p[..|dir| + 1] in done :: IdentityOf(fs, report, p)
  }

  /** Adds one child and what the walk found below it. */
  lemma ChildAdded(fs: Fs, report: (Fs, Path) -> nat, dir: Path, done: set<Path>, child: Path)
    requires TreeShaped(fs) && child in fs && |child| == |dir| + 1 && dir <= child && child !in done
    requires Inspect(fs, report, child).Some?
    ensures var more := done + {child};
            FoundIn(fs, report, dir, more)
            == FoundIn(fs, report, dir, done)[child := IdentityOf(fs, report, child)]
               + (map p | p in BelowOf(fs, child) :: IdentityOf(fs, report, p))
    ensures fs[child].File? ==> BelowOf(fs, child) == {}
  {
    hide IdentityOf, TreeShaped;
    forall p | p in fs && dir < p && p[..|dir| + 1] == child ensures p == child || child < p {
      assert child == p[..|child|];
    }
    forall p <- BelowOf(fs, child) ensures dir < p && p[..|dir| + 1] == child && fs[child].Dir? {
      assert p[..|child|] == child;
      AncestorsExist(fs, p, |child|);
    }
    assert child[..|dir| + 1] == child;
  }

  lemma MissingBelow(fs: Fs, report: (Fs, Path) -> nat, dir: Path, child: Path)
    requires dir < child && (InventoryBelow(fs, report, child).None?
                             || (child in fs && Inspect(fs, report, child).None?))
    ensures InventoryBelow(fs, report, dir).None?
  {
    hide Inspect;
    if child in fs && Inspect(fs, report, child).None? {
      assert child in BelowOf(fs, dir);
    } else {
      var p :| p in BelowOf(fs, child) && Inspect(fs, report, p).None?;
      assert p in BelowOf(fs, dir);
    }
  }

  /** What the walk below one child has seen. */
  lemma BelowChild(fs: Fs, report: (Fs, Path) -> nat, dir: Path, child: Path)
    requires |child| == |dir| + 1 && dir <= child && child in fs && Inspect(fs, report, child).Some?
    requires BelowOf(fs, child) == {} || InventoryBelow(fs, report, child).Some?
    ensures forall p | p in BelowOf(fs, dir) && p[..|dir| + 1] == child :: Inspect(fs, report, p).Some?
  {
    hide Inspect;
    forall p | p in BelowOf(fs, dir) && p[..|dir| + 1] == child ensures Inspect(fs, report, p).Some? {
      assert p == child || p in BelowOf(fs, child);
    }
  }

  lemma NothingMissing(fs: Fs, report: (Fs, Path) -> nat, dir: Path, children: set<Path>)
    requires TreeShaped(fs) && forall p | p in fs && |p| == |dir| + 1 && dir <= p :: p in children
    requires forall p | p in BelowOf(fs, dir) && p[..|dir| + 1] in children :: Inspect(fs, report, p).Some?
    ensures InventoryBelow(fs, report, dir) == Some(FoundIn(fs, report, dir, children))
  {
    hide IdentityOf, TreeShaped, Inspect;
    forall p <- BelowOf(fs, dir) ensures p[..|dir| + 1] in children && Inspect(fs, report, p).Some? {
      AncestorsExist(fs, p, |dir| + 1);
    }
    assert FoundIn(fs, report, dir, children) == map p | p in BelowOf(fs, dir) :: IdentityOf(fs, report, p);
  }

  lemma InventoryOf(fs: Fs, report: (Fs, Path) -> nat, dir: Path)
    ensures InventoryBelow(fs, report, dir).Some? ==>
              InventoryBelow(fs, report, dir).value == map p | p in BelowOf(fs, dir) :: IdentityOf(fs, report, p)
  {
  }

  method Visit(fs: Fs, report: (Fs, Path) -> nat, dir: Path) returns (entries: Option<map<Path, Identity>>)
    requires TreeShaped(fs)
    ensures entries == InventoryBelow(fs, report, dir)
    decreases |BelowOf(fs, dir)|
  {
    hide IdentityOf, TreeShaped, Inspect, InventoryBelow;
    ghost var children := set p | p in fs && |p| == |dir| + 1 && dir <= p;
    var pending := set p | p in fs && |p| == |dir| + 1 && dir <= p;
    var found: map<Path, Identity> := map[];
    assert children - pending == {};
    while pending != {}
      invariant pending <= children
      invariant found == FoundIn(fs, report, dir, children - pending)
      invariant forall p | p in BelowOf(fs, dir) && p[..|dir| + 1] in children - pending :: Inspect(fs, report, p).Some?
      decreases pending
    {
      var child :| child in pending;
      assert child in BelowOf(fs, dir) && child[..|dir| + 1] == child;
      var identity := Inspect(fs, report, child);
      if identity.None? {
        MissingBelow(fs, report, dir, child);
        return None;
      }
      InspectedIdentity(fs, report, child);
      ChildAdded(fs, report, dir, children - pending, child);
      SmallerBelow(fs, dir, child);
      found := found[child := identity.value];
      if identity.value.directory {
        var below := Visit(fs, report, child);
        InventoryOf(fs, report, child);
        if below.None? {
          MissingBelow(fs, report, dir, child);
          return None;
        }
        found := found + below.value;
      }
      BelowChild(fs, report, dir, child);
      assert children - pending + {child} == children - (pending - {child});
      pending := pending - {child};
    }
    assert children - pending == children;
    NothingMissing(fs, report, dir, children);
    entries := Some(found);
  }

  lemma InspectedIdentity(fs: Fs, report: (Fs, Path) -> nat, p: Path)
    requires Inspect(fs, report, p).Some?
    ensures p in fs && Inspect(fs, report, p).value == IdentityOf(fs, report, p)
    ensures IdentityOf(fs, report, p).directory <==> fs[p].Dir?
  {
  }

  lemma SmallerBelow(fs: Fs, dir: Path, child: Path)
    requires child in BelowOf(fs, dir)
    ensures BelowOf(fs, child) < BelowOf(fs, dir) && |BelowOf(fs, child)| < |BelowOf(fs, dir)|
  {
    var (small, large) := (BelowOf(fs, child), BelowOf(fs, dir));
    assert child in large - small;
    assert small + (large - small) == large;
  }

  /** The walk from the root finds the whole inventory. */
  method InventoryPrivateTree(fs: Fs, report: (Fs, Path) -> nat) returns (entries: Option<map<Path, Identity>>)
    requires TreeShaped(fs)
    ensures entries == Inventory(fs, report)
  {
    hide IdentityOf, Inspect;
    entries := Visit(fs, report, []);
    assert forall p :: p in BelowOf(fs, []) <==> p in fs && p != [];
    assert (map p | p in BelowOf(fs, []) :: IdentityOf(fs, report, p))
           == map p | p in fs && p != [] :: IdentityOf(fs, report, p);
    assert Inspectable(fs, report) <==> forall p <- BelowOf(fs, []) :: Inspect(fs, report, p).Some?;
  }
}
