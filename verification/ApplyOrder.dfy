/**
 * Integrating the attempts of one batch: every attempt starts from the same baseline tree,
 * changes only paths inside its own scope (the snapshot is refused otherwise,
 * workspace-policy.ts assertPathsWithinScope), and the scopes share no path.
 */
module ApplyOrder {
  import opened Wrappers
  import opened ImplementScope

  /** A Git tree: what each path holds. */
  type Tree = map<string, string>

  function Lookup(tree: Tree, path: string): Option<string> {
    if path in tree then Some(tree[path]) else None
  }

  predicate Changed(baseline: Tree, tree: Tree, path: string) {
    Lookup(baseline, path) != Lookup(tree, path)
  }

  /** The paths the attempt's diff against the baseline names. */
  function ChangedPaths(baseline: Tree, tree: Tree): set<string> {
    set path | path in baseline.Keys + tree.Keys && Changed(baseline, tree, path)
  }

  /** Applies the diff from baseline to `tree`; None when a changed path no longer holds what the diff expects. */
  function Apply(onto: Tree, baseline: Tree, tree: Tree): Option<Tree> {
    var changed := ChangedPaths(baseline, tree);
    if exists path <- changed :: Lookup(onto, path) != Lookup(baseline, path) then None
    else
      Some(map path | path in onto.Keys + tree.Keys && (if path in changed then path in tree else path in onto)
             :: if path in changed then tree[path] else onto[path])
  }

  predicate Indexes(order: seq<nat>, n: nat) {
    forall k | 0 <= k < |order| :: order[k] < n
  }

  function ApplyAll(baseline: Tree, trees: seq<Tree>, order: seq<nat>): Option<Tree>
    requires Indexes(order, |trees|)
    decreases |order|
  {
    if order == [] then Some(baseline)
    else
      match ApplyAll(baseline, trees, order[..|order| - 1])
      case None => None
      case Some(onto) => Apply(onto, baseline, trees[order[|order| - 1]])
  }

  /** The check every snapshot passes before its ref is created. */
  predicate WithinScope(baseline: Tree, tree: Tree, scope: seq<string>) {
    forall path <- ChangedPaths(baseline, tree) :: Within(path, scope)
  }

  ghost predicate PairwiseDisjoint(scopes: seq<seq<string>>) {
    forall i, j | 0 <= i < j < |scopes| :: Disjoint(scopes[i], scopes[j])
  }

  /** One batch: an attempt per scope, all from one baseline. */
  ghost predicate Batch(baseline: Tree, trees: seq<Tree>, scopes: seq<seq<string>>) {
    && |trees| == |scopes| && PairwiseDisjoint(scopes)
    && forall i | 0 <= i < |trees| :: WithinScope(baseline, trees[i], scopes[i])
  }

  predicate ChangedBySome(baseline: Tree, trees: seq<Tree>, path: string) {
    exists i | 0 <= i < |trees| :: Changed(baseline, trees[i], path)
  }

  /** The union of the edits: each path as the attempt that changed it left it. */
  ghost predicate IsUnion(result: Tree, baseline: Tree, trees: seq<Tree>) {
    && (forall i, path | 0 <= i < |trees| && Changed(baseline, trees[i], path) ::
          Lookup(result, path) == Lookup(trees[i], path))
    && (forall path | !ChangedBySome(baseline, trees, path) :: Lookup(result, path) == Lookup(baseline, path))
  }

  predicate Listed(order: seq<nat>, i: nat) {
    exists k | 0 <= k < |order| :: order[k] == i
  }

  ghost predicate Permutation(order: seq<nat>, n: nat) {
    && |order| == n
    && (forall i, j | 0 <= i < j < n :: order[i] != order[j])
    && Indexes(order, n)
    && (forall i | 0 <= i < n :: Listed(order, i))
  }

  lemma ChangedIsListed(baseline: Tree, tree: Tree, path: string)
    ensures path in ChangedPaths(baseline, tree) <==> Changed(baseline, tree, path)
  {
  }

  /** No path is changed by two attempts. */
  lemma EditsAreDisjoint(baseline: Tree, trees: seq<Tree>, scopes: seq<seq<string>>, i: nat, j: nat, path: string)
    requires Batch(baseline, trees, scopes) && i < |trees| && j < |trees| && i != j
    ensures !(Changed(baseline, trees[i], path) && Changed(baseline, trees[j], path))
  {
    hide Within;
    ChangedIsListed(baseline, trees[i], path);
    ChangedIsListed(baseline, trees[j], path);
    assert WithinScope(baseline, trees[i], scopes[i]) && WithinScope(baseline, trees[j], scopes[j]);
    assert if i < j then Disjoint(scopes[i], scopes[j]) else Disjoint(scopes[j], scopes[i]);
  }

  predicate Among(baseline: Tree, trees: seq<Tree>, done: seq<nat>, path: string)
    requires Indexes(done, |trees|)
  {
    exists k | 0 <= k < |done| :: Changed(baseline, trees[done[k]], path)
  }

  /** What the tree looks like after the attempts in `done`. */
  ghost predicate Applied(result: Tree, baseline: Tree, trees: seq<Tree>, done: seq<nat>)
    requires Indexes(done, |trees|)
  {
    && (forall k, path | 0 <= k < |done| && Changed(baseline, trees[done[k]], path) ::
          Lookup(result, path) == Lookup(trees[done[k]], path))
    && (forall path | !Among(baseline, trees, done, path) :: Lookup(result, path) == Lookup(baseline, path))
  }

  /** A diff applies exactly when every path it changes still holds what the baseline held there. */
  lemma AppliesExactly(onto: Tree, baseline: Tree, tree: Tree)
    ensures Apply(onto, baseline, tree).Some?
            <==> forall path | Changed(baseline, tree, path) :: Lookup(onto, path) == Lookup(baseline, path)
  {
    forall path ensures Changed(baseline, tree, path) <==> path in ChangedPaths(baseline, tree) {
      ChangedIsListed(baseline, tree, path);
    }
  }

  lemma ApplyLooksUp(onto: Tree, baseline: Tree, tree: Tree, path: string)
    requires Apply(onto, baseline, tree).Some?
    ensures Lookup(Apply(onto, baseline, tree).value, path)
            == if Changed(baseline, tree, path) then Lookup(tree, path) else Lookup(onto, path)
  {
    ChangedIsListed(baseline, tree, path);
  }

  lemma NextApplies(baseline: Tree, trees: seq<Tree>, scopes: seq<seq<string>>, done: seq<nat>, next: nat, onto: Tree)
    requires Batch(baseline, trees, scopes) && next < |trees| && (forall k | 0 <= k < |done| :: done[k] != next)
        && Indexes(done, |trees|)
    requires Applied(onto, baseline, trees, done)
    ensures Apply(onto, baseline, trees[next]).Some?
    ensures Applied(Apply(onto, baseline, trees[next]).value, baseline, trees, done + [next])
  {
    hide Batch, Apply, Changed, Lookup;
    forall path | Changed(baseline, trees[next], path) ensures !Among(baseline, trees, done, path) {
      forall k | 0 <= k < |done| ensures !Changed(baseline, trees[done[k]], path) {
        EditsAreDisjoint(baseline, trees, scopes, done[k], next, path);
      }
    }
    PreimageKept(onto, baseline, trees[next]);
    var result := Apply(onto, baseline, trees[next]).value;
    forall path ensures Lookup(result, path)
                        == if Changed(baseline, trees[next], path) then Lookup(trees[next], path)
                            else Lookup(onto, path) {
      ApplyLooksUp(onto, baseline, trees[next], path);
    }
    AppliedGrows(result, onto, baseline, trees, done, next);
  }

  lemma PreimageKept(onto: Tree, baseline: Tree, tree: Tree)
    requires forall path | Changed(baseline, tree, path) :: Lookup(onto, path) == Lookup(baseline, path)
    ensures Apply(onto, baseline, tree).Some?
  {
    forall path <- ChangedPaths(baseline, tree) ensures Lookup(onto, path) == Lookup(baseline, path) {
      ChangedIsListed(baseline, tree, path);
    }
  }

  lemma AppliedGrows(result: Tree, onto: Tree, baseline: Tree, trees: seq<Tree>, done: seq<nat>, next: nat)
    requires next < |trees| && Indexes(done, |trees|)
    requires Applied(onto, baseline, trees, done)
    requires forall path | Changed(baseline, trees[next], path) :: !Among(baseline, trees, done, path)
    requires forall path :: Lookup(result, path)
                            == if Changed(baseline, trees[next], path) then Lookup(trees[next], path)
                                else Lookup(onto, path)
    ensures Applied(result, baseline, trees, done + [next])
  {
    hide Changed, Lookup;
    var more := done + [next];
    forall k, path | 0 <= k < |more| && Changed(baseline, trees[more[k]], path)
      ensures Lookup(result, path) == Lookup(trees[more[k]], path)
    {
      if k < |done| {
        assert Among(baseline, trees, done, path);
      }
    }
    forall path | !Among(baseline, trees, more, path) ensures Lookup(result, path) == Lookup(baseline, path) {
      assert more[|done|] == next;
      assert !Among(baseline, trees, done, path) by {
        forall k | 0 <= k < |done| ensures !Changed(baseline, trees[done[k]], path) {
          assert more[k] == done[k];
        }
      }
    }
  }

  lemma {:induction false} ApplyAllWorks(baseline: Tree, trees: seq<Tree>, scopes: seq<seq<string>>, order: seq<nat>)
    requires Batch(baseline, trees, scopes) && Indexes(order, |trees|)
    requires forall i, j | 0 <= i < j < |order| :: order[i] != order[j]
    ensures ApplyAll(baseline, trees, order).Some?
    ensures Applied(ApplyAll(baseline, trees, order).value, baseline, trees, order)
    decreases |order|
  {
    hide Batch, Apply, Changed;
    if order != [] {
      var (front, last) := (order[..|order| - 1], order[|order| - 1]);
      ApplyAllWorks(baseline, trees, scopes, front);
      NextApplies(baseline, trees, scopes, front, last, ApplyAll(baseline, trees, front).value);
      assert order == front + [last];
    }
  }

  /** Two trees that agree everywhere are one tree. */
  lemma SameEverywhere(left: Tree, right: Tree)
    requires forall path :: Lookup(left, path) == Lookup(right, path)
    ensures left == right
  {
    forall path ensures path in left <==> path in right {
      assert Lookup(left, path) == Lookup(right, path);
    }
    forall path | path in left ensures left[path] == right[path] {
      assert Lookup(left, path) == Lookup(right, path);
    }
  }

  /** Applying every attempt of a batch, in whatever order, never conflicts and gives the union of the edits. */
  lemma AnyOrderGivesTheUnion(baseline: Tree, trees: seq<Tree>, scopes: seq<seq<string>>, order: seq<nat>)
    requires Batch(baseline, trees, scopes) && Permutation(order, |trees|)
    ensures ApplyAll(baseline, trees, order).Some?
    ensures IsUnion(ApplyAll(baseline, trees, order).value, baseline, trees)
  {
    hide Batch, Changed, Lookup;
    ApplyAllWorks(baseline, trees, scopes, order);
    var result := ApplyAll(baseline, trees, order).value;
    forall i, path | 0 <= i < |trees| && Changed(baseline, trees[i], path)
      ensures Lookup(result, path) == Lookup(trees[i], path)
    {
      assert Listed(order, i);
      var k :| 0 <= k < |order| && order[k] == i;
    }
    forall path | !ChangedBySome(baseline, trees, path) ensures Lookup(result, path) == Lookup(baseline, path) {
      assert !Among(baseline, trees, order, path);
    }
  }

  /** The order of integration does not matter. */
  lemma ApplyOrderIsIrrelevant(baseline: Tree, trees: seq<Tree>, scopes: seq<seq<string>>, first: seq<nat>,
                               second: seq<nat>)
    requires Batch(baseline, trees, scopes) && Permutation(first, |trees|) && Permutation(second, |trees|)
    ensures ApplyAll(baseline, trees, first) == ApplyAll(baseline, trees, second)
  {
    hide Batch, Changed, Lookup;
    AnyOrderGivesTheUnion(baseline, trees, scopes, first);
    AnyOrderGivesTheUnion(baseline, trees, scopes, second);
    var (left, right) := (ApplyAll(baseline, trees, first).value, ApplyAll(baseline, trees, second).value);
    forall path ensures Lookup(left, path) == Lookup(right, path) {
      if ChangedBySome(baseline, trees, path) {
        var i :| 0 <= i < |trees| && Changed(baseline, trees[i], path);
      }
    }
    SameEverywhere(left, right);
  }

  // ---------------------------------------------------------------- files and directories

  /** No path is a file and a directory at once. */
  ghost predicate WellFormed(tree: Tree) {
    forall p, q | p in tree && q in tree :: !(p + "/" <= q)
  }

  /** Git never stores a path that normalization would change. */
  ghost predicate GitPaths(tree: Tree) {
    forall p <- tree :: NormalizePath(p).Ok? ==> IsNormalized(p)
  }

  /** What lies below a covered path is covered too. */
  lemma BelowIsWithin(p: string, q: string, scope: seq<string>)
    requires Within(p, scope) && IsNormalized(p) && IsNormalized(q) && p + "/" <= q
    ensures Within(q, scope)
  {
    hide CoveredBy;
    var owner :| owner in scope && CoveredBy(p, owner);
    assert CoveredBy(q, p) by { BelowIsCovered(q, p); }
    CoverTransitive(q, p, owner);
  }

  lemma BelowIsCovered(q: string, p: string)
    requires p + "/" <= q
    ensures CoveredBy(q, p)
  {
  }

  /** A file of one attempt is never a directory of another. */
  lemma NoCrossConflict(baseline: Tree, trees: seq<Tree>, scopes: seq<seq<string>>, i: nat, j: nat, p: string,
                        q: string)
    requires Batch(baseline, trees, scopes) && i < |trees| && j < |trees| && i != j
    requires Changed(baseline, trees[i], p) && Changed(baseline, trees[j], q)
    requires p in trees[i] && q in trees[j] && GitPaths(trees[i]) && GitPaths(trees[j])
    ensures !(p + "/" <= q)
  {
    hide Changed, CoveredBy;
    ChangedIsListed(baseline, trees[i], p);
    ChangedIsListed(baseline, trees[j], q);
    assert Within(p, scopes[i]) by { assert WithinScope(baseline, trees[i], scopes[i]); }
    assert Within(q, scopes[j]) by { assert WithinScope(baseline, trees[j], scopes[j]); }
    assert if i < j then Disjoint(scopes[i], scopes[j]) else Disjoint(scopes[j], scopes[i]);
    if p + "/" <= q {
      BelowIsWithin(p, q, scopes[i]);
    }
  }

  /** Where a path of the union comes from: one attempt that changed it, or the untouched baseline. */
  lemma Origin(result: Tree, baseline: Tree, trees: seq<Tree>, path: string) returns (source: Option<nat>)
    requires IsUnion(result, baseline, trees) && path in result
    ensures source.Some? ==>
              && source.value < |trees| && Changed(baseline, trees[source.value], path)
              && path in trees[source.value]
    ensures source.None? ==> path in baseline && forall i | 0 <= i < |trees| :: path in trees[i]
  {
    if ChangedBySome(baseline, trees, path) {
      var i :| 0 <= i < |trees| && Changed(baseline, trees[i], path);
      assert Lookup(result, path) == Lookup(trees[i], path);
      source := Some(i);
    } else {
      assert Lookup(result, path) == Lookup(baseline, path);
      forall i | 0 <= i < |trees| ensures path in trees[i] {
        assert !Changed(baseline, trees[i], path);
      }
      source := None;
    }
  }

  /** The union of well-formed attempts is again a tree Git could hold. */
  lemma UnionIsWellFormed(baseline: Tree, trees: seq<Tree>, scopes: seq<seq<string>>, result: Tree)
    requires Batch(baseline, trees, scopes) && IsUnion(result, baseline, trees) && WellFormed(baseline)
    requires forall i | 0 <= i < |trees| :: WellFormed(trees[i]) && GitPaths(trees[i])
    ensures WellFormed(result)
  {
    hide Batch, IsUnion, Changed, GitPaths;
    forall p, q | p in result && q in result ensures !(p + "/" <= q) {
      var a := Origin(result, baseline, trees, p);
      var b := Origin(result, baseline, trees, q);
      if a.Some? && b.Some? && a != b {
        NoCrossConflict(baseline, trees, scopes, a.value, b.value, p, q);
      } else if a.Some? {
        assert WellFormed(trees[a.value]);
      } else if b.Some? {
        assert WellFormed(trees[b.value]);
      }
    }
  }
}
