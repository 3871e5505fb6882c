/** Rooted trees in the flattened form the branch prior works on: node names
    are array indices, each node has a parent index (-1 at the root), an
    ordered list of children and the length of the branch to its parent.
    Gene trees and species trees share this representation. */
module Trees {

  datatype Tree = Tree(parent: seq<int>, children: seq<seq<nat>>, dist: seq<real>, root: nat)

  predicate IsNode(t: Tree, i: int) {
    0 <= i < |t.parent|
  }

  /** Parent, children and branch-length arrays agree with each other. */
  ghost predicate Shaped(t: Tree) {
    && |t.parent| > 0
    && |t.children| == |t.parent|
    && |t.dist| == |t.parent|
    && t.root < |t.parent|
    && t.parent[t.root] == -1
    && (forall i :: 0 <= i < |t.parent| && i != t.root ==> 0 <= t.parent[i] < |t.parent|)
    && (forall i, j :: 0 <= i < |t.parent| && 0 <= j < |t.children[i]| ==>
          t.children[i][j] < |t.parent| && t.parent[t.children[i][j]] == i)
    && (forall i, j, k :: 0 <= i < |t.parent| && 0 <= j < k < |t.children[i]| ==>
          t.children[i][j] != t.children[i][k])
    && (forall i :: 0 <= i < |t.parent| && i != t.root ==> i in t.children[t.parent[i]])
  }

  /** `h` gives every node its number of steps from the root. */
  ghost predicate Ranked(t: Tree, h: seq<nat>)
    requires Shaped(t)
  {
    && |h| == |t.parent|
    && h[t.root] == 0
    && (forall i :: 0 <= i < |h| ==> h[i] < |h|)
    && (forall i {:trigger h[t.parent[i]]} :: 0 <= i < |h| && i != t.root ==> h[i] == h[t.parent[i]] + 1)
  }

  /** Every walk up the parent links reaches the root: the tree has no cycle. */
  ghost predicate WellFormed(t: Tree) {
    Shaped(t) && exists h :: Ranked(t, h)
  }

  ghost function Rank(t: Tree): (h: seq<nat>)
    requires WellFormed(t)
    ensures Ranked(t, h)
  {
    var h :| Ranked(t, h); h
  }

  /** `a` is `x` or one of its ancestors. */
  ghost predicate AncestorOrSelf(t: Tree, a: int, x: int)
    requires WellFormed(t) && IsNode(t, x)
    decreases Rank(t)[x]
  {
    x == a || (x != t.root && AncestorOrSelf(t, a, t.parent[x]))
  }

  /** The node at which a walk up from `from` halts: the first node that is
      `stop` or the root. */
  function WalkEnd(t: Tree, from: nat, stop: int): (e: nat)
    requires WellFormed(t) && IsNode(t, from)
    ensures IsNode(t, e) && (e == stop || e == t.root)
    ensures AncestorOrSelf(t, e, from)
    decreases Rank(t)[from]
  {
    if from == stop || from == t.root then from else WalkEnd(t, t.parent[from], stop)
  }

  /** The nodes visited by the walk `while (x != stop && x is not the root)
      { append x; x = parent(x) }`, in visiting order. */
  function UpPath(t: Tree, from: nat, stop: int): (p: seq<nat>)
    requires WellFormed(t) && IsNode(t, from)
    ensures forall k :: 0 <= k < |p| ==> p[k] < |t.parent| && p[k] != stop && p[k] != t.root
    ensures p != [] ==> p[0] == from
    ensures (if p == [] then from else t.parent[p[|p| - 1]]) == WalkEnd(t, from, stop)
    decreases Rank(t)[from]
  {
    if from == stop || from == t.root then [] else [from] + UpPath(t, t.parent[from], stop)
  }

  /** One step of the walk: a node that is neither `stop` nor the root is
      visited and the walk continues from its parent, one level higher. */
  lemma UpStep(t: Tree, x: nat, stop: int)
    requires WellFormed(t) && IsNode(t, x) && x != stop && t.parent[x] != -1
    ensures x != t.root && IsNode(t, t.parent[x]) && Rank(t)[t.parent[x]] < Rank(t)[x]
    ensures UpPath(t, x, stop) == [x] + UpPath(t, t.parent[x], stop)
  {
    assert Rank(t)[x] == Rank(t)[t.parent[x]] + 1;
  }

  /** The walk halts at once at `stop` and at the root. */
  lemma UpEnd(t: Tree, x: nat, stop: int)
    requires WellFormed(t) && IsNode(t, x) && (x == stop || t.parent[x] == -1)
    ensures UpPath(t, x, stop) == []
  {
  }

  /** Each node of `p` after the first is the parent of the one before it. */
  ghost predicate Linked(t: Tree, p: seq<nat>) {
    forall i, j :: 0 <= i < |p| && j == i + 1 < |p| ==> p[i] < |t.parent| && p[j] == t.parent[p[i]]
  }

  /** Each node of the walk is followed by its parent. */
  lemma {:induction false} UpPathLinked(t: Tree, from: nat, stop: int)
    requires WellFormed(t) && IsNode(t, from)
    ensures Linked(t, UpPath(t, from, stop))
    decreases Rank(t)[from]
  {
    if from != stop && from != t.root {
      var q := UpPath(t, t.parent[from], stop);
      UpPathLinked(t, t.parent[from], stop);
      assert UpPath(t, from, stop) == [from] + q;
      forall i, j | 0 <= i < |q| + 1 && j == i + 1 < |q| + 1
        ensures ([from] + q)[j] == t.parent[([from] + q)[i]]
      {
        if i > 0 {
          assert q[j - 1] == t.parent[q[i - 1]];
        }
      }
    }
  }

  /** When `stop` is an ancestor of the start, the walk halts exactly at
      `stop`: it crosses every node strictly below `stop` and no more. */
  lemma {:induction false} WalkEndsAtAncestor(t: Tree, from: nat, stop: int)
    requires WellFormed(t) && IsNode(t, from)
    requires AncestorOrSelf(t, stop, from)
    ensures WalkEnd(t, from, stop) == stop
    decreases Rank(t)[from]
  {
    if from != stop {
      WalkEndsAtAncestor(t, t.parent[from], stop);
    }
  }

  /** Ancestry is transitive. */
  lemma {:induction false} AncestorTransitive(t: Tree, a: int, b: nat, x: nat)
    requires WellFormed(t) && IsNode(t, b) && IsNode(t, x)
    requires AncestorOrSelf(t, a, b) && AncestorOrSelf(t, b, x)
    ensures AncestorOrSelf(t, a, x)
    decreases Rank(t)[x]
  {
    if x != b {
      AncestorTransitive(t, a, b, t.parent[x]);
    }
  }

  /** An ancestor is never deeper than its descendant, and only the node
      itself is an ancestor at the same depth. */
  lemma {:induction false} AncestorRank(t: Tree, a: nat, x: nat)
    requires WellFormed(t) && IsNode(t, a) && IsNode(t, x)
    requires AncestorOrSelf(t, a, x)
    ensures Rank(t)[a] <= Rank(t)[x]
    ensures Rank(t)[a] == Rank(t)[x] ==> a == x
    decreases Rank(t)[x]
  {
    if x != a {
      AncestorRank(t, a, t.parent[x]);
    }
  }

  /** A child sits one level below its parent, and is not the root. */
  lemma ChildRank(t: Tree, n: nat, j: nat)
    requires WellFormed(t) && IsNode(t, n) && j < |t.children[n]|
    ensures IsNode(t, t.children[n][j]) && t.children[n][j] != t.root
    ensures t.parent[t.children[n][j]] == n
    ensures Rank(t)[t.children[n][j]] == Rank(t)[n] + 1
  {
    var c := t.children[n][j];
    assert t.parent[c] == n;
    assert Rank(t)[c] == Rank(t)[t.parent[c]] + 1;
  }

  /** Two ancestors of one node at the same depth are the same node. */
  lemma {:induction false} SameRankAncestors(t: Tree, a: nat, b: nat, x: nat)
    requires WellFormed(t) && IsNode(t, a) && IsNode(t, b) && IsNode(t, x)
    requires AncestorOrSelf(t, a, x) && AncestorOrSelf(t, b, x)
    requires Rank(t)[a] == Rank(t)[b]
    ensures a == b
    decreases Rank(t)[x]
  {
    if x == a {
      AncestorRank(t, b, x);
    } else if x == b {
      AncestorRank(t, a, x);
    } else {
      SameRankAncestors(t, a, b, t.parent[x]);
    }
  }
}
