/** The duplication subtrees of a gene tree: getSubtree lists the nodes of
    one subtree in preorder, descending only through duplications, and
    getSpecSubtrees lists the subtree roots (the tree root and the children
    of each speciation). */
module Subtrees {
  import opened Trees
  import opened Reconciliation

  // ---------------------------------------------------------------------------
  // getSubtree

  /** The list getSubtree appends for `node`: the node itself, then, when it
      is a duplication, the lists of its children in order. */
  function Preorder(g: Tree, events: seq<Event>, node: nat): seq<nat>
    requires WellFormed(g) && |events| == |g.parent| && IsNode(g, node)
    decreases |g.parent| - Rank(g)[node], 1
  {
    [node] + (if events[node] == Dup then ChildrenPreorder(g, events, node, |g.children[node]|) else [])
  }

  /** The lists of the first `j` children of `node`, concatenated. */
  function ChildrenPreorder(g: Tree, events: seq<Event>, node: nat, j: nat): seq<nat>
    requires WellFormed(g) && |events| == |g.parent| && IsNode(g, node)
    requires j <= |g.children[node]|
    decreases |g.parent| - Rank(g)[node], 0, j
  {
    if j == 0 then []
    else
      ChildRank(g, node, j - 1);
      ChildrenPreorder(g, events, node, j - 1) + Preorder(g, events, g.children[node][j - 1])
  }

  /** getSubtree: append the subtree of `node` to `subnodes`. */
  method GetSubtree(g: Tree, events: seq<Event>, node: nat, subnodes: seq<nat>) returns (out: seq<nat>)
    requires WellFormed(g) && |events| == |g.parent| && IsNode(g, node)
    ensures out == subnodes + Preorder(g, events, node)
    decreases |g.parent| - Rank(g)[node], 1
  {
    out := subnodes + [node];

    // recurse
    if events[node] == Dup {
      for i := 0 to |g.children[node]|
        invariant out == subnodes + [node] + ChildrenPreorder(g, events, node, i)
      {
        ChildRank(g, node, i);
        out := GetSubtree(g, events, g.children[node][i], out);
      }
    }
  }

  /** `x` is `top`, or its parent is a duplication that is `top` or is reached
      from `top` the same way: the path from `top` down to `x` passes only
      through duplications. */
  ghost predicate DupReach(g: Tree, events: seq<Event>, top: nat, x: nat)
    requires WellFormed(g) && |events| == |g.parent| && IsNode(g, x)
    decreases Rank(g)[x]
  {
    x == top || (x != g.root && events[g.parent[x]] == Dup && DupReach(g, events, top, g.parent[x]))
  }

  /** No node is listed twice. */
  ghost predicate Distinct(p: seq<nat>) {
    forall a, b :: 0 <= a < b < |p| ==> p[a] != p[b]
  }

  /** Every node whose parent is listed comes after its parent. */
  ghost predicate ParentsBefore(g: Tree, p: seq<nat>) {
    forall k :: 0 <= k < |p| && p[k] < |g.parent| && g.parent[p[k]] in p ==> g.parent[p[k]] in p[..k]
  }

  lemma DistinctConcat(a: seq<nat>, b: seq<nat>)
    requires Distinct(a) && Distinct(b)
    requires forall x :: x in a ==> x !in b
    ensures Distinct(a + b)
  {
    var q := a + b;
    forall i, j | 0 <= i < j < |q|
      ensures q[i] != q[j]
    {
      if i < |a| && j >= |a| {
        assert q[i] in a && q[j] == b[j - |a|];
      } else if i >= |a| {
        assert q[i] == b[i - |a|] && q[j] == b[j - |a|];
      }
    }
  }

  lemma {:induction false} DupReachIsAncestor(g: Tree, events: seq<Event>, top: nat, x: nat)
    requires WellFormed(g) && |events| == |g.parent| && IsNode(g, x)
    requires DupReach(g, events, top, x)
    ensures AncestorOrSelf(g, top, x)
    decreases Rank(g)[x]
  {
    if x != top {
      DupReachIsAncestor(g, events, top, g.parent[x]);
    }
  }

  /** Reaching `x` from a duplication's child, the duplication reaches it too. */
  lemma {:induction false} DupReachLift(g: Tree, events: seq<Event>, node: nat, c: nat, x: nat)
    requires WellFormed(g) && |events| == |g.parent| && IsNode(g, x) && IsNode(g, c)
    requires c != g.root && g.parent[c] == node && events[node] == Dup
    requires DupReach(g, events, c, x)
    ensures DupReach(g, events, node, x)
    decreases Rank(g)[x]
  {
    if x != c {
      DupReachLift(g, events, node, c, g.parent[x]);
    }
  }

  /** Which child list a member of the concatenated child lists comes from. */
  lemma {:induction false} ChildrenPreorderSplit(g: Tree, events: seq<Event>, node: nat, j: nat, x: nat)
    returns (i: nat)
    requires WellFormed(g) && |events| == |g.parent| && IsNode(g, node)
    requires j <= |g.children[node]|
    requires x in ChildrenPreorder(g, events, node, j)
    ensures i < j && x in Preorder(g, events, g.children[node][i])
  {
    ChildRank(g, node, j - 1);
    if x in Preorder(g, events, g.children[node][j - 1]) {
      i := j - 1;
    } else {
      i := ChildrenPreorderSplit(g, events, node, j - 1, x);
    }
  }

  lemma {:induction false} ChildrenPreorderContains(g: Tree, events: seq<Event>, node: nat, j: nat, i: nat, x: nat)
    requires WellFormed(g) && |events| == |g.parent| && IsNode(g, node)
    requires i < j <= |g.children[node]|
    requires IsNode(g, g.children[node][i]) && x in Preorder(g, events, g.children[node][i])
    ensures x in ChildrenPreorder(g, events, node, j)
  {
    ChildRank(g, node, j - 1);
    assert ChildrenPreorder(g, events, node, j)
      == ChildrenPreorder(g, events, node, j - 1) + Preorder(g, events, g.children[node][j - 1]);
    if i < j - 1 {
      ChildrenPreorderContains(g, events, node, j - 1, i, x);
    }
  }

  /** Every listed node is reached from the start through duplications. */
  lemma {:induction false} PreorderSound(g: Tree, events: seq<Event>, node: nat, x: nat)
    requires WellFormed(g) && |events| == |g.parent| && IsNode(g, node)
    requires x in Preorder(g, events, node)
    ensures IsNode(g, x) && DupReach(g, events, node, x)
    decreases |g.parent| - Rank(g)[node]
  {
    if x != node {
      var i := ChildrenPreorderSplit(g, events, node, |g.children[node]|, x);
      var c := g.children[node][i];
      ChildRank(g, node, i);
      PreorderSound(g, events, c, x);
      DupReachLift(g, events, node, c, x);
    }
  }

  /** The list is closed under taking the children of listed duplications. */
  lemma {:induction false} PreorderClosed(g: Tree, events: seq<Event>, node: nat, p: nat, x: nat)
    requires WellFormed(g) && |events| == |g.parent| && IsNode(g, node) && IsNode(g, x)
    requires IsNode(g, p) && p in Preorder(g, events, node) && events[p] == Dup
    requires x != g.root && g.parent[x] == p
    ensures x in Preorder(g, events, node)
    decreases |g.parent| - Rank(g)[node]
  {
    if p == node {
      assert x in g.children[node];
      var j :| 0 <= j < |g.children[node]| && g.children[node][j] == x;
      ChildRank(g, node, j);
      assert x == Preorder(g, events, x)[0];
      ChildrenPreorderContains(g, events, node, |g.children[node]|, j, x);
    } else {
      var i := ChildrenPreorderSplit(g, events, node, |g.children[node]|, p);
      ChildRank(g, node, i);
      PreorderClosed(g, events, g.children[node][i], p, x);
      ChildrenPreorderContains(g, events, node, |g.children[node]|, i, x);
    }
  }

  /** Every node reached from the start through duplications is listed. */
  lemma {:induction false} PreorderComplete(g: Tree, events: seq<Event>, node: nat, x: nat)
    requires WellFormed(g) && |events| == |g.parent| && IsNode(g, node) && IsNode(g, x)
    requires DupReach(g, events, node, x)
    ensures x in Preorder(g, events, node)
    decreases Rank(g)[x]
  {
    if x != node {
      PreorderComplete(g, events, node, g.parent[x]);
      PreorderClosed(g, events, node, g.parent[x], x);
    }
  }

  /** getSubtree lists exactly the nodes reached from the start through
      duplications. */
  lemma SubtreeMembers(g: Tree, events: seq<Event>, node: nat, x: nat)
    requires WellFormed(g) && |events| == |g.parent| && IsNode(g, node) && IsNode(g, x)
    ensures x in Preorder(g, events, node) <==> DupReach(g, events, node, x)
  {
    if x in Preorder(g, events, node) {
      PreorderSound(g, events, node, x);
    }
    if DupReach(g, events, node, x) {
      PreorderComplete(g, events, node, x);
    }
  }

  /** Descendants of different children of one node are different nodes. */
  lemma SiblingSubtreesDisjoint(g: Tree, events: seq<Event>, node: nat, i: nat, j: nat, x: nat)
    requires WellFormed(g) && |events| == |g.parent| && IsNode(g, node)
    requires i < j < |g.children[node]|
    requires IsNode(g, g.children[node][i]) && IsNode(g, g.children[node][j])
    requires x in Preorder(g, events, g.children[node][i])
    ensures x !in Preorder(g, events, g.children[node][j])
  {
    var ci, cj := g.children[node][i], g.children[node][j];
    ChildRank(g, node, i);
    ChildRank(g, node, j);
    PreorderSound(g, events, ci, x);
    DupReachIsAncestor(g, events, ci, x);
    if x in Preorder(g, events, cj) {
      PreorderSound(g, events, cj, x);
      DupReachIsAncestor(g, events, cj, x);
      SameRankAncestors(g, ci, cj, x);
      assert false;
    }
  }

  /** The lists of a node's earlier children share no node with the list of
      a later child. */
  lemma EarlierChildrenDisjoint(g: Tree, events: seq<Event>, node: nat, j: nat)
    requires WellFormed(g) && |events| == |g.parent| && IsNode(g, node)
    requires j < |g.children[node]|
    ensures IsNode(g, g.children[node][j])
    ensures forall x :: x in ChildrenPreorder(g, events, node, j) ==>
      x !in Preorder(g, events, g.children[node][j])
  {
    ChildRank(g, node, j);
    forall x | x in ChildrenPreorder(g, events, node, j)
      ensures x !in Preorder(g, events, g.children[node][j])
    {
      var i := ChildrenPreorderSplit(g, events, node, j, x);
      ChildRank(g, node, i);
      SiblingSubtreesDisjoint(g, events, node, i, j, x);
    }
  }

  /** Every node a list holds lies at or below its start. */
  lemma PreorderBelow(g: Tree, events: seq<Event>, c: nat, x: nat)
    requires WellFormed(g) && |events| == |g.parent| && IsNode(g, c)
    requires x in Preorder(g, events, c)
    ensures IsNode(g, x) && Rank(g)[x] >= Rank(g)[c]
  {
    PreorderSound(g, events, c, x);
    DupReachIsAncestor(g, events, c, x);
    AncestorRank(g, c, x);
  }

  lemma {:induction false} ChildrenPreorderDistinct(g: Tree, events: seq<Event>, node: nat, j: nat)
    requires WellFormed(g) && |events| == |g.parent| && IsNode(g, node)
    requires j <= |g.children[node]|
    ensures Distinct(ChildrenPreorder(g, events, node, j))
    ensures forall x :: x in ChildrenPreorder(g, events, node, j) ==>
      IsNode(g, x) && Rank(g)[x] > Rank(g)[node]
    decreases |g.parent| - Rank(g)[node], 0, j
  {
    if j > 0 {
      var front := ChildrenPreorder(g, events, node, j - 1);
      ChildRank(g, node, j - 1);
      var c := g.children[node][j - 1];
      var back := Preorder(g, events, c);
      ChildrenPreorderDistinct(g, events, node, j - 1);
      PreorderDistinct(g, events, c);
      EarlierChildrenDisjoint(g, events, node, j - 1);
      forall x | x in back
        ensures IsNode(g, x) && Rank(g)[x] > Rank(g)[node]
      {
        PreorderBelow(g, events, c, x);
      }
      assert ChildrenPreorder(g, events, node, j) == front + back;
      DistinctConcat(front, back);
    }
  }

  /** getSubtree never lists a node twice. */
  lemma {:induction false} PreorderDistinct(g: Tree, events: seq<Event>, node: nat)
    requires WellFormed(g) && |events| == |g.parent| && IsNode(g, node)
    ensures Distinct(Preorder(g, events, node))
    decreases |g.parent| - Rank(g)[node], 1
  {
    if events[node] == Dup {
      ChildrenPreorderDistinct(g, events, node, |g.children[node]|);
    }
  }

  /** Every entry of `q` is a non-root node whose parent is `node` or an
      earlier entry. */
  ghost predicate HangsBelow(g: Tree, node: nat, q: seq<nat>) {
    forall k :: 0 <= k < |q| ==>
      q[k] < |g.parent| && q[k] != g.root && (g.parent[q[k]] == node || g.parent[q[k]] in q[..k])
  }

  lemma HangsBelowConcat(g: Tree, node: nat, c: nat, front: seq<nat>, back: seq<nat>)
    requires HangsBelow(g, node, front) && |back| > 0 && HangsBelow(g, c, back[1..])
    requires |back| > 0 && back[0] == c && c < |g.parent| && c != g.root && g.parent[c] == node
    ensures HangsBelow(g, node, front + back)
  {
    var q := front + back;
    forall k | 0 <= k < |q|
      ensures q[k] < |g.parent| && q[k] != g.root && (g.parent[q[k]] == node || g.parent[q[k]] in q[..k])
    {
      if k < |front| {
        assert q[k] == front[k] && q[..k] == front[..k];
      } else {
        var m := k - |front|;
        assert q[k] == back[m];
        if m > 0 {
          assert back[m] == back[1..][m - 1];
          assert q[..k] == front + back[..m];
          assert back[1..][..m - 1] == back[1..m];
          if g.parent[back[m]] == c {
            assert back[..m][0] == c;
          }
        }
      }
    }
  }

  lemma {:induction false} ChildrenPreorderOrdered(g: Tree, events: seq<Event>, node: nat, j: nat)
    requires WellFormed(g) && |events| == |g.parent| && IsNode(g, node)
    requires j <= |g.children[node]|
    ensures HangsBelow(g, node, ChildrenPreorder(g, events, node, j))
    decreases |g.parent| - Rank(g)[node], 0, j
  {
    if j > 0 {
      ChildRank(g, node, j - 1);
      var c := g.children[node][j - 1];
      ChildrenPreorderOrdered(g, events, node, j - 1);
      PreorderOrdered(g, events, c);
      HangsBelowConcat(g, node, c, ChildrenPreorder(g, events, node, j - 1), Preorder(g, events, c));
    }
  }

  /** In getSubtree's list every node after the first follows its parent. */
  lemma {:induction false} PreorderOrdered(g: Tree, events: seq<Event>, node: nat)
    requires WellFormed(g) && |events| == |g.parent| && IsNode(g, node)
    ensures Preorder(g, events, node)[0] == node
    ensures HangsBelow(g, node, Preorder(g, events, node)[1..])
    decreases |g.parent| - Rank(g)[node], 1
  {
    var p := Preorder(g, events, node);
    if events[node] == Dup {
      ChildrenPreorderOrdered(g, events, node, |g.children[node]|);
      assert p[1..] == ChildrenPreorder(g, events, node, |g.children[node]|);
    } else {
      assert p[1..] == [];
    }
  }

  /** The order getSubtree produces is the one setRandomMidpoints needs: the
      start node comes first, no node is listed twice, and every listed node
      whose parent is listed comes after its parent. */
  lemma SubtreeOrder(g: Tree, events: seq<Event>, node: nat)
    requires WellFormed(g) && |events| == |g.parent| && IsNode(g, node)
    ensures var p := Preorder(g, events, node);
      && p[0] == node
      && (forall k :: 0 <= k < |p| ==> IsNode(g, p[k]))
      && Distinct(p)
      && ParentsBefore(g, p)
  {
    var p := Preorder(g, events, node);
    PreorderDistinct(g, events, node);
    PreorderOrdered(g, events, node);
    if g.parent[node] in p {
      PreorderSound(g, events, node, g.parent[node]);
      DupReachIsAncestor(g, events, node, g.parent[node]);
      AncestorRank(g, node, g.parent[node]);
      assert false;
    }
    var q := p[1..];
    forall k | 0 <= k < |p|
      ensures IsNode(g, p[k])
      ensures p[k] < |g.parent| && g.parent[p[k]] in p ==> g.parent[p[k]] in p[..k]
    {
      if k > 0 {
        assert p[k] == q[k - 1];
        assert p[..k] == [node] + q[..k - 1];
      }
    }
  }

  // ---------------------------------------------------------------------------
  // getSpecSubtrees

  /** Speciations are binary: getSpecSubtrees reads two children of each. */
  ghost predicate SpecsBinary(g: Tree, events: seq<Event>)
    requires |events| == |g.children|
  {
    forall i :: 0 <= i < |events| && events[i] == Spec ==> |g.children[i]| >= 2
  }

  /** `x` roots a speciation subtree: it is the first or second child of a
      speciation, or it is the tree root and not itself a speciation. */
  ghost predicate IsSubtreeRoot(g: Tree, events: seq<Event>, x: nat)
    requires WellFormed(g) && |events| == |g.parent| && IsNode(g, x)
  {
    if x == g.root then events[x] != Spec
    else
      var siblings := g.children[g.parent[x]];
      events[g.parent[x]] == Spec && ((|siblings| > 0 && x == siblings[0]) || (|siblings| > 1 && x == siblings[1]))
  }

  /** The loop index at which getSpecSubtrees would list `x`: the root's own,
      otherwise its parent's. */
  function Lister(g: Tree, x: nat): int
    requires IsNode(g, x)
  {
    if x == g.root then x else g.parent[x]
  }

  /** The roots getSpecSubtrees lists at loop index `i`. */
  function ListedAt(g: Tree, events: seq<Event>, i: nat): seq<nat>
    requires WellFormed(g) && |events| == |g.parent| && SpecsBinary(g, events) && i < |g.parent|
  {
    if events[i] == Spec then [g.children[i][0], g.children[i][1]]
    else if i == g.root then [i]
    else []
  }

  /** At index `i` exactly the subtree roots listed by `i` are added, once each. */
  lemma ListedAtIndex(g: Tree, events: seq<Event>, i: nat)
    requires WellFormed(g) && |events| == |g.parent| && SpecsBinary(g, events) && i < |g.parent|
    ensures Distinct(ListedAt(g, events, i))
    ensures forall x :: x in ListedAt(g, events, i) ==> IsNode(g, x) && Lister(g, x) == i
    ensures forall x :: IsNode(g, x) && Lister(g, x) == i ==>
      (x in ListedAt(g, events, i) <==> IsSubtreeRoot(g, events, x))
  {
    if events[i] == Spec {
      ChildRank(g, i, 0);
      ChildRank(g, i, 1);
    }
  }

  /** getSpecSubtrees: the roots of all speciation subtrees, each once. */
  method GetSpecSubtrees(g: Tree, events: seq<Event>) returns (roots: seq<nat>)
    requires WellFormed(g) && |events| == |g.parent| && SpecsBinary(g, events)
    ensures forall k :: 0 <= k < |roots| ==> IsNode(g, roots[k])
    ensures forall x :: IsNode(g, x) ==> (x in roots <==> IsSubtreeRoot(g, events, x))
    ensures Distinct(roots)
  {
    roots := [];
    for i := 0 to |g.parent|
      invariant forall k :: 0 <= k < |roots| ==> IsNode(g, roots[k]) && Lister(g, roots[k]) < i
      invariant forall x :: IsNode(g, x) && Lister(g, x) < i ==>
        (x in roots <==> IsSubtreeRoot(g, events, x))
      invariant Distinct(roots)
    {
      ghost var before := roots;
      if events[i] == Spec {
        roots := roots + [g.children[i][0], g.children[i][1]];
      } else if i == g.root {
        roots := roots + [i];
      }
      ghost var added := ListedAt(g, events, i);
      assert roots == before + added;
      ListedAtIndex(g, events, i);
      DistinctConcat(before, added);
    }
  }

  /** A node reached from `top` through duplications has only duplications
      strictly between itself and `top`. */
  lemma {:induction false} DupReachInner(g: Tree, events: seq<Event>, top: nat, x: nat, a: nat)
    requires WellFormed(g) && |events| == |g.parent| && IsNode(g, x) && IsNode(g, a) && IsNode(g, top)
    requires DupReach(g, events, top, x)
    requires AncestorOrSelf(g, a, x) && a != x && Rank(g)[top] <= Rank(g)[a]
    ensures events[a] == Dup
    decreases Rank(g)[x]
  {
    if x == top {
      AncestorRank(g, a, x);
      assert false;
    }
    if a != g.parent[x] {
      DupReachInner(g, events, top, g.parent[x], a);
    }
  }

  /** A listed root strictly below another listed root `t1` on the way to
      `x` would have a speciation parent between `t1` and `x`, where every
      node is a duplication. */
  lemma TopsNested(g: Tree, events: seq<Event>, t1: nat, t2: nat, x: nat)
    requires WellFormed(g) && |events| == |g.parent| && IsNode(g, x) && IsNode(g, t1) && IsNode(g, t2)
    requires DupReach(g, events, t1, x) && AncestorOrSelf(g, t2, x)
    requires IsSubtreeRoot(g, events, t2)
    ensures Rank(g)[t2] <= Rank(g)[t1]
  {
    if Rank(g)[t1] < Rank(g)[t2] {
      assert t2 != g.root;
      var a := g.parent[t2];
      assert AncestorOrSelf(g, a, a);
      assert AncestorOrSelf(g, a, t2);
      AncestorTransitive(g, a, t2, x);
      AncestorRank(g, t2, x);
      assert Rank(g)[t2] == Rank(g)[a] + 1;
      DupReachInner(g, events, t1, x, a);
      assert false;
    }
  }

  /** When speciations are binary and genes are leaves, the speciation
      subtrees partition the gene tree: every node except a speciation at
      the root lies in the subtree of exactly one listed root. */
  lemma {:induction false} SubtreesPartition(g: Tree, events: seq<Event>, x: nat)
    requires WellFormed(g) && |events| == |g.parent| && IsNode(g, x)
    requires forall i :: 0 <= i < |events| && events[i] == Spec ==> |g.children[i]| == 2
    requires forall i :: 0 <= i < |events| && events[i] == Gene ==> |g.children[i]| == 0
    requires x != g.root || events[x] != Spec
    ensures exists top :: IsNode(g, top) && IsSubtreeRoot(g, events, top) && x in Preorder(g, events, top)
    ensures forall t1, t2 ::
      (IsNode(g, t1) && IsNode(g, t2) && IsSubtreeRoot(g, events, t1) && IsSubtreeRoot(g, events, t2) &&
       x in Preorder(g, events, t1) && x in Preorder(g, events, t2)) ==> t1 == t2
    decreases Rank(g)[x]
  {
    // existence: climb while the parent is a duplication
    if x == g.root || events[g.parent[x]] != Dup {
      if x != g.root {
        var p := g.parent[x];
        assert x in g.children[p];
      }
      assert IsSubtreeRoot(g, events, x);
      assert x == Preorder(g, events, x)[0];
    } else {
      SubtreesPartition(g, events, g.parent[x]);
      var top :| IsNode(g, top) && IsSubtreeRoot(g, events, top) && g.parent[x] in Preorder(g, events, top);
      PreorderClosed(g, events, top, g.parent[x], x);
    }
    // uniqueness
    forall t1, t2 | IsNode(g, t1) && IsNode(g, t2) &&
      IsSubtreeRoot(g, events, t1) && IsSubtreeRoot(g, events, t2) &&
      x in Preorder(g, events, t1) && x in Preorder(g, events, t2)
      ensures t1 == t2
    {
      SubtreeMembers(g, events, t1, x);
      SubtreeMembers(g, events, t2, x);
      DupReachIsAncestor(g, events, t1, x);
      DupReachIsAncestor(g, events, t2, x);
      TopsNested(g, events, t1, t2, x);
      TopsNested(g, events, t2, t1, x);
      SameRankAncestors(g, t1, t2, x);
    }
  }
}
