/** setRandomMidpoints: the position, as a fraction of its species branch, of
    every duplication in one subtree.  A duplication is placed after the last
    point already fixed on the same species branch (its parent's midpoint, or
    the start of the branch); every other node sits at the end of its branch.
    The birth-death waiting time is drawn by an external sampler, which the
    model receives as a function of the loop step and the sampler's arguments. */
module Midpoints {
  import opened Floats
  import opened Trees
  import opened Reconciliation
  import opened Subtrees

  /** The fraction of the remaining branch skipped before a midpoint. */
  const Esp: real := 0.0001

  /** `wait(step, limit, birth, death)`: the waiting time the sampler draws
      at loop step `step`, given its upper limit and the birth and death rates. */
  type Sampler = (nat, Float, real, real) -> Float

  /** The last point fixed on the node's species branch: the parent's
      midpoint when the parent reconciles to the same species node, else 0. */
  function LastPoint(r: Reconciled, k: seq<Float>, node: nat): Float
    requires Valid(r) && node < |r.gene.parent| && |k| == |r.gene.parent|
  {
    var p := r.gene.parent[node];
    if p != -1 && r.recon[node] == r.recon[p] then k[p] else Fin(0.0)
  }

  /** The remaining fraction of the species branch. */
  function Remain(r: Reconciled, k: seq<Float>, node: nat): Float
    requires Valid(r) && node < |r.gene.parent| && |k| == |r.gene.parent|
  {
    Sub(Fin(1.0), LastPoint(r, k, node))
  }

  /** The length of the node's species branch. */
  function SpeciesTime(r: Reconciled, node: nat): Float
    requires Valid(r) && node < |r.gene.parent|
  {
    Fin(r.species.dist[r.recon[node]])
  }

  /** The upper limit handed to the sampler: the time left on the branch,
      less the skipped fraction. */
  function WaitLimit(r: Reconciled, k: seq<Float>, node: nat): Float
    requires Valid(r) && node < |r.gene.parent| && |k| == |r.gene.parent|
  {
    Mul(Mul(Remain(r, k, node), SpeciesTime(r, node)), Fin(1.0 - Esp))
  }

  /** The midpoint of a duplication given the drawn waiting time. */
  function DupMidpoint(r: Reconciled, k: seq<Float>, node: nat, wait: Float): Float
    requires Valid(r) && node < |r.gene.parent| && |k| == |r.gene.parent|
  {
    Add(Add(LastPoint(r, k, node), Mul(Fin(Esp), Remain(r, k, node))), Div(wait, SpeciesTime(r, node)))
  }

  /** The value step `step` of setRandomMidpoints writes for `node`, reading `k`. */
  function MidpointAt(r: Reconciled, k: seq<Float>, node: nat, step: nat,
                      wait: Sampler, birth: real, death: real): Float
    requires Valid(r) && node < |r.gene.parent| && |k| == |r.gene.parent|
  {
    if r.events[node] == Dup then
      DupMidpoint(r, k, node, wait(step, WaitLimit(r, k, node), birth, death))
    else Fin(1.0)
  }

  /** The midpoints after the first `i` steps of setRandomMidpoints. */
  function MidpointsAfter(r: Reconciled, k: seq<Float>, subnodes: seq<nat>, i: nat,
                          wait: Sampler, birth: real, death: real): (k': seq<Float>)
    requires Valid(r) && |k| == |r.gene.parent| && i <= |subnodes|
    requires forall j :: 0 <= j < |subnodes| ==> subnodes[j] < |r.gene.parent|
    ensures |k'| == |k|
  {
    if i == 0 then k
    else
      var prev := MidpointsAfter(r, k, subnodes, i - 1, wait, birth, death);
      prev[subnodes[i - 1] := MidpointAt(r, prev, subnodes[i - 1], i - 1, wait, birth, death)]
  }

  /** setRandomMidpoints: place every node of `subnodes`, in list order. */
  method SetRandomMidpoints(r: Reconciled, subnodes: seq<nat>, rp: ReconParams,
                            wait: Sampler, birth: real, death: real)
    requires Valid(r) && rp.Valid() && rp.size == |r.gene.parent|
    requires forall j :: 0 <= j < |subnodes| ==> subnodes[j] < |r.gene.parent|
    modifies rp.midpoints
    ensures rp.midpoints[..] == MidpointsAfter(r, old(rp.midpoints[..]), subnodes, |subnodes|, wait, birth, death)
  {
    ghost var k0 := rp.midpoints[..];
    for i := 0 to |subnodes|
      invariant rp.midpoints[..] == MidpointsAfter(r, k0, subnodes, i, wait, birth, death)
    {
      var node := subnodes[i];
      ghost var k := rp.midpoints[..];

      if r.events[node] == Dup {
        var lastpoint: Float;
        var parent := r.gene.parent[node];
        if parent != -1 && r.recon[node] == r.recon[parent] {
          // the parent on the same species branch is the last midpoint
          lastpoint := rp.midpoints[parent];
        } else {
          // first on this branch: the last midpoint is the branch start
          lastpoint := Fin(0.0);
        }
        assert lastpoint == LastPoint(r, k, node);

        // pick a midpoint after the last one
        var remain := Sub(Fin(1.0), lastpoint);
        var time := Fin(r.species.dist[r.recon[node]]);
        var w := wait(i, Mul(Mul(remain, time), Fin(1.0 - Esp)), birth, death);
        rp.midpoints[node] := Add(Add(lastpoint, Mul(Fin(Esp), remain)), Div(w, time));
      } else {
        // genes and speciations sit exactly at the end of their branch
        rp.midpoints[node] := Fin(1.0);
      }
      assert rp.midpoints[..] == k[node := MidpointAt(r, k, node, i, wait, birth, death)];
    }
  }

  /** Steps that do not list `y` leave its midpoint alone. */
  lemma {:induction false} MidpointsAfterUnchanged(r: Reconciled, k: seq<Float>, subnodes: seq<nat>,
                                                   i: nat, j: nat, y: nat, wait: Sampler, birth: real, death: real)
    requires Valid(r) && |k| == |r.gene.parent| && i <= j <= |subnodes|
    requires forall m :: 0 <= m < |subnodes| ==> subnodes[m] < |r.gene.parent|
    requires y < |k| && y !in subnodes[i..j]
    ensures MidpointsAfter(r, k, subnodes, j, wait, birth, death)[y]
         == MidpointsAfter(r, k, subnodes, i, wait, birth, death)[y]
    decreases j
  {
    if j > i {
      assert subnodes[j - 1] in subnodes[i..j];
      assert subnodes[i..j - 1] <= subnodes[i..j];
      MidpointsAfterUnchanged(r, k, subnodes, i, j - 1, y, wait, birth, death);
    }
  }

  /** When the list names no node twice and lists parents first, as
      getSubtree's list does, every listed node ends with the value computed
      from its parent's final midpoint, and unlisted nodes keep theirs: the
      parent's midpoint is always read after it has been set. */
  lemma MidpointsSettled(r: Reconciled, k: seq<Float>, subnodes: seq<nat>,
                         wait: Sampler, birth: real, death: real)
    requires Valid(r) && |k| == |r.gene.parent|
    requires forall m :: 0 <= m < |subnodes| ==> subnodes[m] < |r.gene.parent|
    requires Distinct(subnodes) && ParentsBefore(r.gene, subnodes)
    ensures var final := MidpointsAfter(r, k, subnodes, |subnodes|, wait, birth, death);
      && (forall i :: 0 <= i < |subnodes| ==>
            final[subnodes[i]] == MidpointAt(r, final, subnodes[i], i, wait, birth, death))
      && (forall y :: 0 <= y < |k| && y !in subnodes ==> final[y] == k[y])
  {
    var n := |subnodes|;
    var final := MidpointsAfter(r, k, subnodes, n, wait, birth, death);
    forall i | 0 <= i < n
      ensures final[subnodes[i]] == MidpointAt(r, final, subnodes[i], i, wait, birth, death)
    {
      SettledAt(r, k, subnodes, i, wait, birth, death);
    }
    forall y | 0 <= y < |k| && y !in subnodes
      ensures final[y] == k[y]
    {
      MidpointsAfterUnchanged(r, k, subnodes, 0, n, y, wait, birth, death);
    }
  }

  /** The node listed at position `i` is written at step `i` and never again,
      and the parent's midpoint read then is already final. */
  lemma SettledAt(r: Reconciled, k: seq<Float>, subnodes: seq<nat>, i: nat,
                  wait: Sampler, birth: real, death: real)
    requires Valid(r) && |k| == |r.gene.parent| && i < |subnodes|
    requires forall m :: 0 <= m < |subnodes| ==> subnodes[m] < |r.gene.parent|
    requires Distinct(subnodes) && ParentsBefore(r.gene, subnodes)
    ensures var final := MidpointsAfter(r, k, subnodes, |subnodes|, wait, birth, death);
      final[subnodes[i]] == MidpointAt(r, final, subnodes[i], i, wait, birth, death)
  {
    var n := |subnodes|;
    var final := MidpointsAfter(r, k, subnodes, n, wait, birth, death);
    var x := subnodes[i];
    var before := MidpointsAfter(r, k, subnodes, i, wait, birth, death);
    assert x !in subnodes[i + 1..n] by {
      forall m | i + 1 <= m < n ensures subnodes[m] != x { }
    }
    MidpointsAfterUnchanged(r, k, subnodes, i + 1, n, x, wait, birth, death);
    var after := MidpointsAfter(r, k, subnodes, i + 1, wait, birth, death);
    assert after == before[x := MidpointAt(r, before, x, i, wait, birth, death)];
    assert final[x] == after[x];
    LastPointSettled(r, k, subnodes, i, wait, birth, death);
    MidpointAtReadsLastPoint(r, before, final, x, i, wait, birth, death);
  }

  /** The last point the step at position `i` reads is already final. */
  lemma LastPointSettled(r: Reconciled, k: seq<Float>, subnodes: seq<nat>, i: nat,
                         wait: Sampler, birth: real, death: real)
    requires Valid(r) && |k| == |r.gene.parent| && i < |subnodes|
    requires forall m :: 0 <= m < |subnodes| ==> subnodes[m] < |r.gene.parent|
    requires Distinct(subnodes) && ParentsBefore(r.gene, subnodes)
    ensures LastPoint(r, MidpointsAfter(r, k, subnodes, i, wait, birth, death), subnodes[i])
         == LastPoint(r, MidpointsAfter(r, k, subnodes, |subnodes|, wait, birth, death), subnodes[i])
  {
    var n, x := |subnodes|, subnodes[i];
    var p := r.gene.parent[x];
    if p != -1 && r.recon[x] == r.recon[p] {
      if p in subnodes {
        assert p in subnodes[..i];
        assert p !in subnodes[i..n] by {
          var m :| 0 <= m < i && subnodes[m] == p;
          forall m' | i <= m' < n ensures subnodes[m'] != p { }
        }
        MidpointsAfterUnchanged(r, k, subnodes, i, n, p, wait, birth, death);
      } else {
        MidpointsAfterUnchanged(r, k, subnodes, 0, n, p, wait, birth, death);
        MidpointsAfterUnchanged(r, k, subnodes, 0, i, p, wait, birth, death);
      }
    }
  }

  /** A step reads the midpoints only through the last point of its node. */
  lemma MidpointAtReadsLastPoint(r: Reconciled, k1: seq<Float>, k2: seq<Float>, node: nat, step: nat,
                                 wait: Sampler, birth: real, death: real)
    requires Valid(r) && node < |r.gene.parent| && |k1| == |r.gene.parent| && |k2| == |r.gene.parent|
    requires LastPoint(r, k1, node) == LastPoint(r, k2, node)
    ensures MidpointAt(r, k1, node, step, wait, birth, death) == MidpointAt(r, k2, node, step, wait, birth, death)
  {
  }

  /** With a positive branch length and a waiting time within the sampler's
      limit, a duplication lands after the last point, at least the skipped
      fraction of the remaining branch further on, and no later than the end
      of the branch. */
  lemma DupMidpointBounds(r: Reconciled, k: seq<Float>, node: nat, w: real)
    requires Valid(r) && node < |r.gene.parent| && |k| == |r.gene.parent|
    requires LastPoint(r, k, node).Fin? && LastPoint(r, k, node).val <= 1.0
    requires r.species.dist[r.recon[node]] > 0.0
    requires 0.0 <= w && WaitLimit(r, k, node).Fin? && w <= WaitLimit(r, k, node).val
    ensures var l := LastPoint(r, k, node).val;
      var m := DupMidpoint(r, k, node, Fin(w));
      m.Fin? && l + Esp * (1.0 - l) <= m.val <= 1.0
  {
    var l := LastPoint(r, k, node).val;
    var t := r.species.dist[r.recon[node]];
    var q := w / t;
    assert q * t == w;
    var bound := (1.0 - l) * (1.0 - Esp);
    assert (1.0 - l) * t * (1.0 - Esp) == bound * t;
    assert q * t <= bound * t;
    assert q <= bound;
  }

  /** The sampler keeps to its limit: for a finite non-negative limit it
      draws a finite waiting time between zero and the limit. */
  ghost predicate SamplerBounded(wait: Sampler) {
    forall step: nat, lim: Float, b: real, d: real :: lim.Fin? && lim.val >= 0.0 ==>
      wait(step, lim, b, d).Fin? && 0.0 <= wait(step, lim, b, d).val <= lim.val
  }

  /** A finite fraction of a branch. */
  predicate InUnit(x: Float) {
    x.Fin? && 0.0 <= x.val <= 1.0
  }

  /** Midpoints of the nodes above the subtree that a listed node may read. */
  ghost predicate OuterParentsInUnit(r: Reconciled, k: seq<Float>, subnodes: seq<nat>)
    requires Valid(r) && |k| == |r.gene.parent|
    requires forall m :: 0 <= m < |subnodes| ==> subnodes[m] < |r.gene.parent|
  {
    forall m :: 0 <= m < |subnodes| && r.gene.parent[subnodes[m]] != -1 && r.gene.parent[subnodes[m]] !in subnodes ==>
      InUnit(k[r.gene.parent[subnodes[m]]])
  }

  /** After a point within the branch, the sampler's limit is finite and
      not negative. */
  lemma WaitLimitNonNegative(r: Reconciled, k: seq<Float>, node: nat)
    requires Valid(r) && node < |r.gene.parent| && |k| == |r.gene.parent|
    requires InUnit(LastPoint(r, k, node)) && r.species.dist[r.recon[node]] > 0.0
    ensures WaitLimit(r, k, node).Fin? && WaitLimit(r, k, node).val >= 0.0
  {
    var l := LastPoint(r, k, node).val;
    var t := r.species.dist[r.recon[node]];
    assert (1.0 - l) * t >= 0.0;
  }

  /** Every listed midpoint ends up a fraction of its branch, and every
      duplication strictly after the last point fixed before it on its species
      branch, provided the sampler keeps to its limit, duplications sit on
      branches of positive length, and the list is ordered as getSubtree
      orders it. */
  lemma {:induction false} MidpointsOrdered(r: Reconciled, k: seq<Float>, subnodes: seq<nat>,
                                            wait: Sampler, birth: real, death: real, m: nat)
    requires Valid(r) && |k| == |r.gene.parent| && m < |subnodes|
    requires forall j :: 0 <= j < |subnodes| ==> subnodes[j] < |r.gene.parent|
    requires Distinct(subnodes) && ParentsBefore(r.gene, subnodes)
    requires SamplerBounded(wait)
    requires forall j :: 0 <= j < |subnodes| && r.events[subnodes[j]] == Dup ==>
      r.species.dist[r.recon[subnodes[j]]] > 0.0
    requires OuterParentsInUnit(r, k, subnodes)
    ensures var final := MidpointsAfter(r, k, subnodes, |subnodes|, wait, birth, death);
      var x := subnodes[m];
      && InUnit(final[x])
      && InUnit(LastPoint(r, final, x))
      && (r.events[x] == Dup ==>
            var l := LastPoint(r, final, x).val;
            l + Esp * (1.0 - l) <= final[x].val)
    decreases m
  {
    var n := |subnodes|;
    var final := MidpointsAfter(r, k, subnodes, n, wait, birth, death);
    var x := subnodes[m];
    var p := r.gene.parent[x];
    if p != -1 && r.recon[x] == r.recon[p] {
      if p in subnodes {
        assert p in subnodes[..m];
        var m' :| 0 <= m' < m && subnodes[m'] == p;
        MidpointsOrdered(r, k, subnodes, wait, birth, death, m');
      } else {
        MidpointsAfterUnchanged(r, k, subnodes, 0, n, p, wait, birth, death);
      }
    }
    assert InUnit(LastPoint(r, final, x));
    SettledAt(r, k, subnodes, m, wait, birth, death);
    SettledBounds(r, final, x, m, wait, birth, death);
  }

  /** A settled node's midpoint is a fraction of its branch, and a
      duplication's lies at least the skipped fraction after its last point. */
  lemma SettledBounds(r: Reconciled, final: seq<Float>, x: nat, step: nat,
                      wait: Sampler, birth: real, death: real)
    requires Valid(r) && x < |r.gene.parent| && |final| == |r.gene.parent|
    requires final[x] == MidpointAt(r, final, x, step, wait, birth, death)
    requires SamplerBounded(wait)
    requires r.events[x] == Dup ==> r.species.dist[r.recon[x]] > 0.0
    requires InUnit(LastPoint(r, final, x))
    ensures InUnit(final[x])
    ensures r.events[x] == Dup ==>
      var l := LastPoint(r, final, x).val;
      l + Esp * (1.0 - l) <= final[x].val
  {
    if r.events[x] == Dup {
      var lim := WaitLimit(r, final, x);
      WaitLimitNonNegative(r, final, x);
      var w := wait(step, lim, birth, death);
      assert final[x] == DupMidpoint(r, final, x, w);
      DupMidpointBounds(r, final, x, w.val);
    }
  }
}
