/** The reconciliation-parameter builder: how each gene-tree branch is laid
    out along the species tree (reconBranch), the elapsed times of its pieces
    (getReconTimes), and which branches are free or unfold (determineFreeBranches). */
module Reconciliation {
  import opened Floats
  import opened Trees

  /** Event labels of gene-tree nodes: EVENT_GENE, EVENT_SPEC, EVENT_DUP. */
  datatype Event = Gene | Spec | Dup

  /** How the start or end of a gene branch covers part of a species branch:
      FRAC_NONE (not at all), FRAC_DIFF (k[node] - k[parent]),
      FRAC_PARENT (1 - k[parent]) and FRAC_NODE (k[node]), where k holds midpoints. */
  datatype Frac = FracNone | FracDiff | FracParent | FracNode

  /** A gene tree, a species tree, the species node each gene node reconciles
      to, and each gene node's event. */
  datatype Reconciled = Reconciled(gene: Tree, species: Tree, recon: seq<nat>, events: seq<Event>)

  ghost predicate Valid(r: Reconciled) {
    && WellFormed(r.gene)
    && WellFormed(r.species)
    && |r.recon| == |r.gene.parent|
    && |r.events| == |r.gene.parent|
    && (forall i :: 0 <= i < |r.recon| ==> r.recon[i] < |r.species.parent|)
  }

  /** Per species branch the gamma prior (sp_alpha, sp_beta) of its rate, and
      the gamma prior (gene_alpha, gene_beta) of the gene rate. */
  datatype RateParams = RateParams(spAlpha: seq<real>, spBeta: seq<real>, geneAlpha: real, geneBeta: real)

  ghost predicate ParamsFit(p: RateParams, s: Tree) {
    |p.spAlpha| == |s.parent| && |p.spBeta| == |s.parent|
  }

  /** The decomposition of one gene branch: its fractional start and end
      pieces, each on a species branch, and the species branches it crosses
      completely, lowest first. */
  datatype BranchRecon = BranchRecon(startFrac: Frac, startSpecies: int,
                                     endFrac: Frac, endSpecies: int,
                                     midSpecies: seq<nat>)

  /** The per-node reconciliation parameters, one array slot per gene node. */
  class ReconParams {
    const size: nat
    const params: RateParams
    const midpoints: array<Float>
    const freebranches: array<bool>
    var unfold: int
    var unfolddist: Float
    const startfrac: array<Frac>
    const startspecies: array<int>
    const endfrac: array<Frac>
    const endspecies: array<int>
    const midspecies: array<seq<nat>>

    ghost predicate Valid()
      reads this
    {
      && midpoints.Length == size
      && freebranches.Length == size
      && startfrac.Length == size
      && startspecies.Length == size
      && endfrac.Length == size
      && endspecies.Length == size
      && midspecies.Length == size
      && startfrac != endfrac
      && startspecies != endspecies
    }

    constructor (nnodes: nat, params: RateParams)
      ensures Valid() && size == nnodes && this.params == params
      ensures fresh(midpoints) && fresh(freebranches) && fresh(startfrac) && fresh(startspecies)
      ensures fresh(endfrac) && fresh(endspecies) && fresh(midspecies)
    {
      size := nnodes;
      this.params := params;
      midpoints := new Float[nnodes](_ => Fin(0.0));
      freebranches := new bool[nnodes](_ => false);
      unfold := -1;
      unfolddist := Fin(0.0);
      startfrac := new Frac[nnodes](_ => FracNone);
      startspecies := new int[nnodes](_ => -1);
      endfrac := new Frac[nnodes](_ => FracNone);
      endspecies := new int[nnodes](_ => -1);
      midspecies := new seq<nat>[nnodes](_ => []);
    }

    /** The decomposition recorded for `node`. */
    function Branch(node: nat): BranchRecon
      reads this, startfrac, startspecies, endfrac, endspecies, midspecies
      requires Valid() && node < size
    {
      BranchRecon(startfrac[node], startspecies[node], endfrac[node], endspecies[node], midspecies[node])
    }

    /** The decompositions of all nodes. */
    function Branches(): (bs: seq<BranchRecon>)
      reads this, startfrac, startspecies, endfrac, endspecies, midspecies
      requires Valid()
      ensures |bs| == size && forall i :: 0 <= i < size ==> bs[i] == Branch(i)
    {
      seq(size, i reads this, startfrac, startspecies, endfrac, endspecies, midspecies
                  requires 0 <= i < size && Valid() => Branch(i))
    }
  }

  // ---------------------------------------------------------------------------
  // reconBranch

  /** reconBranch dereferences the species parent of a crossing duplication's
      species node, so that species node must not be the species root. */
  ghost predicate WalkStartExists(r: Reconciled, node: nat)
    requires Valid(r) && node < |r.gene.parent| && node != r.gene.root
  {
    r.events[node] == Dup && r.recon[node] != r.recon[r.gene.parent[node]] ==>
      r.recon[node] != r.species.root
  }

  /** The lowest species branch the gene branch covers completely: the one
      above a duplication's own species branch, else the node's own. */
  function WalkStart(r: Reconciled, node: nat): (s: nat)
    requires Valid(r) && node < |r.gene.parent| && node != r.gene.root
    requires WalkStartExists(r, node)
    requires r.recon[node] != r.recon[r.gene.parent[node]]
    ensures s < |r.species.parent|
  {
    if r.events[node] == Dup then r.species.parent[r.recon[node]] else r.recon[node]
  }

  /** The decomposition reconBranch computes for a non-root gene node. */
  function ReconOf(r: Reconciled, node: nat): (b: BranchRecon)
    requires Valid(r) && node < |r.gene.parent| && node != r.gene.root
    requires WalkStartExists(r, node)
  {
    var p := r.gene.parent[node];
    if r.recon[node] == r.recon[p] then
      BranchRecon(if r.events[node] == Dup then FracDiff else FracParent, r.recon[node], FracNone, -1, [])
    else
      BranchRecon(if r.events[p] == Dup then FracParent else FracNone,
                  if r.events[p] == Dup then r.recon[p] else -1,
                  if r.events[node] == Dup then FracNode else FracNone,
                  if r.events[node] == Dup then r.recon[node] else -1,
                  UpPath(r.species, WalkStart(r, node), r.recon[p]))
  }

  /** reconBranch: classify the start and end of `node`'s branch and collect
      the species branches it crosses by walking up the species tree. */
  method ReconBranch(r: Reconciled, node: nat, rp: ReconParams)
    requires Valid(r) && rp.Valid() && rp.size == |r.gene.parent|
    requires node < |r.gene.parent| && node != r.gene.root
    requires WalkStartExists(r, node)
    modifies rp.startfrac, rp.startspecies, rp.endfrac, rp.endspecies, rp.midspecies
    ensures rp.Branch(node) == ReconOf(r, node)
    ensures forall i :: 0 <= i < rp.size && i != node ==> rp.Branch(i) == old(rp.Branch(i))
  {
    var s := r.species;
    var parent := r.gene.parent[node];

    // set fractional branches
    var startfrac: Frac, startspecies: int, endfrac: Frac, endspecies: int;
    if r.recon[node] == r.recon[parent] {
      if r.events[node] == Dup {
        startfrac := FracDiff;
      } else {
        startfrac := FracParent;
      }
      startspecies := r.recon[node];
      endfrac, endspecies := FracNone, -1;
    } else {
      if r.events[parent] == Dup {
        startfrac, startspecies := FracParent, r.recon[parent];
      } else {
        startfrac, startspecies := FracNone, -1;
      }
      if r.events[node] == Dup {
        endfrac, endspecies := FracNode, r.recon[node];
      } else {
        endfrac, endspecies := FracNone, -1;
      }
    }
    rp.startfrac[node], rp.startspecies[node] := startfrac, startspecies;
    rp.endfrac[node], rp.endspecies[node] := endfrac, endspecies;

    // set the fully crossed species branches
    var mid: seq<nat> := [];
    if r.recon[node] != r.recon[parent] {
      var snode: nat;
      if r.events[node] == Dup {
        snode := s.parent[r.recon[node]];
      } else {
        snode := r.recon[node];
      }
      mid := WalkUp(s, snode, r.recon[parent]);
    }
    rp.midspecies[node] := mid;
  }

  /** The walk of reconBranch: append each species node from `from` upwards
      until `stop` or the species root is reached. */
  method WalkUp(s: Tree, from: nat, stop: int) returns (path: seq<nat>)
    requires WellFormed(s) && IsNode(s, from)
    ensures path == UpPath(s, from, stop)
  {
    path := [];
    var snode: nat := from;
    while snode != stop && s.parent[snode] != -1
      invariant IsNode(s, snode)
      invariant path + UpPath(s, snode, stop) == UpPath(s, from, stop)
      decreases Rank(s)[snode]
    {
      UpStep(s, snode, stop);
      AppendAssoc(path, [snode], UpPath(s, s.parent[snode], stop));
      path := path + [snode];
      snode := s.parent[snode];
    }
    UpEnd(s, snode, stop);
  }

  lemma AppendAssoc(a: seq<nat>, b: seq<nat>, c: seq<nat>)
    ensures a + (b + c) == (a + b) + c
  {
  }

  /** In a consistent reconciliation the parent's species node is an ancestor
      of the node's; the crossed species branches are then exactly those
      strictly between the two: the walk halts at the parent's species node. */
  lemma CrossingPathEndsBelowParentSpecies(r: Reconciled, node: nat)
    requires Valid(r) && node < |r.gene.parent| && node != r.gene.root
    requires WalkStartExists(r, node)
    requires r.recon[node] != r.recon[r.gene.parent[node]]
    requires AncestorOrSelf(r.species, r.recon[r.gene.parent[node]], r.recon[node])
    ensures var mid := ReconOf(r, node).midSpecies;
      (if mid == [] then WalkStart(r, node) else r.species.parent[mid[|mid| - 1]])
        == r.recon[r.gene.parent[node]]
  {
    var s, sp := r.species, r.recon[r.gene.parent[node]];
    var sn := r.recon[node];
    if r.events[node] == Dup {
      assert sn != s.root;
      assert AncestorOrSelf(s, sp, s.parent[sn]);
    }
    WalkEndsAtAncestor(s, WalkStart(r, node), sp);
  }

  // ---------------------------------------------------------------------------
  // getReconTimes

  /** The species indices of a decomposition can be looked up, and the node
      has a parent wherever a piece refers to the parent's midpoint. */
  ghost predicate WellIndexed(r: Reconciled, b: BranchRecon, node: nat)
    requires Valid(r)
  {
    && node < |r.gene.parent|
    && (b.startFrac != FracNone ==> 0 <= b.startSpecies < |r.species.parent|)
    && (b.endFrac != FracNone ==> 0 <= b.endSpecies < |r.species.parent|)
    && (forall i :: 0 <= i < |b.midSpecies| ==> b.midSpecies[i] < |r.species.parent|)
    && (b.startFrac == FracDiff || b.startFrac == FracParent || b.endFrac == FracParent ==>
          node != r.gene.root)
  }

  /** Only FRAC_DIFF and FRAC_PARENT are meaningful at the start of a branch,
      only FRAC_PARENT and FRAC_NODE at its end. */
  predicate Admissible(b: BranchRecon) {
    b.startFrac != FracNode && b.endFrac != FracDiff
  }

  function StartCount(b: BranchRecon): nat {
    if b.startFrac == FracDiff || b.startFrac == FracParent then 1 else 0
  }

  function EndCount(b: BranchRecon): nat {
    if b.endFrac == FracParent || b.endFrac == FracNode then 1 else 0
  }

  function StartTime(r: Reconciled, b: BranchRecon, k: seq<Float>, free: bool, node: nat): seq<Float>
    requires Valid(r) && WellIndexed(r, b, node) && |k| == |r.gene.parent|
  {
    if b.startFrac == FracDiff then
      [Mul(Sub(k[node], k[r.gene.parent[node]]), Fin(r.species.dist[b.startSpecies]))]
    else if b.startFrac == FracParent then
      var kp := if free then Fin(0.0) else k[r.gene.parent[node]];
      [Mul(Sub(Fin(1.0), kp), Fin(r.species.dist[b.startSpecies]))]
    else []
  }

  function MidTimes(s: Tree, path: seq<nat>): seq<Float>
    requires |s.dist| == |s.parent|
    requires forall i :: 0 <= i < |path| ==> path[i] < |s.parent|
  {
    seq(|path|, i requires 0 <= i < |path| => Fin(s.dist[path[i]]))
  }

  function EndTime(r: Reconciled, b: BranchRecon, k: seq<Float>, node: nat): seq<Float>
    requires Valid(r) && WellIndexed(r, b, node) && |k| == |r.gene.parent|
  {
    if b.endFrac == FracParent then
      [Mul(Sub(Fin(1.0), k[r.gene.parent[node]]), Fin(r.species.dist[b.endSpecies]))]
    else if b.endFrac == FracNode then
      [Mul(k[node], Fin(r.species.dist[b.endSpecies]))]
    else []
  }

  /** The elapsed times of a branch's pieces, given the midpoints `k`. */
  function ReconTimes(r: Reconciled, b: BranchRecon, k: seq<Float>, free: bool, node: nat): (times: seq<Float>)
    requires Valid(r) && WellIndexed(r, b, node) && |k| == |r.gene.parent|
    ensures |times| == StartCount(b) + |b.midSpecies| + EndCount(b)
  {
    StartTime(r, b, k, free, node) + MidTimes(r.species, b.midSpecies) + EndTime(r, b, k, node)
  }

  /** Each completely crossed species branch contributes its whole length,
      right after the start piece. */
  lemma MidTimesAligned(r: Reconciled, b: BranchRecon, k: seq<Float>, free: bool, node: nat)
    requires Valid(r) && WellIndexed(r, b, node) && |k| == |r.gene.parent|
    ensures forall i :: 0 <= i < |b.midSpecies| ==>
      ReconTimes(r, b, k, free, node)[StartCount(b) + i] == Fin(r.species.dist[b.midSpecies[i]])
  {
    var front := StartTime(r, b, k, free, node);
    var mid := MidTimes(r.species, b.midSpecies);
    assert |front| == StartCount(b);
    forall i | 0 <= i < |b.midSpecies|
      ensures ReconTimes(r, b, k, free, node)[StartCount(b) + i] == Fin(r.species.dist[b.midSpecies[i]])
    {
      assert ReconTimes(r, b, k, free, node)[|front| + i] == mid[i];
    }
  }

  /** getReconTimes: the elapsed time of every piece of `node`'s branch. */
  method GetReconTimes(r: Reconciled, node: nat, rp: ReconParams) returns (times: seq<Float>)
    requires Valid(r) && rp.Valid() && rp.size == |r.gene.parent| && node < rp.size
    requires WellIndexed(r, rp.Branch(node), node)
    ensures times == ReconTimes(r, rp.Branch(node), rp.midpoints[..], rp.freebranches[node], node)
  {
    var k := rp.midpoints;
    var s := r.species;
    times := [];

    // start time
    var startfrac := rp.startfrac[node];
    if startfrac == FracDiff {
      times := times + [Mul(Sub(k[node], k[r.gene.parent[node]]), Fin(s.dist[rp.startspecies[node]]))];
    } else if startfrac == FracParent {
      var kp := Fin(0.0);
      if !rp.freebranches[node] {
        kp := k[r.gene.parent[node]];
      }
      times := times + [Mul(Sub(Fin(1.0), kp), Fin(s.dist[rp.startspecies[node]]))];
    }
    ghost var start := times;
    assert start == StartTime(r, rp.Branch(node), k[..], rp.freebranches[node], node);

    // mid times
    var path := rp.midspecies[node];
    for i := 0 to |path|
      invariant times == start + MidTimes(s, path[..i])
    {
      assert MidTimes(s, path[..i + 1]) == MidTimes(s, path[..i]) + [Fin(s.dist[path[i]])];
      times := times + [Fin(s.dist[path[i]])];
    }
    assert path[..|path|] == path;

    // end time
    var endfrac := rp.endfrac[node];
    if endfrac == FracParent {
      times := times + [Mul(Sub(Fin(1.0), k[r.gene.parent[node]]), Fin(s.dist[rp.endspecies[node]]))];
    } else if endfrac == FracNode {
      times := times + [Mul(k[node], Fin(s.dist[rp.endspecies[node]]))];
    }
  }

  /** Every decomposition reconBranch produces can be looked up and timed, and
      has one time per piece: [start != FRAC_NONE] + |midspecies| + [end != FRAC_NONE]. */
  lemma ReconOfIsTimeable(r: Reconciled, node: nat)
    requires Valid(r) && node < |r.gene.parent| && node != r.gene.root
    requires WalkStartExists(r, node)
    ensures WellIndexed(r, ReconOf(r, node), node) && Admissible(ReconOf(r, node))
    ensures var b := ReconOf(r, node);
      StartCount(b) == (if b.startFrac != FracNone then 1 else 0)
      && EndCount(b) == (if b.endFrac != FracNone then 1 else 0)
  {
  }

  // ---------------------------------------------------------------------------
  // determineFreeBranches

  /** A branch is free when its parent is a duplication at the species root
      and the node itself does not reconcile to the species root. */
  predicate IsFree(r: Reconciled, i: nat)
    requires Valid(r) && i < |r.gene.parent|
  {
    var p := r.gene.parent[i];
    p != -1 && r.recon[p] == r.species.root && r.events[p] == Dup && r.recon[i] != r.species.root
  }

  /** The root has at least two children, reconciles to the species root and
      is a duplication: one of its two first children unfolds. */
  predicate RootUnfolds(r: Reconciled)
    requires Valid(r)
  {
    var g := r.gene;
    |g.children[g.root]| >= 2 && r.recon[g.root] == r.species.root && r.events[g.root] == Dup
  }

  /** determineFreeBranches: flag every free branch and pick the unfolding branch. */
  method DetermineFreeBranches(r: Reconciled, generate: real, rp: ReconParams)
    requires Valid(r) && rp.Valid() && rp.size == |r.gene.parent|
    modifies rp.freebranches, rp`unfold, rp`unfolddist
    ensures forall i :: 0 <= i < rp.size ==> rp.freebranches[i] == IsFree(r, i)
    ensures !RootUnfolds(r) ==> rp.unfold == -1 && rp.unfolddist == Fin(0.0)
    ensures RootUnfolds(r) ==>
      var c0, c1 := r.gene.children[r.gene.root][0], r.gene.children[r.gene.root][1];
      if r.recon[c0] != r.species.root
      then rp.unfold == c0 && rp.unfolddist == Div(Fin(r.gene.dist[c1]), Fin(generate))
      else rp.unfold == c1 && rp.unfolddist == Div(Fin(r.gene.dist[c0]), Fin(generate))
  {
    var g := r.gene;
    var sroot := r.species.root;
    rp.unfold := -1;
    rp.unfolddist := Fin(0.0);

    for i := 0 to |g.parent|
      invariant forall j :: 0 <= j < i ==> rp.freebranches[j] == IsFree(r, j)
      modifies rp.freebranches
    {
      if g.parent[i] != -1
         && r.recon[g.parent[i]] == sroot
         && r.events[g.parent[i]] == Dup
         && r.recon[i] != sroot
      {
        rp.freebranches[i] := true;
      } else {
        rp.freebranches[i] := false;
      }
    }

    // find unfolding branch
    if |g.children[g.root]| >= 2 && r.recon[g.root] == sroot && r.events[g.root] == Dup {
      if r.recon[g.children[g.root][0]] != sroot {
        rp.unfold := g.children[g.root][0];
        rp.unfolddist := Div(Fin(g.dist[g.children[g.root][1]]), Fin(generate));
      } else {
        rp.unfold := g.children[g.root][1];
        rp.unfolddist := Div(Fin(g.dist[g.children[g.root][0]]), Fin(generate));
      }
    }
  }

  /** A free branch starts on the last part of the species root's branch and,
      because the parent's midpoint is ignored there, its first time is the
      whole length of that branch. */
  lemma FreeBranchSpansSpeciesRoot(r: Reconciled, node: nat, k: seq<Float>)
    requires Valid(r) && node < |r.gene.parent| && |k| == |r.gene.parent|
    requires IsFree(r, node)
    ensures node != r.gene.root && WalkStartExists(r, node)
    ensures ReconOf(r, node).startFrac == FracParent
    ensures ReconOf(r, node).startSpecies == r.species.root
    ensures WellIndexed(r, ReconOf(r, node), node)
    ensures ReconTimes(r, ReconOf(r, node), k, true, node)[0] == Fin(r.species.dist[r.species.root])
  {
    ReconOfIsTimeable(r, node);
  }
}
