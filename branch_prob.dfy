/** branchprob and subtreeprior_cond: the log-probability of one gene
    branch's length under the relaxed clock, and its sum over a subtree.

    Every piece of a branch contributes a gamma term: the rate prior
    (sp_alpha, sp_beta) of its species branch, with the rate parameter scaled
    by the gene rate and the piece's elapsed time.  Terms whose rate parameter
    is infinite or undefined are dropped, then terms whose mean is a
    negligible fraction of the total, both by swap-with-last compaction of
    the parallel alpha/beta arrays.  The gamma densities are external and
    enter as function parameters. */
module BranchProb {
  import opened Floats
  import opened Trees
  import opened Reconciliation
  import opened Compaction

  /** Terms with mean below this fraction of the total mean are dropped. */
  const MinFrac: real := 0.01

  /** The accuracy handed to the gamma-sum density. */
  const Tol: real := 0.001

  /** One gamma term: shape alpha and rate beta. */
  datatype Term = Term(alpha: real, beta: Float)

  /** The external densities: `gammaLog(x, a, b)` is the log gamma density,
      `gammaSumLog(x, alphas, betas, tol)` the log of the density of a sum of
      gamma variables. */
  datatype Densities = Densities(gammaLog: (real, Float, Float) -> Float,
                                 gammaSumLog: (real, seq<real>, seq<Float>, real) -> Float)

  function MeanOf(t: Term): Float {
    Div(Fin(t.alpha), t.beta)
  }

  function VarOf(t: Term): Float {
    Div(Div(Fin(t.alpha), t.beta), t.beta)
  }

  /** The parallel arrays as one list of terms. */
  function Zip(a: seq<real>, b: seq<Float>): (s: seq<Term>)
    requires |a| == |b|
    ensures |s| == |a| && forall i :: 0 <= i < |s| ==> s[i] == Term(a[i], b[i])
  {
    seq(|a|, i requires 0 <= i < |a| => Term(a[i], b[i]))
  }

  function Alphas(s: seq<Term>): seq<real> {
    seq(|s|, i requires 0 <= i < |s| => s[i].alpha)
  }

  function Betas(s: seq<Term>): seq<Float> {
    seq(|s|, i requires 0 <= i < |s| => s[i].beta)
  }

  /** Left-to-right sum of `f` over the terms. */
  function SumOf(s: seq<Term>, f: Term -> Float): Float {
    if s == [] then Fin(0.0) else Add(SumOf(s[..|s| - 1], f), f(s[|s| - 1]))
  }

  /** First filter: the rate parameter is finite. */
  predicate KeepRate(t: Term) {
    !IsInfOrNaN(t.beta)
  }

  /** A term whose mean is below MinFrac of the total `mean`. */
  predicate Negligible(t: Term, mean: Float) {
    Lt(MeanOf(t), Mul(Fin(MinFrac), mean))
  }

  /** Second filter: the term is not negligible. */
  function KeepSignificant(mean: Float): Term -> bool {
    t => !Negligible(t, mean)
  }

  /** For terms, the survivors of compaction are exactly the accepted terms. */
  lemma Compacted(s: seq<Term>, keep: Term -> bool)
    ensures multiset(Compact(s, 0, keep)) == multiset(Filter(s, keep))
    ensures multiset(Compact(s, 0, keep)) <= multiset(s)
    ensures forall k :: 0 <= k < |Compact(s, 0, keep)| ==> keep(Compact(s, 0, keep)[k])
  {
    var c, f := multiset(Compact(s, 0, keep)), multiset(Filter(s, keep));
    assert s[0..] == s && s[..0] == [];
    forall x
      ensures c[x] == f[x] && c[x] <= multiset(s)[x]
    {
      CompactCount(s, 0, keep, x);
      FilterCount(s, keep, x);
    }
    CompactKeeps(s, 0, keep);
  }

  // ---------------------------------------------------------------------------
  // term assembly

  /** The species branch of every piece, in time-vector order. */
  function TermSpecies(b: BranchRecon): seq<int> {
    (if b.startFrac != FracNone then [b.startSpecies] else [])
    + b.midSpecies
    + (if b.endFrac != FracNone then [b.endSpecies] else [])
  }

  /** Every species branch listed has a rate prior. */
  predicate SpeciesIndexed(p: RateParams, species: seq<int>) {
    forall j :: 0 <= j < |species| ==> 0 <= species[j] < |p.spAlpha| && species[j] < |p.spBeta|
  }

  /** The term of each piece: the species rate prior, its rate divided by
      gene rate times elapsed time. */
  function Terms(p: RateParams, species: seq<int>, times: seq<Float>, generate: real): (s: seq<Term>)
    requires |species| == |times| && SpeciesIndexed(p, species)
    ensures |s| == |times|
    ensures forall j :: 0 <= j < |s| ==> s[j] == TermOf(p, species[j], times[j], generate)
  {
    seq(|times|, j requires 0 <= j < |times| => TermOf(p, species[j], times[j], generate))
  }

  /** The term of a piece on species branch `sp` lasting `time`. */
  function TermOf(p: RateParams, sp: int, time: Float, generate: real): Term
    requires 0 <= sp < |p.spAlpha| && sp < |p.spBeta|
  {
    Term(p.spAlpha[sp], Div(Fin(p.spBeta[sp]), Mul(Fin(generate), time)))
  }

  /** branchprob builds exactly one term per time (its `j == nparams`), and
      each crossed species branch's term sits at the position of that
      branch's time. */
  lemma TermsAlignWithTimes(r: Reconciled, b: BranchRecon, k: seq<Float>, free: bool, node: nat)
    requires Valid(r) && WellIndexed(r, b, node) && |k| == |r.gene.parent| && Admissible(b)
    ensures |TermSpecies(b)| == |ReconTimes(r, b, k, free, node)|
    ensures forall j :: 0 <= j < |TermSpecies(b)| ==> 0 <= TermSpecies(b)[j] < |r.species.parent|
    ensures forall i :: 0 <= i < |b.midSpecies| ==> TermSpecies(b)[StartCount(b) + i] == b.midSpecies[i]
  {
    TermSpeciesShape(b);
    TermSpeciesInRange(r, b, node);
  }

  lemma TermSpeciesShape(b: BranchRecon)
    requires Admissible(b)
    ensures |TermSpecies(b)| == StartCount(b) + |b.midSpecies| + EndCount(b)
    ensures forall i :: 0 <= i < |b.midSpecies| ==> TermSpecies(b)[StartCount(b) + i] == b.midSpecies[i]
  {
    TermSpeciesLength(b);
  }

  lemma TermSpeciesLength(b: BranchRecon)
    requires Admissible(b)
    ensures |TermSpecies(b)| == StartCount(b) + |b.midSpecies| + EndCount(b)
  {
  }

  lemma TermSpeciesInRange(r: Reconciled, b: BranchRecon, node: nat)
    requires Valid(r) && WellIndexed(r, b, node)
    ensures forall j :: 0 <= j < |TermSpecies(b)| ==> 0 <= TermSpecies(b)[j] < |r.species.parent|
  {
    var sp, mid := TermSpecies(b), b.midSpecies;
    var front: seq<int> := if b.startFrac != FracNone then [b.startSpecies] else [];
    assert sp == front + mid + (if b.endFrac != FracNone then [b.endSpecies] else []);
    forall j | 0 <= j < |sp|
      ensures 0 <= sp[j] < |r.species.parent|
    {
      if j < |front| {
        assert sp[j] == b.startSpecies;
      } else if j < |front| + |mid| {
        assert sp[j] == mid[j - |front|];
      } else {
        assert sp[j] == b.endSpecies;
      }
    }
  }

  /** branchprob's term assembly into fresh parallel arrays. */
  method AssembleTerms(b: BranchRecon, p: RateParams, times: seq<Float>, generate: real)
    returns (alpha: array<real>, beta: array<Float>)
    requires Admissible(b) && SpeciesIndexed(p, TermSpecies(b)) && |times| == |TermSpecies(b)|
    ensures fresh(alpha) && fresh(beta) && alpha.Length == |times| && beta.Length == |times|
    ensures Zip(alpha[..], beta[..]) == Terms(p, TermSpecies(b), times, generate)
  {
    ghost var species := TermSpecies(b);
    ghost var spec := Terms(p, species, times, generate);
    TermSpeciesLength(b);
    alpha := new real[|times|];
    beta := new Float[|times|];
    var j := 0;

    if b.startFrac != FracNone {
      var snode := b.startSpecies;
      assert species[j] == snode;
      var t := TermOf(p, snode, times[j], generate);
      ghost var a0, b0 := alpha[..], beta[..];
      alpha[j], beta[j] := t.alpha, t.beta;
      assert alpha[..] == a0[j := t.alpha] && beta[..] == b0[j := t.beta];
      HoldsAfterSet(a0, b0, j, spec, alpha[..], beta[..]);
      j := j + 1;
    }
    assert j == StartCount(b);

    var path := b.midSpecies;
    for i := 0 to |path|
      invariant j == StartCount(b) + i
      invariant Holds(alpha[..], beta[..], j, spec)
    {
      var snode := path[i];
      assert species[j] == snode;
      var t := TermOf(p, snode, times[j], generate);
      ghost var a0, b0 := alpha[..], beta[..];
      alpha[j], beta[j] := t.alpha, t.beta;
      assert alpha[..] == a0[j := t.alpha] && beta[..] == b0[j := t.beta];
      HoldsAfterSet(a0, b0, j, spec, alpha[..], beta[..]);
      j := j + 1;
    }

    if b.endFrac != FracNone {
      var snode := b.endSpecies;
      assert species[j] == snode;
      var t := TermOf(p, snode, times[j], generate);
      ghost var a0, b0 := alpha[..], beta[..];
      alpha[j], beta[j] := t.alpha, t.beta;
      assert alpha[..] == a0[j := t.alpha] && beta[..] == b0[j := t.beta];
      HoldsAfterSet(a0, b0, j, spec, alpha[..], beta[..]);
      j := j + 1;
    }
    ZipAll(alpha[..], beta[..], spec);
  }

  lemma ZipAll(a: seq<real>, b: seq<Float>, s: seq<Term>)
    requires |a| == |b| == |s| && Holds(a, b, |s|, s)
    ensures Zip(a, b) == s
  {
  }

  /** Writing the next term into the arrays extends the terms they hold. */
  lemma HoldsAfterSet(a: seq<real>, b: seq<Float>, j: nat, spec: seq<Term>, a': seq<real>, b': seq<Float>)
    requires j < |spec| && Holds(a, b, j, spec) && j < |a| && j < |b|
    requires a' == a[j := spec[j].alpha] && b' == b[j := spec[j].beta]
    ensures Holds(a', b', j + 1, spec)
  {
  }

  lemma ZipOf(a: seq<real>, b: seq<Float>, n: nat, s: seq<Term>)
    requires Holds(a, b, n, s) && |s| == n
    ensures Zip(a[..n], b[..n]) == s
  {
  }

  // ---------------------------------------------------------------------------
  // the two filters

  /** The first `n` entries of the parallel lists `a` and `b` are the first
      `n` terms of `cur`. */
  ghost predicate Holds(a: seq<real>, b: seq<Float>, n: nat, cur: seq<Term>) {
    n <= |a| && n <= |b| && n <= |cur|
    && forall m :: 0 <= m < n ==> cur[m] == Term(a[m], b[m])
  }

  /** Rejecting the term at `i` by moving the last one into its place keeps
      the arrays in step with the compacted list. */
  lemma HoldsAfterDrop(a: seq<real>, b: seq<Float>, n: nat, cur: seq<Term>, i: nat, a': seq<real>, b': seq<Float>)
    requires Holds(a, b, n + 1, cur) && |cur| == n + 1 && i <= n
    requires a' == a[i := a[n]] && b' == b[i := b[n]]
    ensures Holds(a', b', n, DropAt(cur, i))
  {
    DropAtIndex(cur, i);
  }

  /** Accepting the term at `i` adds it to a running sum over the prefix. */
  lemma SumStep(s: seq<Term>, i: nat, f: Term -> Float)
    requires i < |s|
    ensures SumOf(s[..i + 1], f) == Add(SumOf(s[..i], f), f(s[i]))
  {
    assert s[..i + 1][..i] == s[..i];
  }

  /** Rejecting the term at `i` leaves the prefix before it alone. */
  lemma DropKeepsPrefix(s: seq<Term>, i: nat)
    requires i < |s|
    ensures DropAt(s, i)[..i] == s[..i]
  {
    DropAtParts(s, i);
  }

  /** First pass: drop terms with an infinite or undefined rate, summing the
      means of the survivors. */
  method DropInfOrNaN(alpha: array<real>, beta: array<Float>, n0: nat) returns (n: nat, mean: Float)
    requires n0 <= alpha.Length && n0 <= beta.Length
    modifies alpha, beta
    ensures n <= n0
    ensures Zip(alpha[..n], beta[..n]) == Compact(Zip(old(alpha[..n0]), old(beta[..n0])), 0, KeepRate)
    ensures mean == SumOf(Zip(alpha[..n], beta[..n]), MeanOf)
  {
    ghost var cur := Zip(alpha[..n0], beta[..n0]);
    ghost var s0 := cur;
    ghost var keep := KeepRate;
    var termMean := MeanOf;
    n := n0;
    mean := Fin(0.0);
    var i := 0;
    while i < n
      invariant i <= n <= n0 && |cur| == n && Holds(alpha[..], beta[..], n, cur)
      invariant Compact(cur, i, keep) == Compact(s0, 0, keep)
      invariant mean == SumOf(cur[..i], MeanOf)
      decreases n - i
    {
      assert cur[i] == Term(alpha[i], beta[i]);
      if IsInfOrNaN(beta[i]) {
        CompactDrop(cur, i, keep);
        DropKeepsPrefix(cur, i);
        ghost var a0, b0, c0 := alpha[..], beta[..], cur;
        cur := DropAt(cur, i);
        n := n - 1;
        alpha[i] := alpha[n];
        beta[i] := beta[n];
        assert alpha[..] == a0[i := a0[n]] && beta[..] == b0[i := b0[n]];
        HoldsAfterDrop(a0, b0, n, c0, i, alpha[..], beta[..]);
      } else {
        CompactKeep(cur, i, keep);
        SumStep(cur, i, MeanOf);
        mean := Add(mean, termMean(Term(alpha[i], beta[i])));
        i := i + 1;
      }
    }
    assert cur[..i] == cur && Compact(cur, i, keep) == cur;
    ZipOf(alpha[..], beta[..], n, cur);
  }

  /** Second pass: drop terms whose mean is below MinFrac of `mean`, summing
      the means and variances of the survivors. */
  method DropNegligible(alpha: array<real>, beta: array<Float>, n0: nat, mean: Float)
    returns (n: nat, mu: Float, variance: Float)
    requires n0 <= alpha.Length && n0 <= beta.Length
    modifies alpha, beta
    ensures n <= n0
    ensures Zip(alpha[..n], beta[..n])
         == Compact(Zip(old(alpha[..n0]), old(beta[..n0])), 0, KeepSignificant(mean))
    ensures mu == SumOf(Zip(alpha[..n], beta[..n]), MeanOf)
    ensures variance == SumOf(Zip(alpha[..n], beta[..n]), VarOf)
  {
    ghost var cur := Zip(alpha[..n0], beta[..n0]);
    ghost var s0 := cur;
    var keep := KeepSignificant(mean);
    n := n0;
    mu, variance := Fin(0.0), Fin(0.0);
    var i := 0;
    while i < n
      invariant i <= n <= n0 && |cur| == n && Holds(alpha[..], beta[..], n, cur)
      invariant Compact(cur, i, keep) == Compact(s0, 0, keep)
      invariant mu == SumOf(cur[..i], MeanOf)
      invariant variance == SumOf(cur[..i], VarOf)
      decreases n - i
    {
      assert cur[i] == Term(alpha[i], beta[i]);
      if !keep(Term(alpha[i], beta[i])) {
        CompactDrop(cur, i, keep);
        DropKeepsPrefix(cur, i);
        ghost var a0, b0, c0 := alpha[..], beta[..], cur;
        cur := DropAt(cur, i);
        n := n - 1;
        alpha[i] := alpha[n];
        beta[i] := beta[n];
        assert alpha[..] == a0[i := a0[n]] && beta[..] == b0[i := b0[n]];
        HoldsAfterDrop(a0, b0, n, c0, i, alpha[..], beta[..]);
      } else {
        CompactKeep(cur, i, keep);
        SumStep(cur, i, MeanOf);
        SumStep(cur, i, VarOf);
        mu := Add(mu, MeanOf(Term(alpha[i], beta[i])));
        variance := Add(variance, VarOf(Term(alpha[i], beta[i])));
        i := i + 1;
      }
    }
    assert cur[..i] == cur && Compact(cur, i, keep) == cur;
    ZipOf(alpha[..], beta[..], n, cur);
  }

  // ---------------------------------------------------------------------------
  // branchprob

  /** The terms of `node`'s branch given its decomposition and midpoints. */
  function BranchTerms(r: Reconciled, b: BranchRecon, k: seq<Float>, free: bool, node: nat,
                       p: RateParams, generate: real): seq<Term>
    requires Valid(r) && WellIndexed(r, b, node) && |k| == |r.gene.parent| && Admissible(b)
    requires ParamsFit(p, r.species)
  {
    TermsAlignWithTimes(r, b, k, free, node);
    Terms(p, TermSpecies(b), ReconTimes(r, b, k, free, node), generate)
  }

  /** The survivors of the first filter. */
  function FirstPass(terms: seq<Term>): seq<Term> {
    Compact(terms, 0, KeepRate)
  }

  /** The survivors of the second filter. */
  function SecondPass(terms: seq<Term>): seq<Term> {
    Compact(FirstPass(terms), 0, KeepSignificant(SumOf(FirstPass(terms), MeanOf)))
  }

  /** The log-probability branchprob returns for a branch of length `dist`
      with the given terms. */
  function LogProbOfTerms(terms: seq<Term>, dist: real, dens: Densities, approx: bool): Float {
    var mean := SumOf(FirstPass(terms), MeanOf);
    var final := SecondPass(terms);
    if final == [] then NegInf
    else
      var variance := SumOf(final, VarOf);
      var logp :=
        if approx then dens.gammaLog(dist, Div(Mul(mean, mean), variance), Div(mean, variance))
        else dens.gammaSumLog(dist, Alphas(final), Betas(final), Tol);
      if logp.NaN? then NegInf else logp
  }

  /** branchprob: the log-probability of `node`'s branch length. */
  method BranchProb(r: Reconciled, node: nat, generate: real, rp: ReconParams, dens: Densities,
                    approx: bool := true)
    returns (logp: Float)
    requires Valid(r) && rp.Valid() && rp.size == |r.gene.parent| && node < rp.size
    requires ParamsFit(rp.params, r.species)
    requires WellIndexed(r, rp.Branch(node), node) && Admissible(rp.Branch(node))
    ensures logp == LogProbOfTerms(
      BranchTerms(r, rp.Branch(node), rp.midpoints[..], rp.freebranches[node], node, rp.params, generate),
      r.gene.dist[node], dens, approx)
    ensures !logp.NaN?
  {
    // get times
    var times := GetReconTimes(r, node, rp);
    TermSpeciesLength(rp.Branch(node));
    TermSpeciesInRange(r, rp.Branch(node), node);

    // get gammaSum terms
    var alpha, beta := AssembleTerms(rp.Branch(node), rp.params, times, generate);
    logp := FilteredLogProb(alpha, beta, r.gene.dist[node], dens, approx);
  }

  /** The rest of branchprob once the terms are in `alpha`/`beta`: both
      filters, then the density of the survivors. */
  method FilteredLogProb(alpha: array<real>, beta: array<Float>, dist: real, dens: Densities, approx: bool)
    returns (logp: Float)
    requires alpha.Length == beta.Length
    modifies alpha, beta
    ensures logp == LogProbOfTerms(old(Zip(alpha[..], beta[..])), dist, dens, approx)
    ensures !logp.NaN?
  {
    ghost var terms := Zip(alpha[..], beta[..]);
    assert alpha[..alpha.Length] == alpha[..] && beta[..alpha.Length] == beta[..];

    // filter for extreme parameters
    var n, mean := DropInfOrNaN(alpha, beta, alpha.Length);
    assert Zip(alpha[..n], beta[..n]) == FirstPass(terms);

    // remove params with effectively zero mean
    var mu, variance;
    n, mu, variance := DropNegligible(alpha, beta, n, mean);
    assert Zip(alpha[..n], beta[..n]) == SecondPass(terms);
    LogProbOfSurvivors(terms, dist, dens, approx, alpha[..n], beta[..n]);

    // there is nothing to do
    if n == 0 {
      return NegInf;
    }

    if approx {
      logp := dens.gammaLog(dist, Div(Mul(mean, mean), variance), Div(mean, variance));
    } else {
      logp := dens.gammaSumLog(dist, alpha[..n], beta[..n], Tol);
    }

    if logp.NaN? {
      logp := NegInf;
    }
  }

  /** LogProbOfTerms in terms of the surviving parallel arrays. */
  lemma LogProbOfSurvivors(terms: seq<Term>, dist: real, dens: Densities, approx: bool,
                           a: seq<real>, b: seq<Float>)
    requires |a| == |b| && Zip(a, b) == SecondPass(terms)
    ensures var mean := SumOf(FirstPass(terms), MeanOf);
      var variance := SumOf(Zip(a, b), VarOf);
      var logp :=
        if approx then dens.gammaLog(dist, Div(Mul(mean, mean), variance), Div(mean, variance))
        else dens.gammaSumLog(dist, a, b, Tol);
      LogProbOfTerms(terms, dist, dens, approx)
        == if a == [] then NegInf else if logp.NaN? then NegInf else logp
  {
    assert Alphas(Zip(a, b)) == a;
    assert Betas(Zip(a, b)) == b;
  }

  /** What branchprob's filters guarantee: every surviving term has a
      finite rate and a mean of at least MinFrac of the first-pass total;
      the survivors are exactly the terms passing both filters; when none
      survives the result is negative infinity; and the result is never NaN. */
  lemma FilteredTerms(terms: seq<Term>, dist: real, dens: Densities, approx: bool)
    ensures var mean := SumOf(FirstPass(terms), MeanOf);
      forall t :: t in SecondPass(terms) ==> t.beta.Fin? && !Negligible(t, mean)
    ensures multiset(SecondPass(terms))
         == multiset(Filter(Filter(terms, KeepRate), KeepSignificant(SumOf(FirstPass(terms), MeanOf))))
    ensures SecondPass(terms) == [] ==> LogProbOfTerms(terms, dist, dens, approx) == NegInf
    ensures !LogProbOfTerms(terms, dist, dens, approx).NaN?
  {
    SurvivorsCounted(terms);
    SurvivorsPass(terms);
  }

  lemma SurvivorsCounted(terms: seq<Term>)
    ensures multiset(SecondPass(terms))
         == multiset(Filter(Filter(terms, KeepRate), KeepSignificant(SumOf(FirstPass(terms), MeanOf))))
  {
    var first := FirstPass(terms);
    var keep := KeepSignificant(SumOf(first, MeanOf));
    Compacted(terms, KeepRate);
    Compacted(first, keep);
    forall x
      ensures multiset(Filter(first, keep))[x] == multiset(Filter(Filter(terms, KeepRate), keep))[x]
    {
      FilterCount(first, keep, x);
      FilterCount(Filter(terms, KeepRate), keep, x);
    }
    assert multiset(Filter(first, keep)) == multiset(Filter(Filter(terms, KeepRate), keep));
  }

  lemma SurvivorsPass(terms: seq<Term>)
    ensures var mean := SumOf(FirstPass(terms), MeanOf);
      forall t :: t in SecondPass(terms) ==> t.beta.Fin? && !Negligible(t, mean)
  {
    var first := FirstPass(terms);
    var keep := KeepSignificant(SumOf(first, MeanOf));
    Compacted(terms, KeepRate);
    Compacted(first, keep);
    forall t | t in SecondPass(terms)
      ensures t.beta.Fin? && keep(t)
    {
      var i :| 0 <= i < |SecondPass(terms)| && SecondPass(terms)[i] == t;
      assert t in multiset(SecondPass(terms));
      assert t in multiset(first);
      var j :| 0 <= j < |first| && first[j] == t;
    }
  }

  /** The approximation is centred on the first-pass total mean, not on the
      total `mu` of the terms that survive the second filter: with a
      negligible second term the two differ. */
  lemma ApproxUsesFirstPassMean()
    ensures var terms := [Term(1.0, Fin(1.0)), Term(0.001, Fin(1.0))];
      SumOf(FirstPass(terms), MeanOf) == Fin(1.001)
      && SecondPass(terms) == [Term(1.0, Fin(1.0))]
      && SumOf(SecondPass(terms), MeanOf) == Fin(1.0)
  {
    var terms := [Term(1.0, Fin(1.0)), Term(0.001, Fin(1.0))];
    assert FirstPass(terms) == terms;
    assert terms[..1] == [Term(1.0, Fin(1.0))];
    assert SumOf(terms, MeanOf) == Fin(1.001);
    var keep := KeepSignificant(Fin(1.001));
    assert keep(terms[0]);
    assert !keep(terms[1]);
    assert DropAt(terms, 1) == [Term(1.0, Fin(1.0))];
    assert Compact(terms, 0, keep) == Compact(terms, 1, keep);
    assert Compact(terms, 1, keep) == Compact([Term(1.0, Fin(1.0))], 1, keep);
  }

  // ---------------------------------------------------------------------------
  // subtreeprior_cond

  /** subtreeprior_cond scores every listed branch except those at the
      species root and the gene-tree root. */
  predicate Scored(r: Reconciled, x: nat)
    requires Valid(r) && x < |r.gene.parent|
  {
    r.recon[x] != r.species.root && x != r.gene.root
  }

  /** Every scored node of the list has a decomposition branchprob accepts. */
  ghost predicate Scorable(r: Reconciled, branches: seq<BranchRecon>, subnodes: seq<nat>)
    requires Valid(r) && |branches| == |r.gene.parent|
  {
    forall j :: 0 <= j < |subnodes| ==>
      subnodes[j] < |r.gene.parent| &&
      (Scored(r, subnodes[j]) ==>
         WellIndexed(r, branches[subnodes[j]], subnodes[j]) && Admissible(branches[subnodes[j]]))
  }

  /** The branch log-probabilities subtreeprior_cond adds up, in list order. */
  function SubtreeLogProbs(r: Reconciled, branches: seq<BranchRecon>, k: seq<Float>, free: seq<bool>,
                           p: RateParams, subnodes: seq<nat>, generate: real, dens: Densities): seq<Float>
    requires Valid(r) && |branches| == |r.gene.parent| && |k| == |r.gene.parent| && |free| == |r.gene.parent|
    requires ParamsFit(p, r.species) && Scorable(r, branches, subnodes)
  {
    if subnodes == [] then []
    else
      var x := subnodes[|subnodes| - 1];
      assert Scorable(r, branches, subnodes[..|subnodes| - 1]);
      SubtreeLogProbs(r, branches, k, free, p, subnodes[..|subnodes| - 1], generate, dens)
      + (if Scored(r, x) then
           [LogProbOfTerms(BranchTerms(r, branches[x], k, free[x], x, p, generate), r.gene.dist[x], dens, true)]
         else [])
  }

  /** subtreeprior_cond: the sum of branchprob over the scored branches of a
      subtree; branchprob is called without `approx`, so it always takes
      its default, the gamma approximation. */
  method SubtreePriorCond(r: Reconciled, generate: real, rp: ReconParams, subnodes: seq<nat>, dens: Densities)
    returns (logp: Float)
    requires Valid(r) && rp.Valid() && rp.size == |r.gene.parent|
    requires ParamsFit(rp.params, r.species) && Scorable(r, rp.Branches(), subnodes)
    ensures logp == Sum(SubtreeLogProbs(r, rp.Branches(), rp.midpoints[..], rp.freebranches[..],
                                        rp.params, subnodes, generate, dens))
  {
    logp := Fin(0.0);
    var sroot := r.species.root;
    ghost var bs, k, free := rp.Branches(), rp.midpoints[..], rp.freebranches[..];

    // loop through all branches in subtree
    for j := 0 to |subnodes|
      invariant Scorable(r, bs, subnodes[..j])
      invariant logp == Sum(SubtreeLogProbs(r, bs, k, free, rp.params, subnodes[..j], generate, dens))
    {
      var node := subnodes[j];
      SubtreeStep(r, bs, k, free, rp.params, subnodes, j, generate, dens);
      if r.recon[node] != sroot && node != r.gene.root {
        var b := BranchProb(r, node, generate, rp, dens);
        assert bs[node] == rp.Branch(node) && free[node] == rp.freebranches[node] && k == rp.midpoints[..];
        ghost var before := SubtreeLogProbs(r, bs, k, free, rp.params, subnodes[..j], generate, dens);
        SumAppend(before, b);
        assert SubtreeLogProbs(r, bs, k, free, rp.params, subnodes[..j + 1], generate, dens) == before + [b];
        logp := Add(logp, b);
      } else {
        assert SubtreeLogProbs(r, bs, k, free, rp.params, subnodes[..j + 1], generate, dens)
            == SubtreeLogProbs(r, bs, k, free, rp.params, subnodes[..j], generate, dens);
      }
    }
    assert subnodes[..|subnodes|] == subnodes;
  }

  /** Taking one more node of the list appends its branch log-probability
      when the node is scored, and nothing otherwise. */
  lemma SubtreeStep(r: Reconciled, branches: seq<BranchRecon>, k: seq<Float>, free: seq<bool>,
                    p: RateParams, subnodes: seq<nat>, j: nat, generate: real, dens: Densities)
    requires Valid(r) && |branches| == |r.gene.parent| && |k| == |r.gene.parent| && |free| == |r.gene.parent|
    requires ParamsFit(p, r.species) && Scorable(r, branches, subnodes) && j < |subnodes|
    ensures Scorable(r, branches, subnodes[..j]) && Scorable(r, branches, subnodes[..j + 1])
    ensures var x := subnodes[j];
      SubtreeLogProbs(r, branches, k, free, p, subnodes[..j + 1], generate, dens)
        == SubtreeLogProbs(r, branches, k, free, p, subnodes[..j], generate, dens)
           + (if Scored(r, x) then
                [LogProbOfTerms(BranchTerms(r, branches[x], k, free[x], x, p, generate), r.gene.dist[x], dens, true)]
              else [])
  {
    assert subnodes[..j + 1][..j] == subnodes[..j];
  }

  /** When the gamma approximation never returns positive infinity, the
      log-probability of a subtree is never NaN nor positive infinity, and
      it is negative infinity exactly when some scored branch has
      probability zero. */
  lemma SubtreeLogProbNotNaN(r: Reconciled, branches: seq<BranchRecon>, k: seq<Float>, free: seq<bool>,
                             p: RateParams, subnodes: seq<nat>, generate: real, dens: Densities)
    requires Valid(r) && |branches| == |r.gene.parent| && |k| == |r.gene.parent| && |free| == |r.gene.parent|
    requires ParamsFit(p, r.species) && Scorable(r, branches, subnodes)
    requires forall x, a, b :: dens.gammaLog(x, a, b) != PosInf
    ensures var s := SubtreeLogProbs(r, branches, k, free, p, subnodes, generate, dens);
      && !Sum(s).NaN? && !Sum(s).PosInf?
      && (Sum(s).NegInf? <==> exists i :: 0 <= i < |s| && s[i].NegInf?)
  {
    var s := SubtreeLogProbs(r, branches, k, free, p, subnodes, generate, dens);
    SubtreeEntries(r, branches, k, free, p, subnodes, generate, dens);
    SumWithoutNaNOrPosInf(s);
  }

  lemma {:induction false} SubtreeEntries(r: Reconciled, branches: seq<BranchRecon>, k: seq<Float>, free: seq<bool>,
                                          p: RateParams, subnodes: seq<nat>, generate: real, dens: Densities)
    requires Valid(r) && |branches| == |r.gene.parent| && |k| == |r.gene.parent| && |free| == |r.gene.parent|
    requires ParamsFit(p, r.species) && Scorable(r, branches, subnodes)
    requires forall x, a, b :: dens.gammaLog(x, a, b) != PosInf
    ensures NoNaNOrPosInf(SubtreeLogProbs(r, branches, k, free, p, subnodes, generate, dens))
  {
    if subnodes != [] {
      var x := subnodes[|subnodes| - 1];
      var front := subnodes[..|subnodes| - 1];
      assert Scorable(r, branches, front);
      var s := SubtreeLogProbs(r, branches, k, free, p, subnodes, generate, dens);
      var pre := SubtreeLogProbs(r, branches, k, free, p, front, generate, dens);
      SubtreeEntries(r, branches, k, free, p, front, generate, dens);
      if Scored(r, x) {
        var terms := BranchTerms(r, branches[x], k, free[x], x, p, generate);
        ApproxNeverPosInf(terms, r.gene.dist[x], dens);
        assert s == pre + [LogProbOfTerms(terms, r.gene.dist[x], dens, true)];
      } else {
        assert s == pre;
      }
    }
  }

  predicate NoNaNOrPosInf(s: seq<Float>) {
    forall i :: 0 <= i < |s| ==> !s[i].NaN? && !s[i].PosInf?
  }

  /** With the gamma approximation, a density that never returns positive
      infinity gives a branch log-probability that is neither NaN nor
      positive infinity. */
  lemma ApproxNeverPosInf(terms: seq<Term>, dist: real, dens: Densities)
    requires forall x, a, b :: dens.gammaLog(x, a, b) != PosInf
    ensures !LogProbOfTerms(terms, dist, dens, true).NaN? && !LogProbOfTerms(terms, dist, dens, true).PosInf?
  {
  }
}
