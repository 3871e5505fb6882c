/** The gene-rate estimator: the maximum-likelihood gene rate from the
    subtree depths of a reconciled gene tree.  estimateGeneRate collects, for
    every subtree leaf, its depth below the subtree root and the mean and
    variance of the rates of the species branches above it; mleGeneRate keeps
    the samples deeper than a threshold and solves a cubic for the rate.

    Arithmetic is over exact reals: single-precision rounding is not
    modelled. */
module GeneRate {
  import opened Trees
  import opened Reconciliation

  datatype GeneRateError =
    | ThresholdOutOfRange  // mleGeneRate reads dists2[limit] past the end
    | CubicStartPositive   // maxCubicRoot's assertion f(0) <= 0 fails
    | ZeroVariance         // estimateGeneRate's assertion |s2| > 1e-7 fails

  datatype Result<T> = Ok(value: T) | Err(error: GeneRateError)

  // ---------------------------------------------------------------------------
  // maxCubicRoot

  /** The bracket width at which bisection stops. */
  const Accuracy: real := 0.001

  /** The first point examined before doubling. */
  const Start: real := 0.01

  function Cubic(a: real, b: real, c: real, x: real): real {
    x * x * x + a * x * x + b * x + c
  }

  /** `[lo, hi]` is a final bisection bracket: narrower than Accuracy, the
      cubic is not negative at `hi`, and negative at `lo` unless `lo` is the
      first point examined (never evaluated). */
  ghost predicate Brackets(a: real, b: real, c: real, lo: real, hi: real) {
    0.0 < lo < hi <= lo + Accuracy
    && Cubic(a, b, c, hi) >= 0.0
    && (lo == Start || Cubic(a, b, c, lo) < 0.0)
  }

  /** `x` is a positive exact root, or an end of a final bracket. */
  ghost predicate NearRoot(a: real, b: real, c: real, x: real) {
    x > 0.0
    && (Cubic(a, b, c, x) == 0.0 || exists lo, hi :: Brackets(a, b, c, lo, hi) && (x == lo || x == hi))
  }

  /** Far enough out the cubic term dominates: the cubic is positive from
      1 + |a| + |b| + |c| on. */
  lemma CubicPositiveFar(a: real, b: real, c: real, x: real)
    requires x >= 1.0 + Abs(a) + Abs(b) + Abs(c)
    ensures Cubic(a, b, c, x) > 0.0
  {
    HornerPositive(x + a, b, c, x);
    CubicHorner(a, b, c, x);
  }

  /** Horner form: each multiplication by x >= 1 keeps the partial value at
      least 1 + the absolute values still to be added. */
  lemma HornerPositive(u: real, b: real, c: real, x: real)
    requires x >= 1.0 && u >= 1.0 + Abs(b) + Abs(c)
    ensures x * (x * u + b) + c > 0.0
  {
    MulAtLeast(x, u);
    var w := x * u + b;
    assert w >= 1.0 + Abs(c) by { AbsBounds(b); }
    MulAtLeast(x, w);
    AbsBounds(c);
  }

  lemma AbsBounds(z: real)
    ensures -Abs(z) <= z <= Abs(z)
  {
  }

  lemma CubicHorner(a: real, b: real, c: real, x: real)
    ensures Cubic(a, b, c, x) == x * (x * (x + a) + b) + c
  {
  }

  /** Multiplying a non-negative value by at least one does not shrink it. */
  lemma MulAtLeast(x: real, y: real)
    requires x >= 1.0 && y >= 0.0
    ensures x * y >= y
  {
    MulNonNegative(x - 1.0, y);
  }

  lemma MulNonNegative(p: real, q: real)
    requires p >= 0.0 && q >= 0.0
    ensures p * q >= 0.0
  {
  }

  function Abs(x: real): real {
    if x < 0.0 then -x else x
  }

  /** Halving a value above one lowers its integer part. */
  lemma HalfFloor(z: real)
    requires z > 1.0
    ensures (z / 2.0).Floor < z.Floor
  {
    assert z.Floor as real > z - 1.0;
  }

  /** maxCubicRoot: double from Start until the cubic is not negative, then
      bisect down to Accuracy.  The source asserts f(0) = c <= 0. */
  method MaxCubicRoot(a: real, b: real, c: real) returns (x: real)
    requires Cubic(a, b, c, 0.0) <= 0.0
    ensures NearRoot(a, b, c, x)
  {
    var far := 1.0 + Abs(a) + Abs(b) + Abs(c);

    // increase x until y is not negative
    x := Start;
    x := x * 2.0;
    var y := Cubic(a, b, c, x);
    while y < 0.0
      invariant x >= 2.0 * Start && y == Cubic(a, b, c, x)
      invariant x == 2.0 * Start || Cubic(a, b, c, x / 2.0) < 0.0
      decreases ((far - x) * 100.0).Floor
    {
      if x >= far {
        CubicPositiveFar(a, b, c, x);
      }
      x := x * 2.0;
      y := Cubic(a, b, c, x);
    }

    // binary search to find root
    var min, max := x / 2.0, x;
    while max - min > Accuracy
      invariant 0.0 < min < max && Cubic(a, b, c, max) >= 0.0
      invariant min == Start || Cubic(a, b, c, min) < 0.0
      invariant x == min || x == max
      decreases ((max - min) / Accuracy).Floor
    {
      HalfFloor((max - min) / Accuracy);
      x := (max + min) / 2.0;
      y := Cubic(a, b, c, x);
      if y == 0.0 {
        return x;
      } else if y > 0.0 {
        max := x;
      } else {
        min := x;
      }
    }
    assert Brackets(a, b, c, min, max);
  }

  /** A cubic of the kind maxCubicRoot accepts may have more than one
      positive root: f(x) = (x - 0.03)(x - 0.5)(x - 1) has f(0) <= 0, and the
      doubling from Start stops at 0.04, so the final bracket lies below 0.04
      and the answer is near the smallest root, not the largest. */
  lemma SeveralPositiveRoots()
    ensures var a, b, c := -1.53, 0.545, -0.015;
      && Cubic(a, b, c, 0.0) <= 0.0
      && Cubic(a, b, c, 0.03) == 0.0 && Cubic(a, b, c, 0.5) == 0.0 && Cubic(a, b, c, 1.0) == 0.0
      && Cubic(a, b, c, 2.0 * Start) < 0.0 && Cubic(a, b, c, 4.0 * Start) > 0.0
  {
  }

  // ---------------------------------------------------------------------------
  // floatcmp and the sort of mleGeneRate

  /** floatcmp: the three-way comparison handed to qsort. */
  function FloatCmp(fa: real, fb: real): int {
    if fa < fb then -1 else if fa > fb then 1 else 0
  }

  /** floatcmp is a total order: antisymmetric, zero only on equal values,
      and transitive. */
  lemma FloatCmpTotalOrder(x: real, y: real, z: real)
    ensures FloatCmp(x, y) == -FloatCmp(y, x)
    ensures FloatCmp(x, y) == 0 <==> x == y
    ensures FloatCmp(x, y) <= 0 && FloatCmp(y, z) <= 0 ==> FloatCmp(x, z) <= 0
  {
  }

  /** Ascending in the order floatcmp defines. */
  ghost predicate SortedUp(s: seq<real>) {
    forall i, j :: 0 <= i < j < |s| ==> s[i] <= s[j]
  }

  /** `x` placed into the sorted list `s` before the first entry it does not
      follow under floatcmp. */
  function Insert(x: real, s: seq<real>): (r: seq<real>)
    requires SortedUp(s)
    ensures |r| == |s| + 1 && multiset(r) == multiset(s) + multiset{x}
    ensures SortedUp(r)
    ensures r[0] == x || (s != [] && r[0] == s[0])
  {
    if s == [] then [x]
    else if FloatCmp(x, s[0]) <= 0 then
      SortedCons(x, s);
      [x] + s
    else
      SortedTail(s);
      var rest := Insert(x, s[1..]);
      InsertAfterHead(x, s, rest);
      [s[0]] + rest
  }

  /** Putting back the head of `s` in front of `x` inserted into its tail. */
  lemma InsertAfterHead(x: real, s: seq<real>, rest: seq<real>)
    requires SortedUp(s) && s != [] && s[0] < x
    requires SortedUp(rest) && multiset(rest) == multiset(s[1..]) + multiset{x}
    requires rest != [] && (rest[0] == x || (|s| > 1 && rest[0] == s[1]))
    ensures SortedUp([s[0]] + rest)
    ensures multiset([s[0]] + rest) == multiset(s) + multiset{x}
  {
    SortedTail(s);
    SortedCons(s[0], rest);
    assert s == [s[0]] + s[1..];
  }

  /** A value no larger than the head of a sorted list extends it. */
  lemma SortedCons(h: real, t: seq<real>)
    requires SortedUp(t) && (t == [] || h <= t[0])
    ensures SortedUp([h] + t)
  {
  }

  /** The tail of a sorted list is sorted and holds the other elements. */
  lemma SortedTail(s: seq<real>)
    requires SortedUp(s) && s != []
    ensures SortedUp(s[1..]) && (|s| > 1 ==> s[0] <= s[1])
  {
  }

  /** The tail of a list holds its other elements. */
  lemma TailMultiset(s: seq<real>)
    requires s != []
    ensures multiset(s[1..]) == multiset(s) - multiset{s[0]}
  {
    assert s == [s[0]] + s[1..];
  }

  /** The list qsort leaves behind with floatcmp: the same values in
      ascending order. */
  function SortUp(s: seq<real>): (r: seq<real>)
    ensures |r| == |s| && multiset(r) == multiset(s)
    ensures SortedUp(r)
  {
    if s == [] then []
    else
      assert s == s[..|s| - 1] + [s[|s| - 1]];
      Insert(s[|s| - 1], SortUp(s[..|s| - 1]))
  }

  /** A sorted arrangement of given values is unique, so any correct sort
      (qsort is not stable, but equal reals are indistinguishable) yields
      the list SortUp gives. */
  lemma {:induction false} SortedUnique(s: seq<real>, t: seq<real>)
    requires SortedUp(s) && SortedUp(t) && multiset(s) == multiset(t)
    ensures s == t
    decreases |s|
  {
    assert |t| == |multiset(t)| == |s|;
    if s != [] {
      var x := SmallestOfSorted(s, t);
      var y := SmallestOfSorted(t, s);
      SortedTail(s);
      SortedTail(t);
      TailMultiset(s);
      TailMultiset(t);
      SortedUnique(s[1..], t[1..]);
      ConsEqual(s, t);
    }
  }

  lemma ConsEqual(s: seq<real>, t: seq<real>)
    requires s != [] && t != [] && s[0] == t[0] && s[1..] == t[1..]
    ensures s == t
  {
    assert s == [s[0]] + s[1..] && t == [t[0]] + t[1..];
  }

  /** The first entry of a non-empty sorted list is at most every entry of
      any list with the same elements. */
  lemma SmallestOfSorted(s: seq<real>, t: seq<real>) returns (x: real)
    requires SortedUp(s) && SortedUp(t) && multiset(s) == multiset(t) && s != [] && t != []
    ensures x == s[0] && s[0] <= t[0]
  {
    assert t[0] in multiset(s);
    var j :| 0 <= j < |s| && s[j] == t[0];
    x := s[0];
  }


  // ---------------------------------------------------------------------------
  // mleGeneRate

  /** The index of the threshold in the sorted depths: half the count, plus
      one, but at least four. */
  function Limit(count: nat): nat {
    var limit := count / 2 + 1;
    if limit < 4 then 4 else limit
  }

  /** The threshold read lies inside the sorted list exactly when there are
      at least five samples. */
  lemma LimitInRange(count: nat)
    ensures Limit(count) < count <==> count >= 5
  {
  }

  /** `sdevs[i] > 0.0001`, stated on the variance sdevs[i]^2. */
  const MinVar: real := 0.00000001

  /** A sample counts when its depth exceeds the threshold and its standard
      deviation exceeds 0.0001. */
  predicate Selected(d: real, v: real, threshold: real) {
    d > threshold && v > MinVar
  }

  /** One sample's summand of b: mean * depth / variance. */
  function MeanTerm(d: real, m: real, v: real): real
    requires v > 0.0
  {
    m * d / v
  }

  /** One sample's summand of c: depth^2 / variance. */
  function DepthTerm(d: real, v: real): real
    requires v > 0.0
  {
    d * d / v
  }

  /** sum(means[i] * dists[i] / sdevs[i]^2) over the selected samples among the first `n`. */
  function SumB(dists: seq<real>, means: seq<real>, vars: seq<real>, threshold: real, n: nat): real
    requires n <= |dists| == |means| == |vars|
  {
    if n == 0 then 0.0
    else
      var i := n - 1;
      SumB(dists, means, vars, threshold, i)
      + (if Selected(dists[i], vars[i], threshold) then MeanTerm(dists[i], means[i], vars[i]) else 0.0)
  }

  /** sum(dists[i]^2 / sdevs[i]^2) over the selected samples among the first `n`. */
  function SumC(dists: seq<real>, vars: seq<real>, threshold: real, n: nat): real
    requires n <= |dists| == |vars|
  {
    if n == 0 then 0.0
    else
      var i := n - 1;
      SumC(dists, vars, threshold, i)
      + (if Selected(dists[i], vars[i], threshold) then DepthTerm(dists[i], vars[i]) else 0.0)
  }

  /** Every selected summand of SumC is a square over a positive variance. */
  lemma {:induction false} SumCNonNegative(dists: seq<real>, vars: seq<real>, threshold: real, n: nat)
    requires n <= |dists| == |vars|
    ensures SumC(dists, vars, threshold, n) >= 0.0
  {
    if n > 0 {
      var i := n - 1;
      SumCNonNegative(dists, vars, threshold, i);
      if Selected(dists[i], vars[i], threshold) {
        assert dists[i] * dists[i] >= 0.0;
        assert DepthTerm(dists[i], vars[i]) >= 0.0;
      }
    }
  }

  /** The coefficients (a, b, c) of the cubic mleGeneRate solves. */
  datatype Coeffs = Coeffs(a: real, b: real, c: real)

  function MleCoeffs(dists: seq<real>, means: seq<real>, vars: seq<real>, alpha: real, beta: real): Coeffs
    requires |dists| == |means| == |vars| && 5 <= |dists| && beta != 0.0
  {
    var threshold := SortUp(dists)[Limit(|dists|)];
    Coeffs((1.0 - alpha) / beta,
           SumB(dists, means, vars, threshold, |dists|) / beta,
           -SumC(dists, vars, threshold, |dists|) / beta)
  }

  /** With a positive rate parameter `beta` the constant coefficient is not
      positive, so maxCubicRoot's assertion holds. */
  lemma MleStartNonPositive(dists: seq<real>, means: seq<real>, vars: seq<real>, alpha: real, beta: real)
    requires |dists| == |means| == |vars| && 5 <= |dists| && beta > 0.0
    ensures MleCoeffs(dists, means, vars, alpha, beta).c <= 0.0
  {
    var threshold := SortUp(dists)[Limit(|dists|)];
    var sc := SumC(dists, vars, threshold, |dists|);
    SumCNonNegative(dists, vars, threshold, |dists|);
    assert sc / beta >= 0.0;
  }

  /** What mleGeneRate yields: the threshold read fails below five samples;
      otherwise the cubic with coefficients MleCoeffs is solved, unless its
      value at 0 is positive, and the answer is near a positive root: an exact
      root or an end of a final bisection bracket. */
  ghost predicate MleOutcome(dists: seq<real>, means: seq<real>, vars: seq<real>, alpha: real, beta: real,
                             r: Result<real>)
    requires |dists| == |means| == |vars| && beta != 0.0
  {
    && (|dists| < 5 <==> r == Err(ThresholdOutOfRange))
    && (|dists| >= 5 ==>
          var k := MleCoeffs(dists, means, vars, alpha, beta);
          && (k.c > 0.0 ==> r == Err(CubicStartPositive))
          && (k.c <= 0.0 ==> r.Ok? && NearRoot(k.a, k.b, k.c, r.value)))
  }

  /** With a positive `beta` and at least five samples mleGeneRate always
      answers, with a point near a positive root of its cubic: an exact root or
      an end of a final bisection bracket. */
  lemma MleSolves(dists: seq<real>, means: seq<real>, vars: seq<real>, alpha: real, beta: real, r: Result<real>)
    requires |dists| == |means| == |vars| && 5 <= |dists| && beta > 0.0
    requires MleOutcome(dists, means, vars, alpha, beta, r)
    ensures r.Ok?
    ensures var k := MleCoeffs(dists, means, vars, alpha, beta); NearRoot(k.a, k.b, k.c, r.value)
  {
    MleStartNonPositive(dists, means, vars, alpha, beta);
  }

  /** mleGeneRate over `count` samples given as depths, means and variances
      (sdevs[i]^2). */
  method MleGeneRate(dists: seq<real>, means: seq<real>, vars: seq<real>, alpha: real, beta: real)
    returns (r: Result<real>)
    requires |dists| == |means| == |vars| && beta != 0.0
    ensures MleOutcome(dists, means, vars, alpha, beta, r)
  {
    var count := |dists|;
    var a := (1.0 - alpha) / beta;

    var dists2 := SortUp(dists);
    var limit := count / 2 + 1;
    if limit < 4 {
      limit := 4;
    }
    if limit >= count {
      return Err(ThresholdOutOfRange);
    }
    var threshold := dists2[limit];

    var b, c := 0.0, 0.0;
    for i := 0 to count
      invariant b == SumB(dists, means, vars, threshold, i)
      invariant c == SumC(dists, vars, threshold, i)
    {
      if dists[i] > threshold && vars[i] > MinVar {
        b := b + MeanTerm(dists[i], means[i], vars[i]);
        c := c + DepthTerm(dists[i], vars[i]);
      }
    }
    b := b / beta;
    c := -c / beta;

    if c > 0.0 {
      return Err(CubicStartPositive);
    }
    var x := MaxCubicRoot(a, b, c);
    r := Ok(x);
  }

  // ---------------------------------------------------------------------------
  // estimateGeneRate_helper

  /** Whether the top subtree is free: the gene root reconciles to the
      species root and is a duplication. */
  function TopFree(r: Reconciled): bool
    requires Valid(r)
  {
    r.recon[r.gene.root] == r.species.root && r.events[r.gene.root] == Dup
  }

  /** The `free` flag in force at `x` once `x` itself is visited: it starts
      as `free0` at the root and a speciation clears it for the whole subtree. */
  function FreeAt(r: Reconciled, free0: bool, x: nat): bool
    requires Valid(r) && IsNode(r.gene, x)
    decreases Rank(r.gene)[x]
  {
    var g := r.gene;
    (if x == g.root then free0 else FreeAt(r, free0, g.parent[x])) && r.events[x] != Spec
  }

  /** The depth of `x`: its distance up to the root of its subtree, summed
      over the branches that hang below duplications, and -1 on free
      branches. */
  function DepthAt(r: Reconciled, free0: bool, x: nat): real
    requires Valid(r) && IsNode(r.gene, x)
    decreases Rank(r.gene)[x]
  {
    var g := r.gene;
    if x == g.root then 0.0
    else if FreeAt(r, free0, x) then -1.0
    else if r.events[g.parent[x]] == Dup then DepthAt(r, free0, g.parent[x]) + g.dist[x]
    else g.dist[x]
  }

  /** The species node at the top of the subtree that holds the branch
      above `x`. */
  function SrootAt(r: Reconciled, free0: bool, x: nat): nat
    requires Valid(r) && IsNode(r.gene, x)
    decreases Rank(r.gene)[x]
  {
    var g := r.gene;
    if x == g.root then r.recon[x]
    else if FreeAt(r, free0, x) || r.events[g.parent[x]] == Dup then SrootAt(r, free0, g.parent[x])
    else r.recon[g.parent[x]]
  }

  /** A speciation below a free duplication is no longer free, but its
      depth adds its branch to the parent's free marker -1. */
  lemma SpecBelowFreeDup(r: Reconciled, free0: bool, x: nat)
    requires Valid(r) && IsNode(r.gene, x) && x != r.gene.root
    requires r.events[x] == Spec && r.gene.parent[x] != r.gene.root
    requires r.events[r.gene.parent[x]] == Dup && FreeAt(r, free0, r.gene.parent[x])
    ensures !FreeAt(r, free0, x)
    ensures DepthAt(r, free0, x) == r.gene.dist[x] - 1.0
  {
  }

  /** The entries for the non-root node `x` in the depth and subtree-root
      lists `d` and `s` follow from those of its parent as the helper sets
      them. */
  ghost predicate DepthStep(r: Reconciled, free0: bool, d: seq<real>, s: seq<int>, x: nat)
    requires Valid(r) && IsNode(r.gene, x) && x != r.gene.root
    requires |d| == |s| == |r.gene.parent|
  {
    var p := r.gene.parent[x];
    if FreeAt(r, free0, x) then d[x] == -1.0 && s[x] == s[p]
    else if r.events[p] == Dup then d[x] == d[p] + r.gene.dist[x] && s[x] == s[p]
    else d[x] == r.gene.dist[x] && s[x] == r.recon[p]
  }

  /** DepthStep reads only the entries of a node and of its parent. */
  lemma DepthStepFrame(r: Reconciled, free0: bool, d: seq<real>, s: seq<int>, d': seq<real>, s': seq<int>, x: nat)
    requires Valid(r) && IsNode(r.gene, x) && x != r.gene.root
    requires |d| == |s| == |d'| == |s'| == |r.gene.parent|
    requires DepthStep(r, free0, d, s, x)
    requires d'[x] == d[x] && s'[x] == s[x]
    requires d'[r.gene.parent[x]] == d[r.gene.parent[x]] && s'[r.gene.parent[x]] == s[r.gene.parent[x]]
    ensures DepthStep(r, free0, d', s', x)
  {
  }

  /** Writing the entries of `x` computed from its parent's sets its step. */
  lemma SetStep(r: Reconciled, free0: bool, d: seq<real>, s: seq<int>, x: nat, dv: real, sv: int)
    requires Valid(r) && IsNode(r.gene, x) && x != r.gene.root
    requires |d| == |s| == |r.gene.parent|
    requires var p := r.gene.parent[x];
      if FreeAt(r, free0, x) then dv == -1.0 && sv == s[p]
      else if r.events[p] == Dup then dv == d[p] + r.gene.dist[x] && sv == s[p]
      else dv == r.gene.dist[x] && sv == r.recon[p]
    ensures DepthStep(r, free0, d[x := dv], s[x := sv], x)
  {
    assert Rank(r.gene)[x] == Rank(r.gene)[r.gene.parent[x]] + 1;
  }

  /** Given the root's entries, the local steps determine every entry: the
      lists hold DepthAt and SrootAt. */
  lemma {:induction false} LocalIsGlobal(r: Reconciled, free0: bool, d: seq<real>, s: seq<int>, x: nat)
    requires Valid(r) && IsNode(r.gene, x)
    requires |d| == |s| == |r.gene.parent|
    requires d[r.gene.root] == 0.0 && s[r.gene.root] == r.recon[r.gene.root]
    requires forall y :: IsNode(r.gene, y) && y != r.gene.root ==> DepthStep(r, free0, d, s, y)
    ensures d[x] == DepthAt(r, free0, x) && s[x] == SrootAt(r, free0, x)
    decreases Rank(r.gene)[x]
  {
    if x != r.gene.root {
      var p := r.gene.parent[x];
      LocalIsGlobal(r, free0, d, s, p);
      assert DepthStep(r, free0, d, s, x);
    }
  }

  /** `x` lies in the subtree of one of the first `i` children of `node`. */
  ghost predicate InChildSubtrees(g: Tree, node: nat, i: nat, x: nat)
    requires WellFormed(g) && IsNode(g, node) && IsNode(g, x) && i <= |g.children[node]|
  {
    exists k :: 0 <= k < i && AncestorOrSelf(g, g.children[node][k], x)
  }

  /** Every non-root node of the subtree of `node` has its local step. */
  ghost predicate SubtreeSet(r: Reconciled, free0: bool, node: nat, d: seq<real>, s: seq<int>)
    requires Valid(r) && IsNode(r.gene, node) && |d| == |s| == |r.gene.parent|
  {
    forall x :: IsNode(r.gene, x) && x != r.gene.root && AncestorOrSelf(r.gene, node, x) ==> DepthStep(r, free0, d, s, x)
  }

  /** Entries outside the subtree of `node`, and the root's, are as before. */
  ghost predicate SameOutside(g: Tree, node: nat, d: seq<real>, s: seq<int>, d0: seq<real>, s0: seq<int>)
    requires WellFormed(g) && IsNode(g, node) && |d| == |s| == |d0| == |s0| == |g.parent|
  {
    forall x :: IsNode(g, x) && (x == g.root || !AncestorOrSelf(g, node, x)) ==> d[x] == d0[x] && s[x] == s0[x]
  }

  /** The subtrees of the first `i` children of `node` have their local steps. */
  ghost predicate ChildrenSet(r: Reconciled, free0: bool, node: nat, i: nat, d: seq<real>, s: seq<int>)
    requires Valid(r) && IsNode(r.gene, node) && i <= |r.gene.children[node]| && |d| == |s| == |r.gene.parent|
  {
    forall x :: IsNode(r.gene, x) && InChildSubtrees(r.gene, node, i, x) ==> x != r.gene.root && DepthStep(r, free0, d, s, x)
  }

  /** Entries outside the subtrees of the first `i` children are as before. */
  ghost predicate ChildrenOutside(g: Tree, node: nat, i: nat, d: seq<real>, s: seq<int>, d0: seq<real>, s0: seq<int>)
    requires WellFormed(g) && IsNode(g, node) && i <= |g.children[node]| && |d| == |s| == |d0| == |s0| == |g.parent|
  {
    forall x :: IsNode(g, x) && !InChildSubtrees(g, node, i, x) ==> d[x] == d0[x] && s[x] == s0[x]
  }

  /** A node is not in the subtree of any of its children. */
  lemma NotBelowChild(g: Tree, node: nat, k: nat)
    requires WellFormed(g) && IsNode(g, node) && k < |g.children[node]|
    ensures !AncestorOrSelf(g, g.children[node][k], node)
  {
    ChildRank(g, node, k);
    if AncestorOrSelf(g, g.children[node][k], node) {
      AncestorRank(g, g.children[node][k], node);
    }
  }

  /** Nodes in the subtree of a child are in the subtree of the parent, and
      are not the root. */
  lemma BelowChild(g: Tree, node: nat, k: nat, x: nat)
    requires WellFormed(g) && IsNode(g, node) && k < |g.children[node]| && IsNode(g, x)
    requires AncestorOrSelf(g, g.children[node][k], x)
    ensures AncestorOrSelf(g, node, x) && x != g.root
    ensures x == g.children[node][k] || AncestorOrSelf(g, g.children[node][k], g.parent[x])
  {
    var c := g.children[node][k];
    ChildRank(g, node, k);
    assert AncestorOrSelf(g, node, c);
    AncestorTransitive(g, node, c, x);
    AncestorRank(g, c, x);
  }

  /** The subtrees of two different children do not meet. */
  lemma ChildSubtreesDisjoint(g: Tree, node: nat, k: nat, i: nat, x: nat)
    requires WellFormed(g) && IsNode(g, node) && k < |g.children[node]| && i < |g.children[node]| && k != i
    requires IsNode(g, x) && AncestorOrSelf(g, g.children[node][k], x)
    ensures !AncestorOrSelf(g, g.children[node][i], x)
  {
    ChildRank(g, node, k);
    ChildRank(g, node, i);
    if AncestorOrSelf(g, g.children[node][i], x) {
      SameRankAncestors(g, g.children[node][k], g.children[node][i], x);
    }
  }

  /** Every node strictly below `node` is in the subtree of one of its children. */
  lemma {:induction false} CoveredByChildren(g: Tree, node: nat, x: nat)
    requires WellFormed(g) && IsNode(g, node) && IsNode(g, x)
    requires AncestorOrSelf(g, node, x) && x != node
    ensures InChildSubtrees(g, node, |g.children[node]|, x)
    decreases Rank(g)[x]
  {
    var p := g.parent[x];
    if p == node {
      assert x in g.children[node];
      var k :| 0 <= k < |g.children[node]| && g.children[node][k] == x;
      assert AncestorOrSelf(g, g.children[node][k], x);
    } else {
      CoveredByChildren(g, node, p);
      var k :| 0 <= k < |g.children[node]| && AncestorOrSelf(g, g.children[node][k], p);
      assert AncestorOrSelf(g, g.children[node][k], x);
    }
  }

  /** One more child processed: its subtree is set and nothing else moved. */
  lemma ChildDone(r: Reconciled, free0: bool, node: nat, i: nat,
                  dPre: seq<real>, sPre: seq<int>, dNew: seq<real>, sNew: seq<int>, d0: seq<real>, s0: seq<int>)
    requires Valid(r) && IsNode(r.gene, node) && i < |r.gene.children[node]|
    requires |dPre| == |sPre| == |dNew| == |sNew| == |d0| == |s0| == |r.gene.parent|
    requires ChildrenSet(r, free0, node, i, dPre, sPre) && ChildrenOutside(r.gene, node, i, dPre, sPre, d0, s0)
    requires IsNode(r.gene, r.gene.children[node][i])
    requires SubtreeSet(r, free0, r.gene.children[node][i], dNew, sNew)
    requires SameOutside(r.gene, r.gene.children[node][i], dNew, sNew, dPre, sPre)
    ensures ChildrenSet(r, free0, node, i + 1, dNew, sNew) && ChildrenOutside(r.gene, node, i + 1, dNew, sNew, d0, s0)
  {
    var g := r.gene;
    var c := g.children[node][i];
    forall x | IsNode(g, x) && InChildSubtrees(g, node, i + 1, x)
      ensures x != g.root && DepthStep(r, free0, dNew, sNew, x)
    {
      var k :| 0 <= k < i + 1 && AncestorOrSelf(g, g.children[node][k], x);
      BelowChild(g, node, k, x);
      if k < i {
        assert InChildSubtrees(g, node, i, x);
        var p := g.parent[x];
        ChildSubtreesDisjoint(g, node, k, i, x);
        if x == g.children[node][k] {
          ChildRank(g, node, k);
          NotBelowChild(g, node, i);
        } else {
          ChildSubtreesDisjoint(g, node, k, i, p);
        }
        DepthStepFrame(r, free0, dPre, sPre, dNew, sNew, x);
      }
    }
    forall x | IsNode(g, x) && !InChildSubtrees(g, node, i + 1, x)
      ensures dNew[x] == d0[x] && sNew[x] == s0[x]
    {
      assert !AncestorOrSelf(g, c, x);
      assert !InChildSubtrees(g, node, i, x);
    }
  }

  /** All children processed: the whole subtree of `node` is set and the
      rest is as before the call. */
  lemma ChildrenDone(r: Reconciled, free0: bool, node: nat,
                     dOld: seq<real>, sOld: seq<int>, d0: seq<real>, s0: seq<int>, dFin: seq<real>, sFin: seq<int>)
    requires Valid(r) && IsNode(r.gene, node)
    requires |dOld| == |sOld| == |d0| == |s0| == |dFin| == |sFin| == |r.gene.parent|
    requires forall x :: 0 <= x < |d0| && x != node ==> d0[x] == dOld[x] && s0[x] == sOld[x]
    requires node == r.gene.root ==> d0 == dOld && s0 == sOld
    requires node != r.gene.root ==> DepthStep(r, free0, d0, s0, node)
    requires ChildrenSet(r, free0, node, |r.gene.children[node]|, dFin, sFin)
    requires ChildrenOutside(r.gene, node, |r.gene.children[node]|, dFin, sFin, d0, s0)
    ensures SubtreeSet(r, free0, node, dFin, sFin) && SameOutside(r.gene, node, dFin, sFin, dOld, sOld)
  {
    var g := r.gene;
    var n := |g.children[node]|;
    forall x | IsNode(g, x) && x != g.root && AncestorOrSelf(g, node, x)
      ensures DepthStep(r, free0, dFin, sFin, x)
    {
      if x == node {
        var p := g.parent[node];
        NotInChildSubtrees(g, node, node);
        assert Rank(g)[node] == Rank(g)[p] + 1;
        NotInChildSubtrees(g, node, p);
        DepthStepFrame(r, free0, d0, s0, dFin, sFin, x);
      } else {
        CoveredByChildren(g, node, x);
      }
    }
    forall x | IsNode(g, x) && (x == g.root || !AncestorOrSelf(g, node, x))
      ensures dFin[x] == dOld[x] && sFin[x] == sOld[x]
    {
      if AncestorOrSelf(g, node, x) {
        assert x == g.root;
        AncestorRank(g, node, x);
      }
      NotInChildSubtrees(g, node, x);
    }
  }

  /** Nodes no deeper than `node`, and nodes outside its subtree, are in no
      child's subtree. */
  lemma NotInChildSubtrees(g: Tree, node: nat, x: nat)
    requires WellFormed(g) && IsNode(g, node) && IsNode(g, x)
    requires Rank(g)[x] <= Rank(g)[node] || !AncestorOrSelf(g, node, x)
    ensures !InChildSubtrees(g, node, |g.children[node]|, x)
  {
    if InChildSubtrees(g, node, |g.children[node]|, x) {
      var k :| 0 <= k < |g.children[node]| && AncestorOrSelf(g, g.children[node][k], x);
      BelowChild(g, node, k, x);
      ChildRank(g, node, k);
      AncestorRank(g, g.children[node][k], x);
    }
  }

  /** estimateGeneRate_helper: visiting the subtree of `node` in preorder,
      set the depth and subtree root of every node below the gene root from
      those of its parent.  `free0` is the flag passed at the gene root. */
  method EstimateGeneRateHelper(r: Reconciled, node: nat, depths: array<real>, sroots: array<int>,
                                free: bool, ghost free0: bool)
    requires Valid(r) && IsNode(r.gene, node)
    requires depths.Length == sroots.Length == |r.gene.parent|
    requires free == if node == r.gene.root then free0 else FreeAt(r, free0, r.gene.parent[node])
    modifies depths, sroots
    ensures SubtreeSet(r, free0, node, depths[..], sroots[..])
    ensures SameOutside(r.gene, node, depths[..], sroots[..], old(depths[..]), old(sroots[..]))
    decreases |r.gene.parent| - Rank(r.gene)[node]
  {
    var g := r.gene;
    var f := free;
    if r.events[node] == Spec {
      f := false;
    }
    assert f == FreeAt(r, free0, node);
    ghost var dOld, sOld := depths[..], sroots[..];
    if node != g.root {
      var parent := g.parent[node];
      if f {
        // mark free branches with -1
        depths[node] := -1.0;
        sroots[node] := sroots[parent];
      } else if r.events[parent] == Dup {
        depths[node] := depths[parent] + g.dist[node];
        sroots[node] := sroots[parent];
      } else {
        depths[node] := g.dist[node];
        sroots[node] := r.recon[parent];
      }
      SetStep(r, free0, dOld, sOld, node, depths[node], sroots[node]);
      assert depths[..] == dOld[node := depths[node]] && sroots[..] == sOld[node := sroots[node]];
    }
    ghost var d0, s0 := depths[..], sroots[..];
    for i := 0 to |g.children[node]|
      invariant depths.Length == sroots.Length == |g.parent|
      invariant ChildrenSet(r, free0, node, i, depths[..], sroots[..])
      invariant ChildrenOutside(g, node, i, depths[..], sroots[..], d0, s0)
    {
      ChildRank(g, node, i);
      ghost var dPre, sPre := depths[..], sroots[..];
      EstimateGeneRateHelper(r, g.children[node][i], depths, sroots, f, free0);
      ChildDone(r, free0, node, i, dPre, sPre, depths[..], sroots[..], d0, s0);
    }
    ChildrenDone(r, free0, node, dOld, sOld, d0, s0, depths[..], sroots[..]);
  }

  // ---------------------------------------------------------------------------
  // estimateGeneRate

  /** estimateGeneRate's assertion |s2| > 1e-7 on a path's summed variance. */
  const MinPathVar: real := 0.0000001

  /** The sum of the weights `w` of the species nodes on `path`. */
  function PathSum(w: seq<real>, path: seq<nat>): real
    requires forall k :: 0 <= k < |path| ==> path[k] < |w|
  {
    if path == [] then 0.0 else w[path[0]] + PathSum(w, path[1..])
  }

  /** The sum of the squared weights `w` of the species nodes on `path`. */
  function PathSquares(w: seq<real>, path: seq<nat>): real
    requires forall k :: 0 <= k < |path| ==> path[k] < |w|
  {
    if path == [] then 0.0 else Square(w[path[0]]) + PathSquares(w, path[1..])
  }

  function Square(v: real): (q: real)
    ensures q >= 0.0
  {
    v * v
  }

  /** A sum of squares is never negative. */
  lemma {:induction false} PathSquaresNonNegative(w: seq<real>, path: seq<nat>)
    requires forall k :: 0 <= k < |path| ==> path[k] < |w|
    ensures PathSquares(w, path) >= 0.0
  {
    if path != [] {
      PathSquaresNonNegative(w, path[1..]);
    }
  }

  /** A subtree leaf whose branch crosses species branches: not a
      duplication, not the gene root, reconciled below its subtree's species
      root, and not on a free branch. */
  predicate Sampled(r: Reconciled, i: nat)
    requires Valid(r) && IsNode(r.gene, i)
  {
    var free0 := TopFree(r);
    && r.events[i] != Dup && i != r.gene.root
    && r.recon[i] != SrootAt(r, free0, i) && DepthAt(r, free0, i) != -1.0
  }

  /** The species nodes between the reconciliation of `i` and its subtree's
      species root (or the species root), lowest first. */
  function SamplePath(r: Reconciled, i: nat): (path: seq<nat>)
    requires Valid(r) && IsNode(r.gene, i)
    ensures forall k :: 0 <= k < |path| ==> path[k] < |r.species.parent|
  {
    UpPath(r.species, r.recon[i], SrootAt(r, TopFree(r), i))
  }

  /** The depths of the sampled nodes among the first `n`, in node order. */
  function SampleDepths(r: Reconciled, n: nat): (ds: seq<real>)
    requires Valid(r) && n <= |r.gene.parent|
  {
    if n == 0 then []
    else SampleDepths(r, n - 1) + (if Sampled(r, n - 1) then [DepthAt(r, TopFree(r), n - 1)] else [])
  }

  /** The summed mean rates along the sampled nodes' species paths. */
  function SampleMeans(r: Reconciled, p: RateParams, n: nat): (ms: seq<real>)
    requires Valid(r) && ParamsFit(p, r.species) && n <= |r.gene.parent|
  {
    if n == 0 then []
    else SampleMeans(r, p, n - 1) + (if Sampled(r, n - 1) then [PathSum(p.spAlpha, SamplePath(r, n - 1))] else [])
  }

  /** The summed rate variances along the sampled nodes' species paths. */
  function SampleVars(r: Reconciled, p: RateParams, n: nat): (vs: seq<real>)
    requires Valid(r) && ParamsFit(p, r.species) && n <= |r.gene.parent|
  {
    if n == 0 then []
    else SampleVars(r, p, n - 1) + (if Sampled(r, n - 1) then [PathSquares(p.spBeta, SamplePath(r, n - 1))] else [])
  }

  /** The three sample lists have one entry per sampled node. */
  lemma {:induction false} SampleLengths(r: Reconciled, p: RateParams, n: nat)
    requires Valid(r) && ParamsFit(p, r.species) && n <= |r.gene.parent|
    ensures |SampleDepths(r, n)| == |SampleMeans(r, p, n)| == |SampleVars(r, p, n)|
  {
    if n > 0 {
      SampleLengths(r, p, n - 1);
    }
  }

  /** Every variance passes estimateGeneRate's assertion. */
  ghost predicate Flawless(vars: seq<real>) {
    forall k :: 0 <= k < |vars| ==> Abs(vars[k]) > MinPathVar
  }

  lemma FlawlessAppend(vars: seq<real>, v: real)
    requires Flawless(vars) && Abs(v) > MinPathVar
    ensures Flawless(vars + [v])
  {
  }

  /** Path variances are sums of squares. */
  lemma {:induction false} SampleVarsNonNegative(r: Reconciled, p: RateParams, n: nat)
    requires Valid(r) && ParamsFit(p, r.species) && n <= |r.gene.parent|
    ensures forall k :: 0 <= k < |SampleVars(r, p, n)| ==> SampleVars(r, p, n)[k] >= 0.0
  {
    if n > 0 {
      SampleVarsNonNegative(r, p, n - 1);
      if Sampled(r, n - 1) {
        PathSquaresNonNegative(p.spBeta, SamplePath(r, n - 1));
      }
    }
  }

  /** mleGeneRate's test sdevs[i] > 0.0001 never rejects a sample that
      passed estimateGeneRate's assertion: only the depth threshold selects. */
  lemma SdevFilterInactive(r: Reconciled, p: RateParams, n: nat)
    requires Valid(r) && ParamsFit(p, r.species) && n <= |r.gene.parent|
    requires Flawless(SampleVars(r, p, n))
    ensures forall k, d, threshold :: 0 <= k < |SampleVars(r, p, n)| ==>
      (Selected(d, SampleVars(r, p, n)[k], threshold) <==> d > threshold)
  {
    SampleVarsNonNegative(r, p, n);
  }

  /** The variances of the first `i` nodes lead those of the first `n`. */
  lemma {:induction false} SampleVarsPrefix(r: Reconciled, p: RateParams, i: nat, n: nat)
    requires Valid(r) && ParamsFit(p, r.species) && i <= n <= |r.gene.parent|
    ensures |SampleVars(r, p, i)| <= |SampleVars(r, p, n)|
    ensures SampleVars(r, p, n)[..|SampleVars(r, p, i)|] == SampleVars(r, p, i)
    decreases n
  {
    if i < n {
      SampleVarsPrefix(r, p, i, n - 1);
      var a, b := SampleVars(r, p, i), SampleVars(r, p, n - 1);
      assert SampleVars(r, p, n)[..|b|] == b;
      assert b[..|a|] == a;
    }
  }

  /** Every node is in the subtree of the gene root. */
  lemma {:induction false} RootAbove(g: Tree, x: nat)
    requires WellFormed(g) && IsNode(g, x)
    ensures AncestorOrSelf(g, g.root, x)
    decreases Rank(g)[x]
  {
    if x != g.root {
      RootAbove(g, g.parent[x]);
    }
  }

  /** After the walk from the gene root, the lists hold DepthAt and SrootAt
      at every node. */
  lemma WalkComplete(r: Reconciled, free0: bool, d: seq<real>, s: seq<int>)
    requires Valid(r) && |d| == |s| == |r.gene.parent|
    requires d[r.gene.root] == 0.0 && s[r.gene.root] == r.recon[r.gene.root]
    requires SubtreeSet(r, free0, r.gene.root, d, s)
    ensures forall x :: 0 <= x < |d| ==> d[x] == DepthAt(r, free0, x) && s[x] == SrootAt(r, free0, x)
  {
    forall y | IsNode(r.gene, y) && y != r.gene.root
      ensures DepthStep(r, free0, d, s, y)
    {
      RootAbove(r.gene, y);
    }
    forall x | 0 <= x < |d|
      ensures d[x] == DepthAt(r, free0, x) && s[x] == SrootAt(r, free0, x)
    {
      LocalIsGlobal(r, free0, d, s, x);
    }
  }

  /** The walk in estimateGeneRate from a species node up to `stop` or the
      species root: the summed means `mu` and squared deviations `sigma` of
      the species branches crossed. */
  method SumPath(s: Tree, from: nat, stop: int, mu: seq<real>, sigma: seq<real>) returns (u: real, s2: real)
    requires WellFormed(s) && IsNode(s, from) && |mu| == |sigma| == |s.parent|
    ensures u == PathSum(mu, UpPath(s, from, stop)) && s2 == PathSquares(sigma, UpPath(s, from, stop))
  {
    u, s2 := 0.0, 0.0;
    var snode := from;
    while snode != stop && snode != s.root
      invariant IsNode(s, snode)
      invariant u + PathSum(mu, UpPath(s, snode, stop)) == PathSum(mu, UpPath(s, from, stop))
      invariant s2 + PathSquares(sigma, UpPath(s, snode, stop)) == PathSquares(sigma, UpPath(s, from, stop))
      decreases Rank(s)[snode]
    {
      PathStep(s, snode, stop, mu, sigma);
      u := u + mu[snode];
      s2 := s2 + Square(sigma[snode]);
      snode := s.parent[snode];
    }
    UpEnd(s, snode, stop);
  }

  /** A species node that the walk crosses adds its mean and squared deviation. */
  lemma PathStep(s: Tree, x: nat, stop: int, mu: seq<real>, sigma: seq<real>)
    requires WellFormed(s) && IsNode(s, x) && x != stop && x != s.root && |mu| == |sigma| == |s.parent|
    ensures IsNode(s, s.parent[x]) && Rank(s)[s.parent[x]] < Rank(s)[x]
    ensures PathSum(mu, UpPath(s, x, stop)) == mu[x] + PathSum(mu, UpPath(s, s.parent[x], stop))
    ensures PathSquares(sigma, UpPath(s, x, stop)) == Square(sigma[x]) + PathSquares(sigma, UpPath(s, s.parent[x], stop))
  {
    UpStep(s, x, stop);
    var q := UpPath(s, s.parent[x], stop);
    SumCons(mu, x, q);
    SquaresCons(sigma, x, q);
  }

  lemma SumCons(w: seq<real>, x: nat, q: seq<nat>)
    requires x < |w| && forall k :: 0 <= k < |q| ==> q[k] < |w|
    ensures PathSum(w, [x] + q) == w[x] + PathSum(w, q)
  {
    assert ([x] + q)[1..] == q;
  }

  lemma SquaresCons(w: seq<real>, x: nat, q: seq<nat>)
    requires x < |w| && forall k :: 0 <= k < |q| ==> q[k] < |w|
    ensures PathSquares(w, [x] + q) == Square(w[x]) + PathSquares(w, q)
  {
    assert ([x] + q)[1..] == q;
  }

  /** One node more: the sample lists grow by the node's sample exactly when
      the loop's test on the depth and subtree-root lists passes. */
  lemma SampleStep(r: Reconciled, p: RateParams, i: nat, d: seq<real>, s: seq<int>)
    requires Valid(r) && ParamsFit(p, r.species) && i < |r.gene.parent| == |d| == |s|
    requires forall x :: 0 <= x < |d| ==> d[x] == DepthAt(r, TopFree(r), x) && s[x] == SrootAt(r, TopFree(r), x)
    ensures var taken := r.events[i] != Dup && i != r.gene.root && r.recon[i] != s[i] && d[i] != -1.0;
      var path := UpPath(r.species, r.recon[i], s[i]);
      && SampleDepths(r, i + 1) == SampleDepths(r, i) + (if taken then [d[i]] else [])
      && SampleMeans(r, p, i + 1) == SampleMeans(r, p, i) + (if taken then [PathSum(p.spAlpha, path)] else [])
      && SampleVars(r, p, i + 1) == SampleVars(r, p, i) + (if taken then [PathSquares(p.spBeta, path)] else [])
  {
    assert d[i] == DepthAt(r, TopFree(r), i) && s[i] == SrootAt(r, TopFree(r), i);
  }

  /** What estimateGeneRate yields from the sample lists: an error when a
      path variance fails the assertion; otherwise 0 with no sample, and
      mleGeneRate's answer on the samples. */
  ghost predicate EstimateOutcome(r: Reconciled, p: RateParams, res: Result<real>)
    requires Valid(r) && ParamsFit(p, r.species) && p.geneBeta != 0.0
  {
    var n := |r.gene.parent|;
    var dists, means, vars := SampleDepths(r, n), SampleMeans(r, p, n), SampleVars(r, p, n);
    && (res == Err(ZeroVariance) <==> !Flawless(vars))
    && (Flawless(vars) && dists == [] ==> res == Ok(0.0))
    && (Flawless(vars) && dists != [] ==>
          |dists| == |means| == |vars| && MleOutcome(dists, means, vars, p.geneAlpha, p.geneBeta, res))
  }

  /** A sample whose variance fails the assertion makes the whole list fail it. */
  lemma ZeroVarianceOutcome(r: Reconciled, p: RateParams, i: nat, s2: real)
    requires Valid(r) && ParamsFit(p, r.species) && p.geneBeta != 0.0 && i < |r.gene.parent|
    requires SampleVars(r, p, i + 1) == SampleVars(r, p, i) + [s2] && Abs(s2) <= MinPathVar
    ensures EstimateOutcome(r, p, Err(ZeroVariance))
  {
    var n := |r.gene.parent|;
    SampleVarsPrefix(r, p, i + 1, n);
    assert SampleVars(r, p, n)[|SampleVars(r, p, i)|] == s2;
  }

  /** The first part of estimateGeneRate: set the root's depth to 0 and its
      subtree root to its own species, and let the helper label the rest,
      starting with the top subtree's free flag. */
  method LabelDepths(r: Reconciled) returns (depths: array<real>, sroots: array<int>)
    requires Valid(r)
    ensures fresh(depths) && fresh(sroots)
    ensures depths.Length == sroots.Length == |r.gene.parent|
    ensures forall x :: 0 <= x < depths.Length ==>
      depths[x] == DepthAt(r, TopFree(r), x) && sroots[x] == SrootAt(r, TopFree(r), x)
  {
    var g, s := r.gene, r.species;
    depths := new real[|g.parent|];
    sroots := new int[|g.parent|];

    depths[g.root] := 0.0;
    sroots[g.root] := r.recon[g.root];

    // determine if top subtree is free
    var free := r.recon[g.root] == s.root && r.events[g.root] == Dup;
    EstimateGeneRateHelper(r, g.root, depths, sroots, free, free);
    WalkComplete(r, free, depths[..], sroots[..]);
  }

  /** estimateGeneRate: label every node with its depth and subtree root,
      collect one sample per subtree leaf whose branch crosses species
      branches (its depth and the summed mean and variance of the species
      rates on its path), and estimate the gene rate from them by
      mleGeneRate; with no sample the estimate is 0. */
  method EstimateGeneRate(r: Reconciled, p: RateParams) returns (res: Result<real>)
    requires Valid(r) && ParamsFit(p, r.species) && p.geneBeta != 0.0
    ensures EstimateOutcome(r, p, res)
  {
    var g, s := r.gene, r.species;
    var n := |g.parent|;
    var depths, sroots := LabelDepths(r);
    ghost var D, S := depths[..], sroots[..];
    assert forall x :: 0 <= x < |D| ==> D[x] == DepthAt(r, TopFree(r), x) && S[x] == SrootAt(r, TopFree(r), x);

    var mu, sigma := p.spAlpha, p.spBeta;
    var dists, means, vars := [], [], [];
    for i := 0 to n
      invariant depths[..] == D && sroots[..] == S
      invariant dists == SampleDepths(r, i) && means == SampleMeans(r, p, i) && vars == SampleVars(r, p, i)
      invariant Flawless(vars)
    {
      SampleStep(r, p, i, D, S);
      if r.events[i] != Dup && i != g.root {
        // we are at a subtree leaf
        var u, s2 := 0.0, 0.0;
        var snode := r.recon[i];
        if snode != sroots[i] && depths[i] != -1.0 {
          u, s2 := SumPath(s, snode, sroots[i], mu, sigma);
          if !(Abs(s2) > MinPathVar) {
            ZeroVarianceOutcome(r, p, i, s2);
            return Err(ZeroVariance);
          }
          FlawlessAppend(vars, s2);
          dists := dists + [depths[i]];
          means := means + [u];
          vars := vars + [s2];
        }
      }
    }
    SampleLengths(r, p, n);
    if |dists| > 0 {
      res := MleGeneRate(dists, means, vars, p.geneAlpha, p.geneBeta);
    } else {
      res := Ok(0.0);  // catch unusual case
    }
    assert Flawless(SampleVars(r, p, n)) && res != Err(ZeroVariance);
  }
}
