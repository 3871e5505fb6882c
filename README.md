# Branch-length prior of SPIMAP: the reconciliation and bookkeeping layer

This project models the deterministic core of the relaxed-clock branch-length
prior in `src/branch_prior.cpp`, and proves properties of that model. In the
prior, every gene-tree branch is laid over the species tree through the
reconciliation `recon` and the node events `events` (gene, speciation,
duplication). The branch's length is then scored as a sum of gamma-distributed
pieces, one piece per species branch it covers.

The model covers six parts:

- **Branch decomposition** (`reconciliation.dfy`).
  - `reconBranch` classifies the start and end of a gene branch as
    `FRAC_NONE`, `FRAC_DIFF`, `FRAC_PARENT` or `FRAC_NODE`.
  - It also collects the species branches the gene branch crosses completely,
    by walking up the species tree.
  - `getReconTimes` turns that decomposition and the duplication midpoints
    into a vector of elapsed times.
  - `determineFreeBranches` flags the free branches and picks the unfolding
    branch.
- **Subtrees** (`subtrees.dfy`).
  - `getSubtree` lists a duplication subtree in preorder.
  - `getSpecSubtrees` lists the roots of the speciation subtrees.
- **Midpoints** (`midpoints.dfy`). `setRandomMidpoints` places each
  duplication along its species branch. The birth-death waiting-time sampler
  is a function parameter of the model.
- **Branch probability** (`branch_prob.dfy`, `compaction.dfy`).
  - `branchprob` assembles the parallel `gs_alpha`/`gs_beta` arrays.
  - It then compacts them in place twice by swap-with-last: once to drop
    infinite or NaN rates, once to drop negligible means.
  - It scores the survivors.
  - `subtreeprior_cond` sums `branchprob` over a subtree.
- **Gene-rate estimator** (`gene_rate.dfy`).
  - `estimateGeneRate_helper` labels every node with its depth and subtree
    root.
  - `estimateGeneRate` collects one sample per subtree leaf.
  - `mleGeneRate` sorts the depths, applies the threshold filter and builds a
    cubic.
  - `maxCubicRoot` solves the cubic by doubling, then bisection.
- **Shared definitions** (`floats.dfy`, `trees.dfy`).
  - Floats are a finite exact real, `+inf`, `-inf` or NaN, with IEEE 754
    behaviour on the special values. Zero-length species branches make rates
    infinite and midpoints undefined, and the filters in `branchprob` exist
    to absorb exactly those values.
  - Trees are flattened as in the source: node names are array indices, with a
    parent index (-1 at the root), ordered child lists and branch lengths.
    Every tree carries a depth labelling, which proves that each walk up the
    parent links ends.

The routines that fill arrays step by step are methods over arrays or over the
array fields of the `ReconParams` class:

- `reconBranch`, `determineFreeBranches` and `setRandomMidpoints`;
- the two compaction passes of `branchprob`;
- `estimateGeneRate_helper`.

Each such method is proved against a specification function
(`ReconOf`, `IsFree`, `MidpointsAfter`, `Compact`, `DepthAt`/`SrootAt`). The
properties the source relies on are proved about those functions as lemmas.

Two assertions of the source become error results of `GeneRate.Result`:

- `maxCubicRoot`'s `f(0) <= 0` becomes `CubicStartPositive`;
- `estimateGeneRate`'s `|s2| > 1e-7` becomes `ZeroVariance`.

`mleGeneRate` reads `dists2[limit]` with `limit >= 4`, and its caller only
guards `count > 0`. The model returns `ThresholdOutOfRange` for fewer than five
samples, where the source reads past the end of the array.

## Model

| member | source | states |
|---|---|---|
| Trees.UpPath | src/branch_prior.cpp:518-521 | The species walk never lists the stop node or the species root, starts at its first node, and halts at the first node that is the stop node or the root. |
| Trees.UpPathLinked | src/branch_prior.cpp:518-521 | Each species node on the walk is followed by its parent, so the crossed branches form an upward path. |
| Trees.WalkEndsAtAncestor | src/branch_prior.cpp:518-521 | When the stop node is an ancestor of the start, the walk ends exactly at the stop node. |
| Reconciliation.ReconBranch | src/branch_prior.cpp:452-530 | Writes the start fraction and species, the end fraction and species, and the crossed species path of `node`. These are the values of `ReconOf`: same species as the parent gives FRAC_DIFF for a duplication and FRAC_PARENT otherwise, no end piece and no path; otherwise FRAC_PARENT exactly when the parent is a duplication, FRAC_NODE exactly when the node is one, and the upward walk. Every other node's entries stay unchanged. |
| Reconciliation.WalkUp | src/branch_prior.cpp:518-521 | The loop appends exactly the species nodes of the upward walk from `from` to `stop` or the species root. |
| Reconciliation.CrossingPathEndsBelowParentSpecies | src/branch_prior.cpp:499-521 | When the parent's species node is an ancestor of the node's, the crossed path ends right below the parent's species node. |
| Reconciliation.ReconOfIsTimeable | src/branch_prior.cpp:462-495 | Every decomposition reconBranch produces has valid species indices and admissible fractions, and contributes one start time exactly when its start is not FRAC_NONE and one end time exactly when its end is not FRAC_NONE. |
| Reconciliation.ReconTimes | src/branch_prior.cpp:543-579 | The time vector has length [start != NONE] + the number of crossed species + [end != NONE]. |
| Reconciliation.MidTimesAligned | src/branch_prior.cpp:563-566 | The middle entries of the time vector are the lengths of the crossed species branches, in path order, right after the start time. |
| Reconciliation.GetReconTimes | src/branch_prior.cpp:536-580 | Returns the time vector `ReconTimes` of the node's recorded decomposition, midpoints and free flag. |
| Reconciliation.DetermineFreeBranches | src/branch_prior.cpp:295-344 | `freebranches[i]` holds exactly when node i has a parent, that parent is a duplication reconciled to the species root, and node i is not reconciled to the species root. Without an unfolding root, `unfold` is -1 and `unfolddist` is 0. Otherwise child 0 unfolds when it is not at the species root, else child 1, and `unfolddist` is the other child's length divided by `generate`. |
| Reconciliation.FreeBranchSpansSpeciesRoot | src/branch_prior.cpp:551-556 | A free branch starts with FRAC_PARENT on the species root, and its first time is the whole length of the species root's branch, because the parent's midpoint is ignored. |
| Subtrees.GetSubtree | src/branch_prior.cpp:709-718 | Appends the preorder list of `node` to the list it is given: the node, then, for a duplication, its children's lists in order. |
| Subtrees.SubtreeMembers | src/branch_prior.cpp:709-718 | A node is listed exactly when it is the start node, or its parent is a listed duplication. The recursion descends only through duplications. |
| Subtrees.PreorderDistinct | src/branch_prior.cpp:709-718 | No node is listed twice. |
| Subtrees.PreorderOrdered | src/branch_prior.cpp:709-718 | The start node is listed first, and every later node is listed after its parent. |
| Subtrees.SubtreeOrder | src/branch_prior.cpp:360-389 | The list is distinct, and every node whose parent is listed comes after its parent, which is the order setRandomMidpoints needs. |
| Subtrees.GetSpecSubtrees | src/branch_prior.cpp:694-705 | Lists exactly the first two children of every speciation, plus the tree root when it is not a speciation, each once. |
| Subtrees.SubtreesPartition | src/branch_prior.cpp:694-718 | With binary speciations and leaf genes, every node except a speciation at the gene root lies in the subtree of exactly one listed root. |
| Midpoints.SetRandomMidpoints | src/branch_prior.cpp:349-391 | The midpoints after the loop are those of `MidpointsAfter`. A duplication is placed at the last point plus esp times the remainder plus the sampled wait divided by the branch length. The last point is the parent's midpoint on the same species branch, else 0. Every other node gets 1.0. |
| Midpoints.MidpointsSettled | src/branch_prior.cpp:360-389 | On a distinct, parent-first list, every listed node ends with the value computed from its parent's final midpoint, and unlisted nodes keep theirs. |
| Midpoints.MidpointAtReadsLastPoint | src/branch_prior.cpp:363-389 | A step reads the midpoint array only through the node's last point. |
| Midpoints.MidpointsOrdered | src/branch_prior.cpp:360-389 | When the sampler stays within its limit and duplications sit on branches of positive length, every midpoint lies in [0, 1], and every duplication lies at least esp times the remainder after its last point. |
| Midpoints.DupMidpointBounds | src/branch_prior.cpp:376-383 | With a waiting time within the sampler's limit, a duplication's midpoint is at least the last point plus the skipped fraction and at most 1. |
| Compaction.CompactCount | src/branch_prior.cpp:629-637 | Swap-with-last compaction keeps the passed prefix and, from the scan position on, keeps every accepted entry as often as it occurs. |
| Compaction.CompactKeeps | src/branch_prior.cpp:629-637 | Compaction keeps its accepted prefix in place, and every entry it keeps is accepted. |
| Compaction.FilterCount | src/branch_prior.cpp:629-652 | The accepted entries hold each value as often as the input does when it is accepted, and not at all otherwise. |
| BranchProb.Compacted | src/branch_prior.cpp:629-652 | The survivors of compaction are exactly the accepted terms as a multiset, a sub-multiset of the input, and each survivor is accepted. |
| BranchProb.TermsAlignWithTimes | src/branch_prior.cpp:597-625 | The assembly builds exactly as many terms as there are times (`j == nparams`), and the middle terms use the crossed species in path order. |
| BranchProb.AssembleTerms | src/branch_prior.cpp:600-625 | The fresh parallel arrays, read together, are the terms of the branch's pieces. |
| BranchProb.DropInfOrNaN | src/branch_prior.cpp:628-637 | The first in-place pass leaves the swap-with-last compaction of the terms under "rate finite", and `mean` is the sum of alpha/beta over the survivors. |
| BranchProb.DropNegligible | src/branch_prior.cpp:640-652 | The second pass leaves the compaction under "mean at least 0.01 * mean", and `mu` and `var` sum alpha/beta and alpha/beta^2 over the survivors. |
| BranchProb.FilteredLogProb | src/branch_prior.cpp:628-688 | After both filters, returns `LogProbOfTerms` of the original terms, and never NaN. |
| BranchProb.BranchProb | src/branch_prior.cpp:586-689 | Returns the log-probability of the branch's terms built from its decomposition and times, and never NaN. |
| BranchProb.FilteredTerms | src/branch_prior.cpp:628-688 | Every surviving term has a finite rate and a mean of at least 0.01 * mean. The survivors are exactly the terms passing both tests, as a multiset. With no survivor the result is -inf, and the result is never NaN. |
| BranchProb.ApproxUsesFirstPassMean | src/branch_prior.cpp:662-666 | The approximation is centred on the first-pass mean, not on the filtered `mu`, and on a concrete list of terms the two differ. |
| BranchProb.ApproxNeverPosInf | src/branch_prior.cpp:655-688 | If the gamma log-density never returns +inf, the approximate branch log-probability is neither NaN nor +inf. |
| BranchProb.SubtreePriorCond | src/branch_prior.cpp:751-773 | The result is the left-to-right sum of branchprob, with approx at its default of true, over the listed nodes that are neither at the species root nor the gene root. |
| BranchProb.SubtreeLogProbNotNaN | src/branch_prior.cpp:758-772 | With a density that never returns +inf, the subtree sum is never NaN. It is -inf exactly when some scored branch has probability zero. |
| Floats.SumWithoutNaNOrPosInf | src/branch_prior.cpp:758-772 | A sum of values none of which is NaN or +inf is neither NaN nor +inf, and it is -inf exactly when one of the values is. |
| GeneRate.MaxCubicRoot | src/branch_prior.cpp:37-70 | Given f(0) <= 0, returns a positive exact root, or an end of a final bracket: 0 < lo < hi <= lo + 0.001, f(hi) >= 0, and f(lo) < 0 unless lo is the starting point 0.01. |
| GeneRate.SeveralPositiveRoots | src/branch_prior.cpp:35-70 | The cubic (x - 0.03)(x - 0.5)(x - 1) passes the f(0) <= 0 assertion and has three positive roots. Doubling from 0.01 stops at 0.04, so the answer lies near the smallest root, although the comment at line 36 assumes only one positive root. |
| GeneRate.CubicPositiveFar | src/branch_prior.cpp:46-51 | The cubic is positive from 1 + abs(a) + abs(b) + abs(c) on, so the doubling loop ends. |
| GeneRate.FloatCmpTotalOrder | src/branch_prior.cpp:72-83 | floatcmp is antisymmetric, returns zero only on equal values, and is transitive. |
| GeneRate.SortUp | src/branch_prior.cpp:100-102 | The sorted copy of the depths has the same values and is ascending under floatcmp. |
| GeneRate.SortedUnique | src/branch_prior.cpp:100-102 | Two ascending lists with the same values are equal, so any correct sort yields the list SortUp gives. |
| GeneRate.LimitInRange | src/branch_prior.cpp:105-107 | The threshold index lies inside the sorted list exactly when there are at least five samples. |
| GeneRate.SumCNonNegative | src/branch_prior.cpp:113-118 | The sum of squared depths over variances is never negative. |
| GeneRate.MleStartNonPositive | src/branch_prior.cpp:119-122 | With beta > 0 the constant coefficient c is at most 0, so maxCubicRoot's assertion holds. |
| GeneRate.MleGeneRate | src/branch_prior.cpp:86-123 | Below five samples the threshold read fails. Otherwise, with the threshold taken from the sorted depths and the sums over the selected samples: if c > 0 maxCubicRoot's assertion fails, else the result is near a positive root of the cubic: an exact root or an end of a final bisection bracket. |
| GeneRate.MleSolves | src/branch_prior.cpp:86-123 | With beta > 0 and at least five samples, mleGeneRate always answers with a point near a positive root of its cubic: an exact root or an end of a final bisection bracket. |
| GeneRate.EstimateGeneRateHelper | src/branch_prior.cpp:128-157 | Every non-root node of the visited subtree gets its depth and subtree root from its parent's entries. A free subtree gets -1 and the parent's root; a duplication parent gets the parent's depth plus the branch length; otherwise the branch length and the parent's species. Entries outside the subtree are unchanged. |
| GeneRate.SpecBelowFreeDup | src/branch_prior.cpp:133-150 | A speciation whose parent is a free non-root duplication is not free, and its depth is its branch length minus 1, because the parent's free marker -1 is added to it. |
| GeneRate.LocalIsGlobal | src/branch_prior.cpp:136-152 | Given the root's entries, the per-node steps determine every entry: the arrays hold DepthAt and SrootAt. |
| GeneRate.WalkComplete | src/branch_prior.cpp:163-174 | After the walk from the gene root, every node holds its DepthAt and SrootAt. |
| GeneRate.LabelDepths | src/branch_prior.cpp:163-174 | The arrays hold DepthAt and SrootAt for every node, starting from the top subtree's free flag. |
| GeneRate.SumPath | src/branch_prior.cpp:195-206 | Returns the sum of the means and the sum of the squared deviations of the species branches crossed by the walk from `recon[i]` to the subtree root or the species root. |
| GeneRate.SampleStep | src/branch_prior.cpp:189-216 | The sample lists grow by a node's sample exactly when the loop's tests on events, root, subtree root and depth pass. |
| GeneRate.SdevFilterInactive | src/branch_prior.cpp:114 | Once every variance passed estimateGeneRate's assertion, mleGeneRate's test sdevs[i] > 0.0001 rejects no sample. |
| GeneRate.SampleVarsNonNegative | src/branch_prior.cpp:204 | Each path variance is a sum of squares, so it is never negative. |
| GeneRate.EstimateGeneRate | src/branch_prior.cpp:160-230 | If some sample's variance fails the assertion, the result is ZeroVariance. Otherwise, with no sample it is 0, and with samples it is mleGeneRate's outcome on their depths, means and variances. |

## Left out

- The MCMC samplers, the rate quadrature `calc`, the posterior-mode search, the
  rare-event likelihoods, the legacy `getBranchParams`, and the C entry points
  with their timing and logging are not part of this model.
- `subtreeprior` (the Monte Carlo averaging) and the `BranchPriorCalculator`
  constructor are not modelled. Its `brith` parameter leaves `birth`
  initialised from itself; the model passes `birth` and `death` to
  `Midpoints.SetRandomMidpoints` explicitly.
- `gammalog`, `gammaSumPdf` and `log` are foreign numerics, and are function
  parameters (`BranchProb.Densities`). `sampleBirthWaitTime1` and `frand` are
  randomness: the sampler is a function parameter (`Midpoints.Sampler`).
- Floating point: values are exact reals, with IEEE 754 behaviour only on the
  infinities and NaN. Single-precision rounding, overflow and signed zero are
  not modelled.
- GeneRate.MaxCubicRoot: works over exact reals, so a bisection midpoint can
  hit an exact root only as a real number does. Float rounding of the
  bracket is not modelled.
- GeneRate.MaxCubicRoot: the result is near a positive root, not necessarily
  the largest one. When the cubic has several positive roots, the source's
  assumption of a single positive root fails; `SeveralPositiveRoots` shows
  such a cubic.
- GeneRate.SortUp: `qsort` is modelled by its result, an ascending
  permutation, and `SortedUnique` shows that result is determined. The
  in-place sorting algorithm itself is not modelled.
- GeneRate.MleGeneRate: takes the variances `sdevs[i]^2` in place of the
  standard deviations, because `sqrt` is not available over reals; the test
  `sdevs[i] > 0.0001` becomes `variance > 1e-8`. It requires `beta != 0`,
  where the source would divide by zero. Fewer than five samples give
  `ThresholdOutOfRange`, where the source reads past the end of the array.
- GeneRate.EstimateGeneRate: requires `gene_beta != 0` for the same reason.
  The failing assertion at line 207 becomes `ZeroVariance` rather than an
  abort. The sample arrays are sequences, and `sdevs` holds variances.
- Reconciliation.ReconBranch: requires a non-root node, because the source
  dereferences the parent before its null check; its caller at line 786
  skips the root. It also requires that a duplication whose branch crosses
  species branches does not reconcile to the species root, because line 505
  reads that species node's parent.
- `ReconParams` comes from a header that is not part of this model. Its
  layout is inferred from the fields `branch_prior.cpp` uses.
- BranchProb.SubtreePriorCond: always uses the gamma approximation, because
  `subtreeprior_cond` never forwards `approx` to `branchprob`. The exact
  `gammaSumPdf` path is modelled only inside `BranchProb.LogProbOfTerms`.
- Subtrees.GetSpecSubtrees: requires every speciation to have at least two
  children (`SpecsBinary`), because the source reads `children[0]` and
  `children[1]` of each speciation without checking; a speciation with fewer
  children, where the source reads past its child list, is excluded.
