# aPhyloGeo phylogeographic correlation engine, modelled in Dafny

This project models the scoring and selection part of aPhyloGeo
(`scripts/aPhyloGeo.py`). That part relates genetic trees to climatic trees:

- **Dissimilarity matrix** (`dissimilarity.dfy`). One climatic variable's
  values become a matrix of pairwise distances, normalised by the global
  maximum and minimum and kept as a lower triangle.
- **Least-squares distance** (`least_square.dfy`). Two trees are compared by
  summing the absolute differences of their patristic distances over the leaf
  pairs the source's loop actually visits.
- **Average bootstrap** (`bootstrap.dfy`). A consensus tree's confidence is the
  mean of its nonterminal confidences, the root's left out.
- **Result filter** (`results.dfy`). This part keeps the genetic trees whose
  average confidence reaches the bootstrap threshold. It lists the climatic
  trees, compares every kept genetic tree with every climatic tree, and builds
  a result row for every pair within the least-squares threshold. The
  module-level lists `bootstrapList` and `data` are the fields of the class
  `ResultState`.

The source's loops are methods with loop invariants. Each is proved against a
function that says what the loop computes: `RawRow`/`ValueRange`/`Normalised`,
`VisitedPairs`/`SumGaps`, `Sum`/`Mean`, `KeptGenes`/`KeptAverages`,
`Pairings`/`AllRecords`. Lemmas state the properties of those functions.

A tree is seen from outside. It has its leaf names in order, a distance query
between two named leaves, and the confidences of its nonterminal nodes with
the root first. A dictionary of trees is its key order plus a map. The
climatic CSV file is a parameter: its rows, the header row included.

The model follows the code as written, including where it departs from what
such a pipeline is conventionally expected to do:

- **Leaf pairs.** `leastSquare` removes the head of the leaf list while
  iterating over it (`scripts/aPhyloGeo.py:106-107`). After k steps the
  iterator stands at position k of L[k..], so step k pairs L[2k] with
  L[k+1..], and the loop ends after (n+1)/2 steps. Some unordered pairs are
  never visited (`ThreeLeavesSkipPair`). Some leaves are paired with
  themselves (`FiveLeaves`); for trees whose distance is zero on the diagonal
  those visits add nothing (`SelfPairsAddNothing`). A least-squares tree
  distance is conventionally summed over every unordered pair of distinct
  leaves. The repository's own test expects the value the loop as written
  produces.
- **Asymmetry.** Only the first tree's leaf order drives the loop
  (`scripts/aPhyloGeo.py:102-108`). Two trees holding the same leaves in
  different orders, as trees built independently usually do, can therefore
  score differently depending on which is passed first
  (`LeastSquareAsymmetric`: 1 one way, 0 the other). The score is symmetric
  when both trees list their leaves in the same order
  (`LeastSquareSymmetric`).
- **Row lookup.** `getData` reads the rows through one reader shared by all
  leaves. Only the first leaf can ever match, because the first leaf's scan
  consumes every row. When nothing matches, the lookup yields `None` and
  `None` is appended to the results. Nothing is raised.
- **"Position in ASM".** This field holds the gene key, not metadata from the
  matched row.
- **Stored averages.** Kept genes and stored averages are consumed together,
  one of each per round. Averages left in `bootstrapList` from an earlier call
  therefore shift every gene onto an older average. `FilterResults` states
  this as written. `FreshRunSound` and `FreshRunComplete` describe a run that
  starts with an empty list.
- **Dead check.** The `ls is None` check in `filterResults` can never fire, so
  it is not modelled.

## Model

| member | source | states |
|---|---|---|
| Dissimilarity.Max | scripts/aPhyloGeo.py:67-68 | the largest element bounds every element and is one of them |
| Dissimilarity.Min | scripts/aPhyloGeo.py:69-70 | the smallest element is below every element and is one of them |
| Dissimilarity.ValueRange | scripts/aPhyloGeo.py:50-71 | the spread of the values is never negative |
| Dissimilarity.WithinRange | scripts/aPhyloGeo.py:60-62 | no two specimens are further apart than the spread of the values |
| Dissimilarity.RangeAttained | scripts/aPhyloGeo.py:67-68 | some pair of specimens is exactly the spread apart |
| Dissimilarity.RawDistance | scripts/aPhyloGeo.py:60-62 | max(v[e], v[i]) - min(v[e], v[i]) is the absolute difference |
| Dissimilarity.RawRow | scripts/aPhyloGeo.py:58-63 | row e has one entry per specimen, is zero on the diagonal, and holds entry i's raw distance |
| Dissimilarity.DistancesFrom | scripts/aPhyloGeo.py:58-63 | the inner loop builds exactly row e of raw distances |
| Dissimilarity.RowsMaxAbove | scripts/aPhyloGeo.py:67-68 | the running maximum is at least the maximum of every row seen so far |
| Dissimilarity.RowsMaxAttained | scripts/aPhyloGeo.py:67-68 | after at least one row, the running maximum is the maximum of one of the rows seen |
| Dissimilarity.RowsMaxIsRange | scripts/aPhyloGeo.py:65-71 | once every row is seen, the running maximum is the spread of the values |
| Dissimilarity.RawDistances | scripts/aPhyloGeo.py:50-71 | the raw table is every row's raw distances; the running minimum stays 0; the running maximum ends as the spread of the values |
| Dissimilarity.Normalised | scripts/aPhyloGeo.py:74-75 | a normalised dissimilarity lies in [0, 1] and is 0 for a specimen with itself |
| Dissimilarity.NormalisedSymmetric | scripts/aPhyloGeo.py:74-75 | normalised dissimilarity is symmetric |
| Dissimilarity.LowerTriangle | scripts/aPhyloGeo.py:78 | row i of the result holds columns 0..i |
| Dissimilarity.GetDissimilaritiesMatrix | scripts/aPhyloGeo.py:33-80 | names are kept; the matrix is lower triangular with a zero diagonal; every entry of the full square matrix is the normalised dissimilarity, in [0, 1] |
| LeastSquares.StepPairsAfterPops | scripts/aPhyloGeo.py:106-108 | after k pops the iterator reads the list's item at position k and pairs it with every name of the list after one more pop |
| LeastSquares.LeastSquare | scripts/aPhyloGeo.py:83-112 | the loop that pops while it iterates returns the sum of distance gaps over exactly the visited pairs, in visiting order |
| LeastSquares.SumGapsNonNegative | scripts/aPhyloGeo.py:111 | a sum of absolute gaps is never negative |
| LeastSquares.SumGapsZero | scripts/aPhyloGeo.py:111 | the sum is zero if and only if both trees agree on every summed pair |
| LeastSquares.LeastSquareZero | scripts/aPhyloGeo.py:101-112 | the distance is non-negative, zero exactly when the trees agree on every visited pair, and zero for a tree with itself |
| LeastSquares.SumGapsSymmetric | scripts/aPhyloGeo.py:109-111 | swapping the trees leaves the sum unchanged |
| LeastSquares.LeastSquareSymmetric | scripts/aPhyloGeo.py:102-111 | with equal leaf orders, leastSquare(t1, t2) == leastSquare(t2, t1) |
| LeastSquares.StepsTotalClosedForm | scripts/aPhyloGeo.py:106-108 | twice (n-1) + ... + (n-s) is s*(2n-1-s) |
| LeastSquares.CursorPairsCount | scripts/aPhyloGeo.py:106-108 | s outer steps over n leaves visit (n-1) + ... + (n-s) pairs, that is s*(2n-1-s)/2 |
| LeastSquares.CursorPairsFirstEven | scripts/aPhyloGeo.py:106-108 | every visited pair starts with a leaf at an even position |
| LeastSquares.FiveLeaves | scripts/aPhyloGeo.py:106-111 | five leaves give exactly nine visited pairs, listed in order |
| LeastSquares.ThreeLeaves | scripts/aPhyloGeo.py:106-108 | three leaves give exactly the pairs (1st,2nd), (1st,3rd), (3rd,3rd) |
| LeastSquares.ThreeLeavesSkipPair | scripts/aPhyloGeo.py:106-108 | with three distinct leaves, the second and third are never compared, and the third is compared with itself |
| LeastSquares.LeastSquareAsymmetric | scripts/aPhyloGeo.py:102-111 | with the same three leaves in different orders, the score is 1 with one tree first and 0 with the other first |
| LeastSquares.SelfPairsAddNothing | scripts/aPhyloGeo.py:109-111 | for trees zero on the diagonal, the sum over visited pairs equals the sum over those of two different leaves, which the filtered list alone holds |
| Bootstrap.AverageBootstrap | scripts/aPhyloGeo.py:244-260 | the loop's result is the mean of the non-root confidences: their sum over their number |
| Bootstrap.SumBounds | scripts/aPhyloGeo.py:256-258 | n values within [lo, hi] add up to between n*lo and n*hi |
| Bootstrap.MeanWithin | scripts/aPhyloGeo.py:253-260 | the average lies within any bounds of the non-root confidences |
| Bootstrap.MeanIgnoresRoot | scripts/aPhyloGeo.py:255 | the root's confidence does not affect the average |
| Bootstrap.MeanOfConstant | scripts/aPhyloGeo.py:253-260 | equal non-root confidences average to that value |
| Results.CreateClimaticList | scripts/aPhyloGeo.py:282-294 | the list is the climatic keys in dictionary order |
| Results.ResultState.constructor | scripts/aPhyloGeo.py:15-16 | both accumulators start empty |
| Results.ResultState.CreateGeneticList | scripts/aPhyloGeo.py:263-279 | returns the keys whose average is at least the threshold, in order; appends their averages to bootstrapList; leaves data unchanged |
| Results.ResultState.GetData | scripts/aPhyloGeo.py:297-316 | a row is found if and only if the first leaf starts a CSV row; the row found carries the reference gene, climatic name, first leaf, first kept gene, oldest stored average and ls |
| Results.ResultState.CompareWithClimatic | scripts/aPhyloGeo.py:357-368 | one round appends, in climatic order, the lookup of every climatic tree within the least-squares threshold; bootstrapList is unchanged |
| Results.ResultState.FilterResults | scripts/aPhyloGeo.py:337-370 | data grows by the rows of every kept gene in order, gene g paired with the g-th stored average; the averages consumed are dropped from bootstrapList |
| Results.KeptShape | scripts/aPhyloGeo.py:273-279 | as many averages are appended as genes are kept, and every kept gene is a key |
| Results.KeptAligned | scripts/aPhyloGeo.py:274-278 | the m-th appended average is the m-th kept gene's own average and reaches the threshold |
| Results.KeptExactly | scripts/aPhyloGeo.py:274-278 | a gene is kept if and only if it is a key whose average is at least the threshold (inclusive) |
| Results.PairingsBound | scripts/aPhyloGeo.py:360-368 | one genetic tree adds at most one row per climatic tree |
| Results.AllRecordsBound | scripts/aPhyloGeo.py:356-370 | n kept genes add at most n times the number of climatic trees rows |
| Results.PairingsSound | scripts/aPhyloGeo.py:360-367 | every row added for a gene comes from a climatic tree within the least-squares threshold and is its lookup result |
| Results.PairingsComplete | scripts/aPhyloGeo.py:365-367 | every climatic tree within the threshold, equality included, adds its lookup result |
| Results.AllRecordsSound | scripts/aPhyloGeo.py:356-370 | every row belongs to some kept gene g, carrying the g-th average, and to a climatic tree within the threshold |
| Results.AllRecordsComplete | scripts/aPhyloGeo.py:356-370 | every (kept gene, climatic tree) pair within the threshold adds its lookup result |
| Results.FreshRunSound | scripts/aPhyloGeo.py:337-370 | starting with no stored averages, every matched row carries the reference gene label, a key whose own average reaches the threshold, that tree's first leaf (present in the CSV), and a least-squares distance within the threshold |
| Results.FreshRunComplete | scripts/aPhyloGeo.py:337-370 | starting with no stored averages, every gene at or above the bootstrap threshold paired with every climatic tree at or below the least-squares threshold yields its row, when its first leaf is in the CSV |

## Left out

- Rounding: raw and normalised distances to 6 decimals, the least-squares value to 2 decimals, and `str` formatting in result rows. Values are exact reals.
- Floating point: `float` arithmetic, and its dependence on summation order, is modelled by real arithmetic.
- Dissimilarity.GetDissimilaritiesMatrix: requires the values not all to be equal. With a zero spread the source divides by zero and the matrix fills with NaN.
- Bootstrap.AverageBootstrap: requires at least two nonterminal confidences. With fewer, the source raises (pop from an empty list, or division by zero). Missing (`None`) confidences are not modelled either.
- Results.ResultState.GetData: requires every CSV row to be non-empty. A blank line would make the source raise IndexError.
- Dissimilarity.DistancesFrom: is the inner loop of `getDissimilaritiesMatrix`, made a method of its own. It does not exist in the source.
- Results.ResultState.CompareWithClimatic: is the body of the outer loop of `filterResults`, made a method of its own. It does not exist in the source.
- A tree's distance query is a total function of two leaf names. Failures of the leaf lookup (`find_any`) are not modelled.
- Tree construction (neighbor joining) and the consensus and bootstrap resampling (`createTree`, `createBoostrap`, `bootSingle`) are not part of this model. Neither is the multiprocessing pool (`Multi`).
- I/O is not part of this model: `openCSV`, `writeOutputFile` (the output file with its header line; a `None` row reaching the CSV writer), `drawTreesmake`, the climatic and genetic pipelines, and `main.py`.
