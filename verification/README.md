# Local series expansion of a fast kernel summation

This project models `LocalExpansion` from
`fastlib/u/dongryel/series_expansion/local_expansion.h`. That class is the truncated
Taylor series a fast multipole-style kernel summation keeps around the center of a
query region. It holds:

- a center;
- a truncation order;
- a coefficient buffer sized for the table's largest order;
- the kernel's squared bandwidth.

Its operations are:

- initialise, with or without a center;
- accumulate weighted reference points into the coefficients;
- evaluate the series at a query point through a monomial recurrence over multi-indices;
- choose the smallest order whose tail bound meets an error target;
- translate a far-field expansion into the local one;
- translate the local expansion into another local expansion.

The expansion is an immutable datatype `Expansion.Local`. Each mutating member
function of the class becomes a method that takes the old expansion and returns the
new one. A `const` member takes the expansion by value and cannot change it.

Three collaborators are not part of this model. Each becomes plain data with stated
assumptions:

- **The multi-index table (SeriesExpansionAux)** is `SeriesAux.Aux`, a record of its
  lookups: counts per order, multi-indices, negated inverse factorials, factorials,
  upper mappings and choose weights. `SeriesAux.Valid` states what the expansion
  relies on:
  - the count at order 0 is 1;
  - counts never shrink as the order grows;
  - the count at the maximum order is the buffer size;
  - the per-position lookups have matching sizes.
- **The kernel and its derivative class** are `Kernel.KernelOps`, a record of three
  functions: the squared bandwidth recorded by `Init`, `BandwidthFactor`, and the
  partial derivative for a multi-index at a displacement.
- **FarFieldExpansion** is the read-only record `Expansion.FarField`.

Every additive update has the same shape: accumulation and both translations. The
predicate `Expansion.AddsInto` states that shape:

- the order becomes the larger of the old order and the update's order;
- center, bandwidth and buffer size stay;
- coefficient `j` grows by `delta[j]` below a limit and is untouched above it.

Each update is specified by its increments. An increment is the plain left-to-right
sum of terms, defined independently of the loops (`Sums.Sum`). The positive/negative
accumulator split of the translations is shown to lose nothing.

EvaluateField's recurrence builds the monomials of degree `k` in one block per
variable. Each block is made from the previous degree's monomials. The model defines
the multi-index enumeration this produces (`Monomials.Generated`) and proves three
things about it:

- the recurrence writes only inside the buffer;
- entry `m` of the buffer is the monomial of the enumeration's `m`-th multi-index;
- the result is the truncated series over that enumeration.

For this the table's counts must be the true multi-index counts
(`SeriesAux.CountsMultiIndices`). The minimum assumptions of `Valid` alone do not
keep the recurrence inside the buffer. `Evaluate.TableOrderMatchesRecurrence` states
when the coefficients and the monomials line up: when the table lists its
multi-indices in the recurrence's order.

OrderForEvaluating returns a typed `OrderSearch.Outcome` instead of `-1`:

- the order and the bound it achieved;
- a region too wide for the series;
- the table's order capacity exceeded;
- a factorial out of the table's range.

`OrderSearch.ReturnValue` maps an outcome back to the source's integer.

## Model

| member | source | states |
|---|---|---|
| Expansion.Init | fastlib/u/dongryel/series_expansion/local_expansion.h:297-310 | order 0, the given center, the kernel's squared bandwidth, a buffer of the table's maximum size with every entry zero; well formed exactly when the center has the table's dimension |
| Expansion.InitWithoutCenter | fastlib/u/dongryel/series_expansion/local_expansion.h:312-325 | the center only gets the table's dimension and keeps whatever its entries hold (a parameter); order 0, the kernel's squared bandwidth, every coefficient zero; always well formed |
| Expansion.SetOrder | fastlib/u/dongryel/series_expansion/local_expansion.h:78 | the order becomes the new one, which may be lower; center, coefficients and bandwidth are kept |
| Expansion.SetOrderKeepsWellFormed | fastlib/u/dongryel/series_expansion/local_expansion.h:78 | setting the order keeps a well-formed expansion well formed exactly when the new order lies between 0 and the table's maximum order |
| Expansion.RefineCoeffs | fastlib/u/dongryel/series_expansion/local_expansion.h:92-93 | for any points, weights, range and order the expansion is unchanged |
| Expansion.AddsIntoKeepsWellFormed | fastlib/u/dongryel/series_expansion/local_expansion.h:144-146 | raising the order to one the table supports keeps the expansion well formed |
| Expansion.AddsIntoCommute | fastlib/u/dongryel/series_expansion/local_expansion.h:187-190 | two additive updates applied in either order give the same expansion, since they only add into coefficients and take the larger order |
| Expansion.AddsIntoCompose | fastlib/u/dongryel/series_expansion/local_expansion.h:187-190 | two additive updates in a row are one update by the sum of their increments, up to the larger limit and to the larger order |
| Accumulate.PartialDerivatives | fastlib/u/dongryel/series_expansion/local_expansion.h:182-185 | entry `j` is the kernel derivative for multi-index `j` at the displacement, for each `j` below the count |
| Accumulate.AddPoint | fastlib/u/dongryel/series_expansion/local_expansion.h:187-190 | each coefficient below the count grows by one more point's term, and the ones above do not change |
| Accumulate.AccumulateCoeffs | fastlib/u/dongryel/series_expansion/local_expansion.h:139-192 | the order becomes the larger of the old and the requested order; coefficient `j` below the count for the REQUESTED order grows by the sum over the range of weight times derivative times negated inverse factorial; the others are unchanged; an empty or reversed range changes no coefficient |
| Accumulate.AccumulateSplitRange | fastlib/u/dongryel/series_expansion/local_expansion.h:170-191 | accumulating `[begin, mid)` and then `[mid, end)` gives the same expansion as accumulating `[begin, end)` in one call |
| Evaluate.MultiplyBlock | fastlib/u/dongryel/series_expansion/local_expansion.h:284-286 | the entries from `head` to `tail`, times `x_i`, are written from `t` on; everything below `t` is kept and the write stays inside the buffer |
| Evaluate.WriteBlock | fastlib/u/dongryel/series_expansion/local_expansion.h:280-287 | after one variable's block, the buffer holds the enumeration's monomials up to the block's end, and the lower-degree ones are still in place |
| Evaluate.NextDegree | fastlib/u/dongryel/series_expansion/local_expansion.h:278-288 | one pass of the degree loop moves `t` to the count of degree `k`, leaves the block heads at the degree-`k` block starts, and extends the monomials to degree `k` |
| Evaluate.MonomialVector | fastlib/u/dongryel/series_expansion/local_expansion.h:272-288 | the buffer has the table's count for the order, and entry `m` is the monomial of the `m`-th multi-index of the enumeration |
| Evaluate.SumProducts | fastlib/u/dongryel/series_expansion/local_expansion.h:290-292 | the running sum of coefficient times monomial is the truncated series |
| Evaluate.EvaluateField | fastlib/u/dongryel/series_expansion/local_expansion.h:234-295 | the truncated series at the scaled displacement of the query; the zero-order coefficient at order 0 wherever the query lies; the polynomial with the first `order + 1` coefficients in one dimension; 0 for a zeroed expansion; the zero-order coefficient at the expansion's own center, at any order and in any dimension |
| Evaluate.SeriesAtOrderZero | fastlib/u/dongryel/series_expansion/local_expansion.h:276 | with only the monomial `tmp[0] = 1`, the series is the zero-order coefficient |
| Evaluate.SeriesOneVariable | fastlib/u/dongryel/series_expansion/local_expansion.h:278-292 | in one variable the series over the enumeration is the polynomial in the displacement |
| Evaluate.SeriesOfZeros | fastlib/u/dongryel/series_expansion/local_expansion.h:290-292 | with all coefficients zero the series is 0 |
| Evaluate.FieldAtCenter | fastlib/u/dongryel/series_expansion/local_expansion.h:261-292 | a query at the expansion's center has zero displacement, so every monomial but `tmp[0] = 1` vanishes and the value is the zero-order coefficient |
| Evaluate.TableOrderMatchesRecurrence | fastlib/u/dongryel/series_expansion/local_expansion.h:290-291 | if the table lists its multi-indices in the recurrence's order, coefficient `j` meets the monomial of multi-index `j` at every order |
| Monomials.MonomialInc | fastlib/u/dongryel/series_expansion/local_expansion.h:285 | raising variable `i` by one multiplies the monomial by `x_i` |
| Monomials.BlockMonomials | fastlib/u/dongryel/series_expansion/local_expansion.h:284-286 | a block written as products of the previous degree's monomials with `x_i` holds the monomials of the raised multi-indices |
| Monomials.BlockEntries | fastlib/u/dongryel/series_expansion/local_expansion.h:280-287 | variable `i`'s block of degree `k` starts at `TotalCount(k) - DegreeCount(k, i)` and raises variable `i` in the last `DegreeCount(k - 1, i)` multi-indices of lower degree |
| Monomials.GeneratedPrefix | fastlib/u/dongryel/series_expansion/local_expansion.h:278-288 | the enumeration up to a higher order starts with the enumeration up to a lower one, so earlier monomials are never overwritten |
| Monomials.GeneratedDegrees | fastlib/u/dongryel/series_expansion/local_expansion.h:278-288 | every multi-index has degree at most the order, and the last block has degree exactly the order |
| Monomials.GeneratedOneVariable | fastlib/u/dongryel/series_expansion/local_expansion.h:278-288 | in one variable the enumeration is `[0], [1], ..., [o]` and the monomials are the powers |
| SeriesAux.CountingTableMeetsContracts | fastlib/u/dongryel/series_expansion/local_expansion.h:241 | a table whose counts are the multi-index counts has 1 at order 0 and counts that grow with the order |
| OrderSearch.WidestWidth | fastlib/u/dongryel/series_expansion/local_expansion.h:334-342 | the running maximum from 0 is at least every side's width and at least 0, and it is one of the widths unless it is 0 |
| OrderSearch.WidestSide | fastlib/u/dongryel/series_expansion/local_expansion.h:338-342 | the loop computes the widest width |
| OrderSearch.ReturnValue | fastlib/u/dongryel/series_expansion/local_expansion.h:349-371 | `-1` exactly for the three failures, and the order otherwise |
| OrderSearch.OrderForEvaluating | fastlib/u/dongryel/series_expansion/local_expansion.h:327-390 | the region is too wide exactly when the ratio is at least 1; otherwise the result is the first order from 0 at which a factorial is out of range or the bound is at most the target, bounded by the maximum order; a found order carries its bound as the actual error |
| OrderSearch.OutcomeUnique | fastlib/u/dongryel/series_expansion/local_expansion.h:358-389 | the outcome is determined by the inputs |
| OrderSearch.OrderMonotoneInError | fastlib/u/dongryel/series_expansion/local_expansion.h:380-385 | allowing a larger error never raises the returned order, and it still finds one |
| Translate.SplitAdd | fastlib/u/dongryel/series_expansion/local_expansion.h:451-456 | a positive product goes to the positive accumulator and any other to the negative one; the two together grow by the product |
| Translate.SplitRow | fastlib/u/dongryel/series_expansion/local_expansion.h:436-456 | for one local coefficient the positive accumulator is at least 0, the negative one at most 0, and together they are the plain sum of far coefficient times derivative of `beta_j + alpha_k` |
| Translate.FarFieldSplitSums | fastlib/u/dongryel/series_expansion/local_expansion.h:434-457 | the same for every local coefficient below the far field's count |
| Translate.TranslateFromFarField | fastlib/u/dongryel/series_expansion/local_expansion.h:392-463 | the order becomes the larger of the local and the far order; each coefficient below the far field's count grows by the split sum times its negated inverse factorial; the others are unchanged |
| Translate.FarIncrementsAreLinear | fastlib/u/dongryel/series_expansion/local_expansion.h:459-462 | translating a far field whose coefficients are the sum of two far fields' adds the sum of what translating each adds |
| Translate.FarFieldTranslationsCommute | fastlib/u/dongryel/series_expansion/local_expansion.h:459-462 | translating two far fields into one local expansion gives the same result in either order |
| Translate.ContributorCount | fastlib/u/dongryel/series_expansion/local_expansion.h:516-520 | the walk over the upper mapping stops at the end or at the first position at or beyond the count, and every position it visits is below the count |
| Translate.ExponentDiff | fastlib/u/dongryel/series_expansion/local_expansion.h:527-534 | the flag is clear exactly when no exponent difference is negative, and then every difference has been stored |
| Translate.PowerProductLoop | fastlib/u/dongryel/series_expansion/local_expansion.h:539-541 | the product of the center difference raised to the exponent differences |
| Translate.ContributorTerm | fastlib/u/dongryel/series_expansion/local_expansion.h:521-545 | 0 for a contributor with a negative exponent difference, otherwise source coefficient times power product times choose weight |
| Translate.LocalRow | fastlib/u/dongryel/series_expansion/local_expansion.h:509-553 | for one destination coefficient the accumulators have the right signs and together are the sum of the contributors' terms |
| Translate.TranslateToLocal | fastlib/u/dongryel/series_expansion/local_expansion.h:465-557 | the destination's order becomes the larger of its own and the source's; each destination coefficient below the SOURCE's count grows by the sum of its terms; nothing else changes |
| Translate.LocalTranslationsCommute | fastlib/u/dongryel/series_expansion/local_expansion.h:555 | translating two local expansions into one destination gives the same result in either order |
| Sums.SplitSum | fastlib/u/dongryel/series_expansion/local_expansion.h:546-551 | positive accumulator plus negative accumulator equals the plain sum, for any sequence of terms |

## Left out

- PrintDebug: formatted output to a `FILE*`, which is I/O only.
- Floating point: scalars are `real`, so rounding is not modelled. In particular the
  model says nothing about how much the positive/negative split reduces
  cancellation; it shows only that the split keeps the sum.
- The bound term of OrderForEvaluating is an abstract function `term(p, r^(p+1),
  floor_fact, ceil_fact)`. It stands for the front factor `exp(-d^2 / 4h^2)`, the
  count difference `get_total_num_coeffs(p + 1) - get_total_num_coeffs(p)` and the
  square root of the factorial powers (lines 332-333 and 373-378). The minimum squared
  distance only enters through it.
- OrderSearch.OrderForEvaluating: takes `sqrt(bandwidth_sq())` as a parameter, whose
  square is required to be the squared bandwidth, because the model has no square root.
- OrderSearch.OrderForEvaluating: reads the table's count at order `p + 1` inside the
  abstract term, so the model says nothing about that lookup at `p = max_order`. The
  table's valid range is not part of this model.
- The internals of SeriesExpansionAux, the kernel classes (`ComputeDirectionalDerivatives`,
  `ComputePartialDerivative`, `BandwidthFactor`) and FarFieldExpansion are not part of
  this model. They are the data and functions described above. The derivative table
  of `ComputeDirectionalDerivatives` and its size (`order + 1` or `2 * order + 1`
  columns) are folded into one partial-derivative function.
- The getters are the fields of `Local` (`center`, `order`, `coeffs`, `bandwidthSq`).
  `get_max_order` is the table's `maxOrder`.
- The sentinel `heads[dim] = MAXINT` of EvaluateField is never read, and
  TranslateToLocal's unused alias `C_k` of the inverse factorials is not modelled.
- Evaluate.EvaluateField: the output is proved for tables whose counts are the
  multi-index counts (`CountsMultiIndices`), a stronger assumption than the minimum
  one. Under the minimum assumptions alone the recurrence can write past the buffer.
- TranslateToLocal when the destination is the expansion itself: this is not
  modelled. The source then reads coefficients it is writing; the model treats source
  and destination as separate values.
- Accumulate.AccumulateSplitRange: states independence of how the range is split into
  consecutive batches. It does not state independence of an arbitrary reordering of
  the points, because the source always visits a range in index order.
- Far-field accumulation followed by far-to-local translation agreeing with direct
  accumulation, and local-to-local round trips, are left out. Both hold only up to
  the truncation error of the series.
- The abstract kernel has no stated derivative values, so the single-point-at-the-center
  scenario (only the zero-order coefficient non-zero) is left out.
- Accumulate.AccumulateCoeffs: a kernel whose bandwidth factor is 0 is excluded. The
  source divides by it (lines 174-175), which fills the coefficients with inf or NaN.
- Evaluate.EvaluateField: a kernel whose bandwidth factor is 0 is excluded. The source
  divides by it (lines 264-268) and returns inf or NaN.
- Translate.TranslateFromFarField: a kernel whose bandwidth factor is 0 is excluded.
  The source divides the center difference by it (line 426), giving inf or NaN.
- Translate.TranslateToLocal: a kernel whose bandwidth factor is 0 is excluded. The
  source divides the center difference by it (line 495), giving inf or NaN.
- OrderSearch.OrderForEvaluating: an empty region (dimension 0) and a bandwidth whose
  square root is not positive are excluded. The source divides by `2 * sqrt(bandwidth_sq)`
  (lines 344-345) and by the dimension (lines 366 and 368), which gives inf or NaN and,
  for dimension 0, a factorial index of `(int) floor(NaN)`.
- Integer widths: orders and positions are unbounded integers. The source's `int`
  counts are assumed not to overflow.

In the far-to-local translation the order is raised first, but the loop over local
coefficients (lines 434 and 460-462) still runs only up to the FAR field's count, not
the count for the raised local order. Local coefficients between the two counts are
left unchanged, and the model follows the code here.
