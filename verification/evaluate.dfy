/** LocalExpansion::EvaluateField: the value of the expansion at a query
    point, through the multi-index monomial recurrence. */
module Evaluate {
  import opened Sums
  import opened SeriesAux
  import opened Kernel
  import opened Expansion
  import opened Monomials

  /** Where the query point comes from: row `row` of a data matrix
      (`data[row]` is column `row` of the matrix), or an explicit point when
      no matrix is given. */
  datatype Query = FromMatrix(data: seq<seq<real>>, row: int) | FromPoint(x: seq<real>)

  ghost predicate QueryOk(a: Aux, q: Query) {
    match q
    case FromMatrix(data, row) => 0 <= row < |data| && |data[row]| >= a.dim
    case FromPoint(x) => |x| >= a.dim
  }

  function QueryPoint(a: Aux, q: Query): seq<real>
    requires QueryOk(a, q)
  {
    match q
    case FromMatrix(data, row) => data[row]
    case FromPoint(x) => x
  }

  /** The truncated series `c[0] x^g[0] + ... + c[n-1] x^g[n-1]`, added
      left to right, with the multi-indices of `g`. */
  ghost function SeriesAt(c: seq<real>, x: seq<real>, g: seq<seq<nat>>, n: nat): real
    requires n <= |c| && n <= |g|
  {
    if n == 0 then 0.0 else SeriesAt(c, x, g, n - 1) + c[n - 1] * Monomial(x, g[n - 1], |x|)
  }

  /** The one-variable polynomial `c[0] + c[1] x + ... + c[n-1] x^(n-1)`. */
  function Polynomial(c: seq<real>, x: real, n: nat): real
    requires n <= |c|
  {
    if n == 0 then 0.0 else Polynomial(c, x, n - 1) + c[n - 1] * Pow(x, n - 1)
  }

  /** The innermost loop of the recurrence: the entries `head .. tail - 1`,
      each multiplied by `xi`, are written from position `t` on; what lies
      below `t` is kept. */
  method MultiplyBlock(tmp: seq<real>, t: int, head: int, tail: int, xi: real) returns (tmp': seq<real>, t': int)
    requires 0 <= head <= tail <= t && t + (tail - head) <= |tmp|
    ensures |tmp'| == |tmp| && t' == t + (tail - head)
    ensures WritesBlock(tmp, tmp', t, head, tail - head, xi)
  {
    tmp', t' := tmp, t;
    var j := head;
    while j < tail
      invariant head <= j <= tail
      invariant t' == t + (j - head)
      invariant |tmp'| == |tmp|
      invariant forall m :: 0 <= m < t ==> tmp'[m] == tmp[m]
      invariant forall m :: t <= m < t' ==> tmp'[m] == tmp[m - t + head] * xi
    {
      tmp' := tmp'[t' := tmp'[j] * xi];
      j, t' := j + 1, t' + 1;
    }
  }

  /** Lines 281-286 for one variable `i`: writes variable `i`'s block at
      `t`, copying the monomials from `head` to the end of the previous
      degree, each times `x[i]`. Where the enumeration holds those
      multi-indices raised in variable `i`, the monomials now reach `t + len`. */
  method WriteBlock(i: nat, x: seq<real>, ghost prevG: seq<seq<nat>>, ghost g: seq<seq<nat>>,
                    tmp: seq<real>, t: int, head: int, tail: int) returns (tmp': seq<real>, t': int)
    requires i < |x| && 0 <= head <= tail == |prevG| <= t && t + (tail - head) <= |tmp|
    requires MonomialsUpTo(tmp, x, prevG, tail) && MonomialsUpTo(tmp, x, g, t)
    requires BlockAt(g, prevG, head, t, tail - head, i)
    ensures |tmp'| == |tmp| && t' == t + (tail - head)
    ensures MonomialsUpTo(tmp', x, prevG, tail) && MonomialsUpTo(tmp', x, g, t')
  {
    tmp', t' := MultiplyBlock(tmp, t, head, tail, x[i]);
    BlockMonomials(tmp, tmp', x, g, prevG, head, t, tail - head, i);
  }

  /** One pass of the degree loop of the recurrence: from the monomials of
      degree below `k`, in the first `TotalCount(dim, k - 1)` entries, the
      degree-`k` monomials are appended variable by variable, each
      variable's block built from the previous degree's monomials that start
      at that variable or later. `heads[i]` marks where the block for
      variable `i` starts. Afterwards the entries up to `TotalCount(dim, k)`
      are the monomials of the enumeration of degree `k`. */
  method NextDegree(dim: nat, k: nat, order: nat, x: seq<real>, tmp: seq<real>, heads: seq<int>)
    returns (tmp': seq<real>, heads': seq<int>, t': int)
    requires 1 <= k <= order && |x| == dim
    requires |tmp| == TotalCount(dim, order)
    requires |heads| == dim
    requires forall i :: 0 <= i < dim ==> heads[i] == TotalCount(dim, k - 1) - DegreeCount(dim, k - 1, i)
    requires MonomialsUpTo(tmp, x, Generated(dim, k - 1), TotalCount(dim, k - 1))
    ensures |tmp'| == |tmp|
    ensures t' == TotalCount(dim, k)
    ensures |heads'| == dim
    ensures forall i :: 0 <= i < dim ==> heads'[i] == t' - DegreeCount(dim, k, i)
    ensures MonomialsUpTo(tmp', x, Generated(dim, k), t')
  {
    var tail := TotalCount(dim, k - 1);
    ghost var prevG := Generated(dim, k - 1);
    ghost var g := Generated(dim, k);
    TotalCountMonotone(dim, k, order);
    assert MonomialsUpTo(tmp, x, g, tail) by {
      GeneratedPrefix(dim, k - 1, k);
      MonomialsPrefix(tmp, x, prevG, g, tail);
    }
    tmp', heads', t' := tmp, heads, tail;
    var i := 0;
    while i < dim
      invariant 0 <= i <= dim
      invariant |tmp'| == |tmp|
      invariant t' == TotalCount(dim, k) - DegreeCount(dim, k, i)
      invariant |heads'| == dim
      invariant forall i' :: 0 <= i' < i ==> heads'[i'] == TotalCount(dim, k) - DegreeCount(dim, k, i')
      invariant forall i' :: i <= i' < dim ==> heads'[i'] == heads[i']
      invariant MonomialsUpTo(tmp', x, prevG, tail) && MonomialsUpTo(tmp', x, g, t')
    {
      var head := heads'[i];
      heads' := heads'[i := t'];
      BlockLayout(dim, k, i);
      BlockEntries(dim, k, i, head, t', tail - head);
      tmp', t' := WriteBlock(i, x, prevG, g, tmp', t', head, tail);
      i := i + 1;
    }
  }

  /** Monomials of a prefix of the enumeration are monomials of the whole. */
  lemma MonomialsPrefix(s: seq<real>, x: seq<real>, p: seq<seq<nat>>, g: seq<seq<nat>>, n: int)
    requires MonomialsUpTo(s, x, p, n) && n <= |p| <= |g| && p == g[..|p|]
    ensures MonomialsUpTo(s, x, g, n)
  {
    forall m | 0 <= m < n
      ensures s[m] == Monomial(x, g[m], |x|)
    {
      assert g[m] == p[m];
    }
  }

  /** Lines 272-288 of EvaluateField: the monomials of `x` for every
      multi-index up to `order`, degree by degree and, within a degree, one
      block per variable. The buffer has the table's count for `order`
      entries and the recurrence writes only inside it; entry `m` is the
      monomial of `x` for the `m`-th multi-index of the enumeration, in any
      dimension. The sentinel `heads[dim] = MAXINT` is never read and is left
      out. */
  method MonomialVector(a: Aux, x: seq<real>, order: int) returns (tmp: seq<real>)
    requires Valid(a) && CountsMultiIndices(a)
    requires 0 <= order <= a.maxOrder && |x| == a.dim
    ensures |tmp| == a.totals[order] == |Generated(a.dim, order)|
    ensures forall m :: 0 <= m < |tmp| ==> tmp[m] == Monomial(x, Generated(a.dim, order)[m], a.dim)
  {
    var dim := a.dim;
    var total := a.totals[order];
    TotalCountMonotone(dim, 0, order);
    tmp := Zeros(total);
    var heads: seq<int> := seq(dim, _ => 0);
    tmp := tmp[0 := 1.0];
    FirstMonomial(tmp, x);
    var k, t := 0, 1;
    while k < order
      invariant 0 <= k <= order
      invariant |tmp| == total
      invariant t == TotalCount(dim, k)
      invariant |heads| == dim
      invariant forall i :: 0 <= i < dim ==> heads[i] == t - DegreeCount(dim, k, i)
      invariant MonomialsUpTo(tmp, x, Generated(dim, k), t)
    {
      var next := k + 1;
      tmp, heads, t := NextDegree(dim, next, order, x, tmp, heads);
      k := next;
    }
  }

  /** The series with all coefficients zero is zero. */
  lemma {:induction false} SeriesOfZeros(c: seq<real>, x: seq<real>, g: seq<seq<nat>>, n: nat)
    requires n <= |c| && n <= |g|
    requires forall j :: 0 <= j < |c| ==> c[j] == 0.0
    ensures SeriesAt(c, x, g, n) == 0.0
  {
    if n > 0 {
      SeriesOfZeros(c, x, g, n - 1);
    }
  }

  /** At order 0 the series is the zero-order coefficient. */
  lemma SeriesAtOrderZero(c: seq<real>, x: seq<real>)
    requires |c| >= 1
    ensures SeriesAt(c, x, Generated(|x|, 0), 1) == c[0]
  {
    MonomialOfZeros(x, Generated(|x|, 0)[0], |x|);
  }

  /** A series whose first monomial is 1 and whose later monomials are 0 is
      its first coefficient. */
  lemma {:induction false} SeriesOfFirstMonomial(c: seq<real>, x: seq<real>, g: seq<seq<nat>>, n: nat)
    requires 1 <= n <= |c| && n <= |g|
    requires Monomial(x, g[0], |x|) == 1.0
    requires forall m :: 1 <= m < n ==> Monomial(x, g[m], |x|) == 0.0
    ensures SeriesAt(c, x, g, n) == c[0]
  {
    if n > 1 {
      SeriesOfFirstMonomial(c, x, g, n - 1);
    }
  }

  /** At the origin every monomial of the enumeration after the first
      vanishes, and the first is 1. */
  lemma OriginMonomials(x: seq<real>, o: nat)
    requires forall d :: 0 <= d < |x| ==> x[d] == 0.0
    ensures Monomial(x, Generated(|x|, o)[0], |x|) == 1.0
    ensures forall m :: 1 <= m < |Generated(|x|, o)| ==> Monomial(x, Generated(|x|, o)[m], |x|) == 0.0
  {
    var g := Generated(|x|, o);
    GeneratedPrefix(|x|, 0, o);
    assert g[0] == g[..1][0];
    MonomialOfZeros(x, g[0], |x|);
    forall m | 1 <= m < |g|
      ensures Monomial(x, g[m], |x|) == 0.0
    {
      OriginMonomialAt(x, o, m);
    }
  }

  /** Monomial `m > 0` of the enumeration vanishes at the origin. */
  lemma OriginMonomialAt(x: seq<real>, o: nat, m: nat)
    requires forall d :: 0 <= d < |x| ==> x[d] == 0.0
    requires 1 <= m < |Generated(|x|, o)|
    ensures Monomial(x, Generated(|x|, o)[m], |x|) == 0.0
  {
    var alpha := Generated(|x|, o)[m];
    GeneratedLaterDegree(|x|, o, m);
    GeneratedEntryShaped(|x|, o, m);
    var d := PositiveExponent(alpha);
    MonomialVanishes(x, alpha, |x|, d);
  }

  /** In one variable the series is the polynomial in `x[0]`. */
  lemma {:induction false} SeriesOneVariable(c: seq<real>, x: seq<real>, o: nat, n: nat)
    requires |x| == 1 && n <= o + 1 && n <= |c|
    ensures TotalCount(1, o) == o + 1
    ensures SeriesAt(c, x, Generated(1, o), n) == Polynomial(c, x[0], n)
  {
    GeneratedOneVariable(o);
    if n > 0 {
      SeriesOneVariable(c, x, o, n - 1);
    }
  }

  /** The scaled displacement `(x_q - center) / factor` of the query from the center. */
  function Displacement(a: Aux, kern: KernelOps, e: Local, q: Query): seq<real>
    requires WellFormed(a, e) && QueryOk(a, q)
    requires kern.bandwidthFactor(e.bandwidthSq) != 0.0
  {
    ScaledDiff(QueryPoint(a, q), e.center, kern.bandwidthFactor(e.bandwidthSq), a.dim)
  }

  /** Lines 290-292: the coefficients times the monomials, added in order,
      is the truncated series. */
  method SumProducts(c: seq<real>, tmp: seq<real>, x: seq<real>, ghost g: seq<seq<nat>>, n: int) returns (sum: real)
    requires 0 <= n <= |c| && n <= |tmp| && n <= |g|
    requires forall m :: 0 <= m < n ==> tmp[m] == Monomial(x, g[m], |x|)
    ensures sum == SeriesAt(c, x, g, n)
  {
    sum := 0.0;
    var i := 0;
    while i < n
      invariant 0 <= i <= n
      invariant sum == SeriesAt(c, x, g, i)
    {
      sum := sum + c[i] * tmp[i];
      i := i + 1;
    }
  }

  /** The value EvaluateField stands for: the truncated series of the
      coefficients at the scaled displacement of the query, over the table's
      count for the current order, with the multi-indices of the
      recurrence's enumeration. */
  ghost function FieldValue(a: Aux, kern: KernelOps, e: Local, q: Query): real
    requires WellFormed(a, e) && CountsMultiIndices(a) && QueryOk(a, q)
    requires kern.bandwidthFactor(e.bandwidthSq) != 0.0
  {
    SeriesAt(e.coeffs, Displacement(a, kern, e, q), Generated(a.dim, e.order), a.totals[e.order])
  }

  /** At order 0 the value is the zero-order coefficient wherever the query lies. */
  lemma FieldAtOrderZero(a: Aux, kern: KernelOps, e: Local, q: Query)
    requires WellFormed(a, e) && CountsMultiIndices(a) && QueryOk(a, q)
    requires kern.bandwidthFactor(e.bandwidthSq) != 0.0
    requires e.order == 0
    ensures FieldValue(a, kern, e, q) == e.coeffs[0]
  {
    TotalsFitBuffer(a, e.order);
    SeriesAtOrderZero(e.coeffs, Displacement(a, kern, e, q));
  }

  /** In one dimension the value is the polynomial with the first `order + 1`
      coefficients at the displacement. */
  lemma FieldOneVariable(a: Aux, kern: KernelOps, e: Local, q: Query)
    requires WellFormed(a, e) && CountsMultiIndices(a) && QueryOk(a, q)
    requires kern.bandwidthFactor(e.bandwidthSq) != 0.0
    requires a.dim == 1 && e.order < |e.coeffs|
    ensures FieldValue(a, kern, e, q) == Polynomial(e.coeffs, Displacement(a, kern, e, q)[0], e.order + 1)
  {
    GeneratedOneVariable(e.order);
    SeriesOneVariable(e.coeffs, Displacement(a, kern, e, q), e.order, a.totals[e.order]);
  }

  /** A zeroed expansion has the value 0 everywhere. */
  lemma FieldOfZeros(a: Aux, kern: KernelOps, e: Local, q: Query)
    requires WellFormed(a, e) && CountsMultiIndices(a) && QueryOk(a, q)
    requires kern.bandwidthFactor(e.bandwidthSq) != 0.0
    requires forall j :: 0 <= j < |e.coeffs| ==> e.coeffs[j] == 0.0
    ensures FieldValue(a, kern, e, q) == 0.0
  {
    SeriesOfZeros(e.coeffs, Displacement(a, kern, e, q), Generated(a.dim, e.order), a.totals[e.order]);
  }

  /** At the expansion's own center the displacement is zero and the value
      is the zero-order coefficient, at any order and in any dimension. */
  lemma FieldAtCenter(a: Aux, kern: KernelOps, e: Local, q: Query)
    requires WellFormed(a, e) && CountsMultiIndices(a) && QueryOk(a, q)
    requires kern.bandwidthFactor(e.bandwidthSq) != 0.0
    requires forall i :: 0 <= i < a.dim ==> QueryPoint(a, q)[i] == e.center[i]
    ensures FieldValue(a, kern, e, q) == e.coeffs[0]
  {
    var x := Displacement(a, kern, e, q);
    assert forall d :: 0 <= d < |x| ==> x[d] == 0.0;
    TotalsFitBuffer(a, e.order);
    OriginMonomials(x, e.order);
    SeriesOfFirstMonomial(e.coeffs, x, Generated(a.dim, e.order), a.totals[e.order]);
  }

  /** EvaluateField: the truncated series of the expansion at the scaled
      displacement of the query (FieldValue). At order 0, and at the
      expansion's own center, the value is the zero-order coefficient; in
      one dimension it is the polynomial with the coefficients up to the
      order; a zeroed expansion evaluates to 0. The expansion is a value and
      is not changed. */
  method EvaluateField(a: Aux, kern: KernelOps, e: Local, q: Query) returns (sum: real)
    requires WellFormed(a, e) && CountsMultiIndices(a)
    requires QueryOk(a, q)
    requires kern.bandwidthFactor(e.bandwidthSq) != 0.0
    ensures a.totals[e.order] == |Generated(a.dim, e.order)|
    ensures sum == FieldValue(a, kern, e, q)
    ensures e.order == 0 ==> sum == e.coeffs[0]
    ensures a.dim == 1 && e.order < |e.coeffs| ==>
      sum == Polynomial(e.coeffs, Displacement(a, kern, e, q)[0], e.order + 1)
    ensures (forall j :: 0 <= j < |e.coeffs| ==> e.coeffs[j] == 0.0) ==> sum == 0.0
    ensures (forall i :: 0 <= i < a.dim ==> QueryPoint(a, q)[i] == e.center[i]) ==> sum == e.coeffs[0]
  {
    var total := a.totals[e.order];
    TotalsFitBuffer(a, e.order);
    var x := Displacement(a, kern, e, q);
    var tmp := MonomialVector(a, x, e.order);
    sum := SumProducts(e.coeffs, tmp, x, Generated(a.dim, e.order), total);
    assert sum == FieldValue(a, kern, e, q);
    if e.order == 0 {
      FieldAtOrderZero(a, kern, e, q);
    }
    if a.dim == 1 && e.order < |e.coeffs| {
      FieldOneVariable(a, kern, e, q);
    }
    if forall j :: 0 <= j < |e.coeffs| ==> e.coeffs[j] == 0.0 {
      FieldOfZeros(a, kern, e, q);
    }
    if forall i :: 0 <= i < a.dim ==> QueryPoint(a, q)[i] == e.center[i] {
      FieldAtCenter(a, kern, e, q);
    }
  }

  /** A table that lists its multi-indices in the order of the recurrence:
      its counts are the multi-index counts and position `p` holds the
      `p`-th multi-index of the enumeration. */
  ghost predicate ListsInRecurrenceOrder(a: Aux) {
    && CountsMultiIndices(a)
    && forall p :: 0 <= p < |a.multiindex| && p < |Generated(a.dim, a.maxOrder)| ==>
         a.multiindex[p] == Generated(a.dim, a.maxOrder)[p]
  }

  /** With such a table, coefficient `j` multiplies the monomial of the
      table's own multi-index `j`, at every order: EvaluateField computes
      the Taylor series the coefficients stand for. */
  lemma TableOrderMatchesRecurrence(a: Aux, order: nat)
    requires Valid(a) && ListsInRecurrenceOrder(a) && order <= a.maxOrder
    ensures forall j :: 0 <= j < a.totals[order] ==> a.multiindex[j] == Generated(a.dim, order)[j]
  {
    GeneratedPrefix(a.dim, order, a.maxOrder);
    forall j | 0 <= j < a.totals[order]
      ensures a.multiindex[j] == Generated(a.dim, order)[j]
    {
      assert Generated(a.dim, order)[j] == Generated(a.dim, a.maxOrder)[j];
    }
  }
}
