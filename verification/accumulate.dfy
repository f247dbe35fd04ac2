/** LocalExpansion::AccumulateCoeffs: adding the local moments of a batch of
    weighted reference points into the coefficients. */
module Accumulate {
  import opened Sums
  import opened SeriesAux
  import opened Kernel
  import opened Expansion

  /** The range `[begin, end)` of the data may be read: either it is empty,
      or it lies inside both the points (`points[r]` is column `r` of the
      data matrix) and the weights, and each point has the table's dimension. */
  ghost predicate RangeOk(a: Aux, points: seq<seq<real>>, weights: seq<real>, begin: int, end: int) {
    || begin >= end
    || (&& 0 <= begin && end <= |points| && end <= |weights|
        && forall r :: begin <= r < end ==> |points[r]| >= a.dim)
  }

  /** The number of points the loop over `[begin, end)` visits. */
  function RangeLength(begin: int, end: int): nat {
    if begin < end then end - begin else 0
  }

  /** What point `r` adds to coefficient `j` of an expansion centred at
      `center`: the point's weight times the kernel derivative for
      multi-index `j` at the scaled displacement `(center - x_r) / factor`,
      times the negated inverse multi-index factorial of `j`. */
  function PointTerm(a: Aux, kern: KernelOps, center: seq<real>, bandwidthSq: real,
                     points: seq<seq<real>>, weights: seq<real>, j: int, r: int): real
    requires Valid(a) && |center| == a.dim && 0 <= j < a.MaxTotalNumCoeffs()
    requires 0 <= r < |points| && r < |weights| && |points[r]| >= a.dim
    requires kern.bandwidthFactor(bandwidthSq) != 0.0
  {
    a.negInvFactorials[j] * weights[r] *
      kern.partialDerivative(ScaledDiff(center, points[r], kern.bandwidthFactor(bandwidthSq), a.dim),
                             a.multiindex[j])
  }

  /** The terms coefficient `j` receives from the points of `[begin, end)`, in loop order. */
  ghost function PointTerms(a: Aux, kern: KernelOps, center: seq<real>, bandwidthSq: real,
                            points: seq<seq<real>>, weights: seq<real>, begin: int, end: int, j: int): (s: seq<real>)
    requires Valid(a) && |center| == a.dim && 0 <= j < a.MaxTotalNumCoeffs()
    requires RangeOk(a, points, weights, begin, end)
    requires kern.bandwidthFactor(bandwidthSq) != 0.0
    ensures |s| == RangeLength(begin, end)
  {
    seq(RangeLength(begin, end), i requires 0 <= i < RangeLength(begin, end) =>
      PointTerm(a, kern, center, bandwidthSq, points, weights, j, begin + i))
  }

  /** The increment of each of the first `totals[order]` coefficients. */
  ghost function Increments(a: Aux, kern: KernelOps, center: seq<real>, bandwidthSq: real,
                            points: seq<seq<real>>, weights: seq<real>, begin: int, end: int, order: int): (d: seq<real>)
    requires Valid(a) && |center| == a.dim && 0 <= order <= a.maxOrder
    requires RangeOk(a, points, weights, begin, end)
    requires kern.bandwidthFactor(bandwidthSq) != 0.0
    ensures |d| == a.totals[order]
  {
    TotalsFitBuffer(a, order);
    seq(a.totals[order], j requires 0 <= j < a.totals[order] =>
      Sum(PointTerms(a, kern, center, bandwidthSq, points, weights, begin, end, j)))
  }

  /** The derivative of the kernel for each of the first `total` multi-indices at `x`. */
  method PartialDerivatives(a: Aux, kern: KernelOps, x: seq<real>, total: int) returns (arrtmp: seq<real>)
    requires Valid(a) && 0 <= total <= a.MaxTotalNumCoeffs()
    ensures |arrtmp| == total
    ensures forall j :: 0 <= j < total ==> arrtmp[j] == kern.partialDerivative(x, a.multiindex[j])
  {
    arrtmp := [];
    var j := 0;
    while j < total
      invariant 0 <= j <= total
      invariant |arrtmp| == j
      invariant forall j' :: 0 <= j' < j ==> arrtmp[j'] == kern.partialDerivative(x, a.multiindex[j'])
    {
      arrtmp := arrtmp + [kern.partialDerivative(x, a.multiindex[j])];
      j := j + 1;
    }
  }

  /** What coefficient `j` has received from the first `i` points of the range. */
  ghost function Partial(a: Aux, kern: KernelOps, center: seq<real>, bandwidthSq: real,
                         points: seq<seq<real>>, weights: seq<real>, begin: int, end: int, j: int, i: int): real
    requires Valid(a) && |center| == a.dim && 0 <= j < a.MaxTotalNumCoeffs()
    requires RangeOk(a, points, weights, begin, end) && 0 <= i <= RangeLength(begin, end)
    requires kern.bandwidthFactor(bandwidthSq) != 0.0
  {
    Sum(PointTerms(a, kern, center, bandwidthSq, points, weights, begin, end, j)[..i])
  }

  /** Point `begin + i` adds its own term to what the first `i` points gave. */
  lemma PartialStep(a: Aux, kern: KernelOps, center: seq<real>, bandwidthSq: real,
                    points: seq<seq<real>>, weights: seq<real>, begin: int, end: int, j: int, i: int)
    requires Valid(a) && |center| == a.dim && 0 <= j < a.MaxTotalNumCoeffs()
    requires RangeOk(a, points, weights, begin, end) && 0 <= i < RangeLength(begin, end)
    requires kern.bandwidthFactor(bandwidthSq) != 0.0
    ensures Partial(a, kern, center, bandwidthSq, points, weights, begin, end, j, i + 1)
         == Partial(a, kern, center, bandwidthSq, points, weights, begin, end, j, i)
          + PointTerm(a, kern, center, bandwidthSq, points, weights, j, begin + i)
  {
    PrefixStep(PointTerms(a, kern, center, bandwidthSq, points, weights, begin, end, j), i);
  }

  /** All the points of the range give the whole sum. */
  lemma PartialWhole(a: Aux, kern: KernelOps, center: seq<real>, bandwidthSq: real,
                     points: seq<seq<real>>, weights: seq<real>, begin: int, end: int, j: int)
    requires Valid(a) && |center| == a.dim && 0 <= j < a.MaxTotalNumCoeffs()
    requires RangeOk(a, points, weights, begin, end)
    requires kern.bandwidthFactor(bandwidthSq) != 0.0
    ensures Partial(a, kern, center, bandwidthSq, points, weights, begin, end, j, RangeLength(begin, end))
         == Sum(PointTerms(a, kern, center, bandwidthSq, points, weights, begin, end, j))
  {
    var terms := PointTerms(a, kern, center, bandwidthSq, points, weights, begin, end, j);
    assert terms[..RangeLength(begin, end)] == terms;
  }

  /** The coefficients hold `e`'s plus, for each `j'` below `total`, what the
      first `i + 1` points gave when `j' < j` and the first `i` when not. */
  ghost predicate AccumulatedTo(a: Aux, kern: KernelOps, e: Local, points: seq<seq<real>>, weights: seq<real>,
                                begin: int, end: int, total: int, coeffs: seq<real>, i: int, j: int)
    requires WellFormed(a, e) && RangeOk(a, points, weights, begin, end)
    requires kern.bandwidthFactor(e.bandwidthSq) != 0.0
    requires 0 <= total <= a.MaxTotalNumCoeffs() && 0 <= i <= RangeLength(begin, end)
    requires i == RangeLength(begin, end) ==> j <= 0
  {
    && |coeffs| == |e.coeffs|
    && forall j' :: 0 <= j' < |coeffs| ==>
         coeffs[j'] == e.coeffs[j'] +
           (if j' < total
            then Partial(a, kern, e.center, e.bandwidthSq, points, weights, begin, end, j', if j' < j then i + 1 else i)
            else 0.0)
  }

  /** The inner loop of lines 179-190: adds point `begin + i`'s term to each
      coefficient below `total`, reading the derivatives from `arrtmp`. */
  method AddPoint(a: Aux, kern: KernelOps, e: Local, points: seq<seq<real>>, weights: seq<real>,
                  begin: int, end: int, total: int, coeffs: seq<real>, i: int, arrtmp: seq<real>)
    returns (coeffs': seq<real>)
    requires WellFormed(a, e) && RangeOk(a, points, weights, begin, end)
    requires kern.bandwidthFactor(e.bandwidthSq) != 0.0
    requires 0 <= total <= a.MaxTotalNumCoeffs() && 0 <= i < RangeLength(begin, end)
    requires |arrtmp| == total
    requires forall j :: 0 <= j < total ==>
      arrtmp[j] == kern.partialDerivative(ScaledDiff(e.center, points[begin + i], kern.bandwidthFactor(e.bandwidthSq), a.dim),
                                          a.multiindex[j])
    requires AccumulatedTo(a, kern, e, points, weights, begin, end, total, coeffs, i, 0)
    ensures AccumulatedTo(a, kern, e, points, weights, begin, end, total, coeffs', i + 1, 0)
  {
    var rr := begin + i;
    coeffs' := coeffs;
    var j := 0;
    while j < total
      invariant 0 <= j <= total
      invariant AccumulatedTo(a, kern, e, points, weights, begin, end, total, coeffs', i, j)
    {
      PartialStep(a, kern, e.center, e.bandwidthSq, points, weights, begin, end, j, i);
      coeffs' := coeffs'[j := coeffs'[j] + a.negInvFactorials[j] * weights[rr] * arrtmp[j]];
      j := j + 1;
    }
  }

  /** AccumulateCoeffs(data, weights, begin, end, order): raises the order
      to `order` if that is larger, and adds to each coefficient `j` below
      the count for the REQUESTED order the sum over the points of the range
      of that point's term. Nothing else changes; an empty range leaves the
      coefficients as they were. */
  method AccumulateCoeffs(a: Aux, kern: KernelOps, e: Local, points: seq<seq<real>>, weights: seq<real>,
                          begin: int, end: int, order: int) returns (r: Local)
    requires WellFormed(a, e)
    requires 0 <= order <= a.maxOrder
    requires RangeOk(a, points, weights, begin, end)
    requires kern.bandwidthFactor(e.bandwidthSq) != 0.0
    ensures WellFormed(a, r)
    ensures AddsInto(e, r, order, a.totals[order],
                     Increments(a, kern, e.center, e.bandwidthSq, points, weights, begin, end, order))
    ensures begin >= end ==> r.coeffs == e.coeffs
  {
    var newOrder := e.order;
    if order > newOrder {
      newOrder := order;
    }
    TotalsFitBuffer(a, order);
    var total := a.totals[order];
    var factor := kern.bandwidthFactor(e.bandwidthSq);
    var coeffs := e.coeffs;
    var n := RangeLength(begin, end);
    var i := 0;
    while i < n
      invariant 0 <= i <= n
      invariant AccumulatedTo(a, kern, e, points, weights, begin, end, total, coeffs, i, 0)
    {
      var x := ScaledDiff(e.center, points[begin + i], factor, a.dim);
      var arrtmp := PartialDerivatives(a, kern, x, total);
      coeffs := AddPoint(a, kern, e, points, weights, begin, end, total, coeffs, i, arrtmp);
      i := i + 1;
    }
    r := Local(e.center, newOrder, coeffs, e.bandwidthSq);
    forall j | 0 <= j < total
      ensures coeffs[j] == e.coeffs[j] + Increments(a, kern, e.center, e.bandwidthSq, points, weights, begin, end, order)[j]
    {
      PartialWhole(a, kern, e.center, e.bandwidthSq, points, weights, begin, end, j);
    }
  }

  /** Accumulating `[begin, mid)` and then `[mid, end)` is accumulating
      `[begin, end)` in one call: the batch may be split anywhere. */
  lemma AccumulateSplitRange(a: Aux, kern: KernelOps, e: Local, points: seq<seq<real>>, weights: seq<real>,
                             begin: int, mid: int, end: int, order: int, r1: Local, r2: Local)
    requires WellFormed(a, e) && 0 <= order <= a.maxOrder
    requires begin <= mid <= end && RangeOk(a, points, weights, begin, end)
    requires kern.bandwidthFactor(e.bandwidthSq) != 0.0
    requires AddsInto(e, r1, order, a.totals[order],
                      Increments(a, kern, e.center, e.bandwidthSq, points, weights, begin, mid, order))
    requires AddsInto(r1, r2, order, a.totals[order],
                      Increments(a, kern, r1.center, r1.bandwidthSq, points, weights, mid, end, order))
    ensures AddsInto(e, r2, order, a.totals[order],
                     Increments(a, kern, e.center, e.bandwidthSq, points, weights, begin, end, order))
  {
    var c, h := e.center, e.bandwidthSq;
    forall j | 0 <= j < a.totals[order]
      ensures Sum(PointTerms(a, kern, c, h, points, weights, begin, end, j))
           == Sum(PointTerms(a, kern, c, h, points, weights, begin, mid, j))
            + Sum(PointTerms(a, kern, c, h, points, weights, mid, end, j))
    {
      var whole := PointTerms(a, kern, c, h, points, weights, begin, end, j);
      var left := PointTerms(a, kern, c, h, points, weights, begin, mid, j);
      var right := PointTerms(a, kern, c, h, points, weights, mid, end, j);
      assert whole == left + right;
      SumAppend(left, right);
    }
  }
}
