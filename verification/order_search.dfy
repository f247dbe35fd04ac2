/** LocalExpansion::OrderForEvaluating: the smallest truncation order whose
    tail bound over a target region meets an error target. */
module OrderSearch {
  import opened Sums
  import opened SeriesAux
  import opened Expansion

  /** One side of the target region's bounding box (DRange). */
  datatype Range = Range(lo: real, hi: real)

  function Width(r: Range): real {
    r.hi - r.lo
  }

  function MaxReal(x: real, y: real): real {
    if x < y then y else x
  }

  /** The widest side of the box, starting from 0 as the source does: it is
      at least every side's width and at least 0, and it is one of the
      widths unless it is 0. */
  function WidestWidth(region: seq<Range>): (w: real)
    ensures w >= 0.0
    ensures forall d :: 0 <= d < |region| ==> Width(region[d]) <= w
    ensures w == 0.0 || exists d :: 0 <= d < |region| && w == Width(region[d])
    decreases |region|
  {
    if |region| == 0 then 0.0
    else MaxReal(WidestWidth(region[..|region| - 1]), Width(region[|region| - 1]))
  }

  /** Why the search gave no order: the region is too wide for the series to
      converge, no order up to the table's maximum meets the target, or a
      factorial the bound needs lies outside the table's range. The source
      signals all three as -1. */
  datatype Outcome =
    | Found(order: nat, actualError: real)
    | RegionTooWide
    | OrderCapacityExceeded
    | FactorialOutOfRange(atOrder: nat)

  /** The source's return value: the order, or the sentinel -1. */
  function ReturnValue(o: Outcome): (v: int)
    ensures v == -1 <==> !o.Found?
    ensures o.Found? ==> v == o.order
  {
    if o.Found? then o.order else -1
  }

  /** The widest side measured against twice the kernel's scale `sqrt(h^2)`. */
  function Ratio(region: seq<Range>, sqrtBandwidthSq: real): real
    requires sqrtBandwidthSq > 0.0
  {
    WidestWidth(region) / (2.0 * sqrtBandwidthSq)
  }

  /** `ceil(p / dim)` for a non-negative `p`, in integers. */
  function CeilDiv(p: nat, dim: nat): nat
    requires dim > 0
  {
    (p + dim - 1) / dim
  }

  /** The factorials of `floor(p / dim)` and `ceil(p / dim)` are both in the
      table's range (the table reports an out-of-range factorial as negative). */
  ghost predicate FactorialsOk(a: Aux, p: nat, dim: nat)
    requires dim > 0
  {
    a.factorial(p / dim) >= 0.0 && a.factorial(CeilDiv(p, dim)) >= 0.0
  }

  /** The bound at order `p`. `term(p, r^(p+1), floor_fact, ceil_fact)`
      stands for lines 375-378: the front factor `exp(-d^2 / 4h^2)` of the
      minimum squared distance, the number of coefficients of degree `p + 1`,
      and the square root of the factorial powers, all left abstract. */
  ghost function BoundAt(a: Aux, term: (nat, real, real, real) -> real, r: real, p: nat, dim: nat): real
    requires dim > 0
  {
    term(p, Pow(r, p + 1), a.factorial(p / dim), a.factorial(CeilDiv(p, dim)))
  }

  /** The search stops at order `p`: a factorial is out of range, or the bound meets the target. */
  ghost predicate Stops(a: Aux, term: (nat, real, real, real) -> real, r: real, maxError: real, p: nat, dim: nat)
    requires dim > 0
  {
    !FactorialsOk(a, p, dim) || BoundAt(a, term, r, p, dim) <= maxError
  }

  /** No order below `n` stops the search. */
  ghost predicate NoStopBelow(a: Aux, term: (nat, real, real, real) -> real, r: real, maxError: real, n: nat, dim: nat)
    requires dim > 0
  {
    forall q :: 0 <= q < n ==> !Stops(a, term, r, maxError, q, dim)
  }

  lemma NoStopExtend(a: Aux, term: (nat, real, real, real) -> real, r: real, maxError: real, n: nat, dim: nat)
    requires dim > 0
    requires NoStopBelow(a, term, r, maxError, n, dim) && !Stops(a, term, r, maxError, n, dim)
    ensures NoStopBelow(a, term, r, maxError, n + 1, dim)
  {
  }

  /** What OrderForEvaluating returns, stated without its loop. A ratio of 1
      or more fails at once. Otherwise the orders `0, 1, ...` are tried in
      turn and the first one at which the search stops decides: it is the
      answer, with its bound as the actual error, when its factorials are in
      range, and a factorial failure when they are not; when no order up to
      the maximum stops the search, the capacity is exceeded. */
  ghost predicate IsOutcome(a: Aux, region: seq<Range>, sqrtBandwidthSq: real, maxError: real,
                            term: (nat, real, real, real) -> real, out: Outcome)
    requires Valid(a) && |region| > 0 && sqrtBandwidthSq > 0.0
  {
    var r, dim := Ratio(region, sqrtBandwidthSq), |region|;
    if r >= 1.0 then out == RegionTooWide
    else match out
      case Found(p, err) =>
        && p <= a.maxOrder
        && FactorialsOk(a, p, dim)
        && err == BoundAt(a, term, r, p, dim)
        && err <= maxError
        && NoStopBelow(a, term, r, maxError, p, dim)
      case FactorialOutOfRange(p) =>
        && p <= a.maxOrder
        && !FactorialsOk(a, p, dim)
        && NoStopBelow(a, term, r, maxError, p, dim)
      case OrderCapacityExceeded =>
        NoStopBelow(a, term, r, maxError, a.maxOrder + 1, dim)
      case RegionTooWide => false
  }

  /** Lines 338-342: the widest side of the region, found by a running maximum from 0. */
  method WidestSide(region: seq<Range>) returns (widest: real)
    ensures widest == WidestWidth(region)
  {
    widest := 0.0;
    var d := 0;
    while d < |region|
      invariant 0 <= d <= |region|
      invariant widest == WidestWidth(region[..d])
    {
      assert region[..d + 1][..d] == region[..d];
      widest := MaxReal(widest, Width(region[d]));
      d := d + 1;
    }
    assert region[..|region|] == region;
  }

  /** OrderForEvaluating(local_region, min_dist_sqd_regions, max_error,
      actual_error): the first order, counting up from 0 and bounded by the
      table's maximum order, whose bound is at most `maxError`, with that
      bound as the actual error; a typed failure where the source returns
      -1. `sqrtBandwidthSq` is `sqrt(bandwidth_sq())`. The expansion is a
      value and is not changed. */
  method OrderForEvaluating(a: Aux, e: Local, region: seq<Range>, sqrtBandwidthSq: real,
                            maxError: real, term: (nat, real, real, real) -> real) returns (out: Outcome)
    requires Valid(a) && |region| > 0
    requires sqrtBandwidthSq > 0.0 && sqrtBandwidthSq * sqrtBandwidthSq == e.bandwidthSq
    ensures IsOutcome(a, region, sqrtBandwidthSq, maxError, term, out)
    ensures out == RegionTooWide <==> Ratio(region, sqrtBandwidthSq) >= 1.0
    ensures out.Found? ==> out.order <= a.maxOrder && out.actualError <= maxError
  {
    var dim := |region|;
    var widest := WidestSide(region);
    var r := widest / (2.0 * sqrtBandwidthSq);
    assert r == Ratio(region, sqrtBandwidthSq);
    if r >= 1.0 {
      return RegionTooWide;
    }
    var rPow := 1.0;
    var p := 0;
    while p <= a.maxOrder
      invariant 0 <= p <= a.maxOrder + 1
      invariant rPow == Pow(r, p)
      invariant NoStopBelow(a, term, r, maxError, p, dim)
    {
      rPow := rPow * r;
      var floorFact := a.factorial(p / dim);
      var ceilFact := a.factorial(CeilDiv(p, dim));
      if floorFact < 0.0 || ceilFact < 0.0 {
        return FactorialOutOfRange(p);
      }
      var ret := term(p, rPow, floorFact, ceilFact);
      assert rPow == Pow(r, p + 1);
      assert FactorialsOk(a, p, dim) && ret == BoundAt(a, term, r, p, dim);
      if ret > maxError {
        NoStopExtend(a, term, r, maxError, p, dim);
        p := p + 1;
      } else {
        return Found(p, ret);
      }
    }
    return OrderCapacityExceeded;
  }

  /** The outcome is determined by the inputs: two results that both meet
      the description are equal. */
  lemma {:induction false} OutcomeUnique(a: Aux, region: seq<Range>, sqrtBandwidthSq: real, maxError: real,
                                         term: (nat, real, real, real) -> real, o1: Outcome, o2: Outcome)
    requires Valid(a) && |region| > 0 && sqrtBandwidthSq > 0.0
    requires IsOutcome(a, region, sqrtBandwidthSq, maxError, term, o1)
    requires IsOutcome(a, region, sqrtBandwidthSq, maxError, term, o2)
    ensures o1 == o2
  {
    var r, dim := Ratio(region, sqrtBandwidthSq), |region|;
    if r < 1.0 {
      // both stop at the first order that stops the search, or neither stops
      var s1 := if o1.Found? then o1.order else if o1.FactorialOutOfRange? then o1.atOrder else a.maxOrder + 1;
      var s2 := if o2.Found? then o2.order else if o2.FactorialOutOfRange? then o2.atOrder else a.maxOrder + 1;
      if s1 < s2 {
        assert Stops(a, term, r, maxError, s1, dim);
      } else if s2 < s1 {
        assert Stops(a, term, r, maxError, s2, dim);
      }
    }
  }

  /** Allowing a larger error never asks for a higher order: if the search
      finds order `p` for `e1`, it finds an order at most `p` for any
      `e2 >= e1`. */
  lemma {:induction false} OrderMonotoneInError(a: Aux, region: seq<Range>, sqrtBandwidthSq: real,
                                                e1: real, e2: real, term: (nat, real, real, real) -> real,
                                                o1: Outcome, o2: Outcome)
    requires Valid(a) && |region| > 0 && sqrtBandwidthSq > 0.0
    requires e1 <= e2
    requires IsOutcome(a, region, sqrtBandwidthSq, e1, term, o1) && o1.Found?
    requires IsOutcome(a, region, sqrtBandwidthSq, e2, term, o2)
    ensures o2.Found? && o2.order <= o1.order
  {
    var r, dim := Ratio(region, sqrtBandwidthSq), |region|;
    var p1 := o1.order;
    assert Stops(a, term, r, e2, p1, dim);
    match o2
    case Found(p2, _) =>
    case FactorialOutOfRange(p2) =>
      if p2 < p1 {
        assert Stops(a, term, r, e1, p2, dim);
      }
    case OrderCapacityExceeded =>
    case RegionTooWide =>
  }
}
