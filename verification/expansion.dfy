/** The kernel routines the expansion calls without showing them. */
module Kernel {

  /** - `bandwidthSqOf(h)`: the squared bandwidth the kernel records when it
        is initialised with bandwidth `h` (kernel_.Init, bandwidth_sq());
      - `bandwidthFactor(h2)`: KernelDerivative::BandwidthFactor;
      - `partialDerivative(x, alpha)`: the partial derivative of the kernel
        for multi-index `alpha` at the scaled displacement `x`, that is
        ComputeDirectionalDerivatives followed by ComputePartialDerivative. */
  datatype KernelOps = KernelOps(
    bandwidthSqOf: real -> real,
    bandwidthFactor: real -> real,
    partialDerivative: (seq<real>, seq<int>) -> real)
}

/** The state of a local expansion and of the far-field expansion it reads,
    their initialisation and setters, and the shape every additive update
    (accumulation and both translations) has. */
module Expansion {
  import opened Sums
  import opened SeriesAux
  import opened Kernel

  /** LocalExpansion: center, truncation order, coefficient buffer and the
      kernel's squared bandwidth. The getters are the fields. */
  datatype Local = Local(center: seq<real>, order: int, coeffs: seq<real>, bandwidthSq: real)

  /** The far-field expansion a local expansion translates from, read only. */
  datatype FarField = FarField(center: seq<real>, order: int, coeffs: seq<real>, bandwidthSq: real)

  /** A local expansion the table can serve: a center of the table's
      dimension, an order the table supports, and a buffer of the table's
      maximum size. */
  ghost predicate WellFormed(a: Aux, e: Local) {
    && Valid(a)
    && |e.center| == a.dim
    && 0 <= e.order <= a.maxOrder
    && |e.coeffs| == a.MaxTotalNumCoeffs()
  }

  /** A far-field expansion the table can serve. */
  ghost predicate FarWellFormed(a: Aux, f: FarField) {
    && Valid(a)
    && |f.center| == a.dim
    && 0 <= f.order <= a.maxOrder
    && |f.coeffs| >= a.totals[f.order]
  }

  /** `(u - v) / factor` in the first `dim` coordinates. */
  function ScaledDiff(u: seq<real>, v: seq<real>, factor: real, dim: nat): seq<real>
    requires |u| >= dim && |v| >= dim && factor != 0.0
  {
    seq(dim, i requires 0 <= i < dim => (u[i] - v[i]) / factor)
  }

  function Zeros(n: nat): seq<real> {
    seq(n, _ => 0.0)
  }

  /** Init(bandwidth, center, sea): order 0, a zeroed buffer of the table's
      maximum size, and the given center. */
  function Init(a: Aux, kern: KernelOps, bandwidth: real, center: seq<real>): (e: Local)
    requires Valid(a)
    ensures e.order == 0 && e.center == center
    ensures e.bandwidthSq == kern.bandwidthSqOf(bandwidth)
    ensures |e.coeffs| == a.MaxTotalNumCoeffs()
    ensures forall j :: 0 <= j < |e.coeffs| ==> e.coeffs[j] == 0.0
    ensures |center| == a.dim <==> WellFormed(a, e)
  {
    Local(center, 0, Zeros(a.MaxTotalNumCoeffs()), kern.bandwidthSqOf(bandwidth))
  }

  /** Init(bandwidth, sea): as Init, but the center is only allocated with
      the table's dimension and its entries are not set. `unsetCenter`
      stands for whatever those entries hold. */
  function InitWithoutCenter(a: Aux, kern: KernelOps, bandwidth: real, unsetCenter: seq<real>): (e: Local)
    requires Valid(a) && |unsetCenter| == a.dim
    ensures WellFormed(a, e)
    ensures e.order == 0
    ensures |e.center| == a.dim
    ensures forall j :: 0 <= j < |e.coeffs| ==> e.coeffs[j] == 0.0
    ensures e.bandwidthSq == kern.bandwidthSqOf(bandwidth)
  {
    Init(a, kern, bandwidth, unsetCenter)
  }

  /** set_order: replaces the order and nothing else; unlike the updates
      below it can lower the order. */
  function SetOrder(e: Local, newOrder: int): (r: Local)
    ensures r.order == newOrder
    ensures r.center == e.center && r.coeffs == e.coeffs && r.bandwidthSq == e.bandwidthSq
  {
    e.(order := newOrder)
  }

  /** Setting the order keeps the expansion well formed exactly when the
      new order is one the table supports. */
  lemma SetOrderKeepsWellFormed(a: Aux, e: Local, newOrder: int)
    requires WellFormed(a, e)
    ensures WellFormed(a, SetOrder(e, newOrder)) <==> 0 <= newOrder <= a.maxOrder
  {
  }

  /** RefineCoeffs does not apply to local expansions: whatever the points,
      weights, range and order, the expansion is left as it was. */
  function RefineCoeffs(e: Local, points: seq<seq<real>>, weights: seq<real>,
                        begin: int, end: int, order: int): (r: Local)
    ensures r == e
  {
    e
  }

  /** The shape of every update into a local expansion: the order becomes
      the larger of the old order and `newOrder`; the center, bandwidth and
      buffer size stay; coefficient `j` grows by `delta[j]` when `j < limit`
      and is untouched otherwise. The update adds into the coefficients and
      never overwrites them. */
  ghost predicate AddsInto(e: Local, r: Local, newOrder: int, limit: nat, delta: seq<real>) {
    && |delta| >= limit
    && r.order == Max(e.order, newOrder)
    && r.center == e.center
    && r.bandwidthSq == e.bandwidthSq
    && |r.coeffs| == |e.coeffs|
    && forall j :: 0 <= j < |e.coeffs| ==>
         r.coeffs[j] == e.coeffs[j] + (if j < limit then delta[j] else 0.0)
  }

  /** An update keeps an expansion well formed when its order is one the
      table supports. */
  lemma AddsIntoKeepsWellFormed(a: Aux, e: Local, r: Local, newOrder: int, limit: nat, delta: seq<real>)
    requires WellFormed(a, e) && AddsInto(e, r, newOrder, limit, delta)
    requires 0 <= newOrder <= a.maxOrder
    ensures WellFormed(a, r)
  {
  }

  /** Two additive updates commute: applying them in either order gives the
      same expansion, so contributions from many sources can be combined in
      any order before evaluating. */
  lemma {:induction false} AddsIntoCommute(e: Local, r1: Local, r12: Local, r2: Local, r21: Local,
                                           o1: int, n1: nat, d1: seq<real>,
                                           o2: int, n2: nat, d2: seq<real>)
    requires AddsInto(e, r1, o1, n1, d1) && AddsInto(r1, r12, o2, n2, d2)
    requires AddsInto(e, r2, o2, n2, d2) && AddsInto(r2, r21, o1, n1, d1)
    ensures r12 == r21
  {
    assert r12.coeffs == r21.coeffs by {
      forall j | 0 <= j < |e.coeffs|
        ensures r12.coeffs[j] == r21.coeffs[j]
      {
      }
    }
  }

  /** Two additive updates in a row are one additive update by the sum of
      their increments up to the larger limit. */
  lemma AddsIntoCompose(e: Local, r1: Local, r12: Local,
                        o1: int, n1: nat, d1: seq<real>,
                        o2: int, n2: nat, d2: seq<real>)
    requires AddsInto(e, r1, o1, n1, d1) && AddsInto(r1, r12, o2, n2, d2)
    ensures AddsInto(e, r12, Max(o1, o2), Max(n1, n2),
                     seq(Max(n1, n2), j requires 0 <= j < Max(n1, n2) => (if j < n1 then d1[j] else 0.0) + (if j < n2 then d2[j] else 0.0)))
  {
  }
}
