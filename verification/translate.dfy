/** LocalExpansion::TranslateFromFarField and LocalExpansion::TranslateToLocal:
    shifting another expansion's coefficients into a local expansion, adding
    into what is already there. */
module Translate {
  import opened Sums
  import opened SeriesAux
  import opened Kernel
  import opened Expansion

  // ---------------------------------------------------------------------
  // Far field to local
  // ---------------------------------------------------------------------

  /** The multi-index `beta + alpha`, in the first `dim` places. */
  function AddIndex(beta: seq<int>, alpha: seq<int>, dim: nat): seq<int>
    requires |beta| >= dim && |alpha| >= dim
  {
    seq(dim, d requires 0 <= d < dim => beta[d] + alpha[d])
  }

  /** The scaled center difference `(center - far_center) / factor`, with the
      factor taken from the far field's bandwidth. */
  function FarCenterDiff(a: Aux, kern: KernelOps, center: seq<real>, far: FarField): seq<real>
    requires |center| == a.dim && |far.center| == a.dim
    requires kern.bandwidthFactor(far.bandwidthSq) != 0.0
  {
    ScaledDiff(center, far.center, kern.bandwidthFactor(far.bandwidthSq), a.dim)
  }

  /** Far coefficient `k` times the kernel derivative for `beta_j + alpha_k`:
      what far coefficient `k` contributes to local coefficient `j` before
      normalisation. */
  function FarTerm(a: Aux, kern: KernelOps, cd: seq<real>, far: FarField, j: int, k: int): real
    requires FarWellFormed(a, far)
    requires 0 <= j < a.MaxTotalNumCoeffs() && 0 <= k < a.totals[far.order]
  {
    TotalsFitBuffer(a, far.order);
    far.coeffs[k] * kern.partialDerivative(cd, AddIndex(a.multiindex[j], a.multiindex[k], a.dim))
  }

  /** The terms of local coefficient `j`, one per far coefficient, in loop order. */
  ghost function FarTerms(a: Aux, kern: KernelOps, cd: seq<real>, far: FarField, j: int): (s: seq<real>)
    requires FarWellFormed(a, far) && 0 <= j < a.MaxTotalNumCoeffs()
    ensures |s| == a.totals[far.order]
  {
    seq(a.totals[far.order], k requires 0 <= k < a.totals[far.order] => FarTerm(a, kern, cd, far, j, k))
  }

  /** What each of the first `totals[far.order]` local coefficients gains:
      the plain sum of its terms times the negated inverse multi-index
      factorial of `j`. */
  ghost function FarIncrements(a: Aux, kern: KernelOps, center: seq<real>, far: FarField): (d: seq<real>)
    requires FarWellFormed(a, far) && |center| == a.dim
    requires kern.bandwidthFactor(far.bandwidthSq) != 0.0
    ensures |d| == a.totals[far.order]
  {
    TotalsFitBuffer(a, far.order);
    var cd := FarCenterDiff(a, kern, center, far);
    seq(a.totals[far.order], j requires 0 <= j < a.totals[far.order] =>
      Sum(FarTerms(a, kern, cd, far, j)) * a.negInvFactorials[j])
  }

  /** Adds a product to the positive accumulator when it is positive and to
      the negative one otherwise. */
  method SplitAdd(pos: real, neg: real, prod: real) returns (pos': real, neg': real)
    ensures pos' == pos + PositivePart(prod) && neg' == neg + NonPositivePart(prod)
    ensures pos' + neg' == pos + neg + prod
  {
    if prod > 0.0 {
      pos', neg' := pos + prod, neg;
    } else {
      pos', neg' := pos, neg + prod;
    }
  }

  /** Lines 436-456 for one `j`: the products of the far coefficients with the
      derivatives, split into a positive and a negative accumulator. The
      positive one is never negative, the negative one never positive, and
      together they are the plain sum of the terms. */
  method SplitRow(a: Aux, kern: KernelOps, cd: seq<real>, far: FarField, j: int) returns (pos: real, neg: real)
    requires FarWellFormed(a, far) && 0 <= j < a.MaxTotalNumCoeffs()
    ensures pos >= 0.0 && neg <= 0.0
    ensures pos + neg == Sum(FarTerms(a, kern, cd, far, j))
    ensures pos == PosSum(FarTerms(a, kern, cd, far, j)) && neg == NegSum(FarTerms(a, kern, cd, far, j))
  {
    ghost var terms := FarTerms(a, kern, cd, far, j);
    var total := a.totals[far.order];
    pos, neg := 0.0, 0.0;
    var k := 0;
    while k < total
      invariant 0 <= k <= total
      invariant pos == PosSum(terms[..k]) && neg == NegSum(terms[..k])
    {
      var prod := FarTerm(a, kern, cd, far, j, k);
      PrefixStep(terms, k);
      pos, neg := SplitAdd(pos, neg, prod);
      k := k + 1;
    }
    assert terms[..total] == terms;
    SplitSum(terms);
  }

  /** Lines 434-457: the split accumulators for every local coefficient below
      the far field's count. */
  method FarFieldSplitSums(a: Aux, kern: KernelOps, cd: seq<real>, far: FarField)
    returns (posArr: seq<real>, negArr: seq<real>)
    requires FarWellFormed(a, far)
    ensures |posArr| == a.totals[far.order] && |negArr| == a.totals[far.order]
    ensures forall j :: 0 <= j < |posArr| ==>
      && posArr[j] >= 0.0 && negArr[j] <= 0.0
      && posArr[j] + negArr[j] == Sum(FarTerms(a, kern, cd, far, j))
  {
    var total := a.totals[far.order];
    TotalsFitBuffer(a, far.order);
    posArr, negArr := Zeros(total), Zeros(total);
    var j := 0;
    while j < total
      invariant 0 <= j <= total
      invariant |posArr| == total && |negArr| == total
      invariant forall j' :: 0 <= j' < j ==>
        && posArr[j'] >= 0.0 && negArr[j'] <= 0.0
        && posArr[j'] + negArr[j'] == Sum(FarTerms(a, kern, cd, far, j'))
    {
      var pos, neg := SplitRow(a, kern, cd, far, j);
      posArr, negArr := posArr[j := pos], negArr[j := neg];
      j := j + 1;
    }
  }

  /** TranslateFromFarField(se): raises the order to the far field's if that
      is larger, then adds to each local coefficient `j` below the FAR
      field's count `(pos_j + neg_j) * C_k_neg[j]`, which is the plain sum of
      its terms times the normalisation. The other coefficients, the center
      and the bandwidth are kept; the far field is only read. */
  method TranslateFromFarField(a: Aux, kern: KernelOps, e: Local, far: FarField) returns (r: Local)
    requires WellFormed(a, e) && FarWellFormed(a, far)
    requires kern.bandwidthFactor(far.bandwidthSq) != 0.0
    ensures WellFormed(a, r)
    ensures AddsInto(e, r, far.order, a.totals[far.order], FarIncrements(a, kern, e.center, far))
  {
    var total := a.totals[far.order];
    TotalsFitBuffer(a, far.order);
    var newOrder := e.order;
    if far.order > newOrder {
      newOrder := far.order;
    }
    var cd := ScaledDiff(e.center, far.center, kern.bandwidthFactor(far.bandwidthSq), a.dim);
    var posArr, negArr := FarFieldSplitSums(a, kern, cd, far);
    ghost var inc := FarIncrements(a, kern, e.center, far);
    var coeffs := e.coeffs;
    var j := 0;
    while j < total
      invariant 0 <= j <= total
      invariant |coeffs| == |e.coeffs|
      invariant forall j' :: 0 <= j' < |coeffs| ==>
        coeffs[j'] == e.coeffs[j'] + (if j' < j then inc[j'] else 0.0)
    {
      FarIncrementAt(a, kern, e.center, far, j);
      assert (posArr[j] + negArr[j]) * a.negInvFactorials[j] == inc[j];
      coeffs := coeffs[j := coeffs[j] + (posArr[j] + negArr[j]) * a.negInvFactorials[j]];
      j := j + 1;
    }
    r := Local(e.center, newOrder, coeffs, e.bandwidthSq);
  }

  /** Sums of two sequences of terms, term by term, add. */
  lemma {:induction false} SumPointwise(s: seq<real>, t: seq<real>, u: seq<real>)
    requires |s| == |t| == |u|
    requires forall i :: 0 <= i < |u| ==> u[i] == s[i] + t[i]
    ensures Sum(u) == Sum(s) + Sum(t)
    decreases |u|
  {
    if |u| > 0 {
      var n := |u| - 1;
      SumPointwise(s[..n], t[..n], u[..n]);
    }
  }

  /** `(c1 + c2) * p == c1 * p + c2 * p`. */
  lemma Distribute(c1: real, c2: real, p: real)
    ensures (c1 + c2) * p == c1 * p + c2 * p
  {
  }

  /** Entry `j` of the increments: the sum of its terms times its factor. */
  lemma FarIncrementAt(a: Aux, kern: KernelOps, center: seq<real>, far: FarField, j: int)
    requires FarWellFormed(a, far) && |center| == a.dim
    requires kern.bandwidthFactor(far.bandwidthSq) != 0.0
    requires 0 <= j < a.totals[far.order]
    ensures j < a.MaxTotalNumCoeffs()
    ensures FarIncrements(a, kern, center, far)[j]
         == Sum(FarTerms(a, kern, ScaledDiff(center, far.center, kern.bandwidthFactor(far.bandwidthSq), a.dim), far, j)) * a.negInvFactorials[j]
  {
    TotalsFitBuffer(a, far.order);
  }

  /** Term `k` of local coefficient `j` is additive in the far coefficients. */
  lemma FarTermAdd(a: Aux, kern: KernelOps, cd: seq<real>, f1: FarField, f2: FarField, f: FarField, j: int, k: int)
    requires FarWellFormed(a, f1) && FarWellFormed(a, f2) && FarWellFormed(a, f)
    requires f.order == f1.order == f2.order
    requires 0 <= j < a.MaxTotalNumCoeffs() && 0 <= k < a.totals[f.order]
    requires f.coeffs[k] == f1.coeffs[k] + f2.coeffs[k]
    ensures FarTerms(a, kern, cd, f, j)[k] == FarTerms(a, kern, cd, f1, j)[k] + FarTerms(a, kern, cd, f2, j)[k]
  {
    TotalsFitBuffer(a, f.order);
    Distribute(f1.coeffs[k], f2.coeffs[k], kern.partialDerivative(cd, AddIndex(a.multiindex[j], a.multiindex[k], a.dim)));
  }

  /** The terms of local coefficient `j` add up additively in the far coefficients. */
  lemma FarTermsAdd(a: Aux, kern: KernelOps, cd: seq<real>, f1: FarField, f2: FarField, f: FarField, j: int)
    requires FarWellFormed(a, f1) && FarWellFormed(a, f2) && FarWellFormed(a, f)
    requires f.order == f1.order == f2.order && 0 <= j < a.MaxTotalNumCoeffs()
    requires |f.coeffs| == |f1.coeffs| == |f2.coeffs|
    requires forall k :: 0 <= k < |f.coeffs| ==> f.coeffs[k] == f1.coeffs[k] + f2.coeffs[k]
    ensures Sum(FarTerms(a, kern, cd, f, j)) == Sum(FarTerms(a, kern, cd, f1, j)) + Sum(FarTerms(a, kern, cd, f2, j))
  {
    var s, t, u := FarTerms(a, kern, cd, f1, j), FarTerms(a, kern, cd, f2, j), FarTerms(a, kern, cd, f, j);
    forall k | 0 <= k < |u|
      ensures u[k] == s[k] + t[k]
    {
      FarTermAdd(a, kern, cd, f1, f2, f, j, k);
    }
    SumPointwise(s, t, u);
  }

  /** The scaled sum of local coefficient `j`'s terms is additive in the far coefficients. */
  lemma ScaledTermsAdd(a: Aux, kern: KernelOps, cd: seq<real>, f1: FarField, f2: FarField, f: FarField, j: int)
    requires FarWellFormed(a, f1) && FarWellFormed(a, f2) && FarWellFormed(a, f)
    requires f.order == f1.order == f2.order && 0 <= j < a.MaxTotalNumCoeffs()
    requires |f.coeffs| == |f1.coeffs| == |f2.coeffs|
    requires forall k :: 0 <= k < |f.coeffs| ==> f.coeffs[k] == f1.coeffs[k] + f2.coeffs[k]
    ensures Sum(FarTerms(a, kern, cd, f, j)) * a.negInvFactorials[j]
         == Sum(FarTerms(a, kern, cd, f1, j)) * a.negInvFactorials[j] + Sum(FarTerms(a, kern, cd, f2, j)) * a.negInvFactorials[j]
  {
    FarTermsAdd(a, kern, cd, f1, f2, f, j);
    Distribute(Sum(FarTerms(a, kern, cd, f1, j)), Sum(FarTerms(a, kern, cd, f2, j)), a.negInvFactorials[j]);
  }

  /** Local coefficient `j`'s increment is additive in the far coefficients. */
  lemma FarIncrementAdd(a: Aux, kern: KernelOps, center: seq<real>, f1: FarField, f2: FarField, f: FarField, j: int)
    requires FarWellFormed(a, f1) && FarWellFormed(a, f2) && FarWellFormed(a, f) && |center| == a.dim
    requires f.center == f1.center == f2.center && f.order == f1.order == f2.order
    requires f.bandwidthSq == f1.bandwidthSq == f2.bandwidthSq
    requires kern.bandwidthFactor(f.bandwidthSq) != 0.0
    requires |f.coeffs| == |f1.coeffs| == |f2.coeffs|
    requires forall k :: 0 <= k < |f.coeffs| ==> f.coeffs[k] == f1.coeffs[k] + f2.coeffs[k]
    requires 0 <= j < a.totals[f.order]
    ensures FarIncrements(a, kern, center, f)[j] == FarIncrements(a, kern, center, f1)[j] + FarIncrements(a, kern, center, f2)[j]
  {
    var cd := ScaledDiff(center, f.center, kern.bandwidthFactor(f.bandwidthSq), a.dim);
    FarIncrementAt(a, kern, center, f, j);
    FarIncrementAt(a, kern, center, f1, j);
    FarIncrementAt(a, kern, center, f2, j);
    ScaledTermsAdd(a, kern, cd, f1, f2, f, j);
  }

  /** Superposition: translating a far field whose coefficients are the sum
      of two far fields' (same center, order and bandwidth) adds exactly
      what translating the two separately adds. */
  lemma FarIncrementsAreLinear(a: Aux, kern: KernelOps, center: seq<real>, f1: FarField, f2: FarField, f: FarField)
    requires FarWellFormed(a, f1) && FarWellFormed(a, f2) && |center| == a.dim
    requires f.center == f1.center == f2.center && f.order == f1.order == f2.order
    requires f.bandwidthSq == f1.bandwidthSq == f2.bandwidthSq
    requires kern.bandwidthFactor(f.bandwidthSq) != 0.0
    requires |f.coeffs| == |f1.coeffs| == |f2.coeffs|
    requires forall k :: 0 <= k < |f.coeffs| ==> f.coeffs[k] == f1.coeffs[k] + f2.coeffs[k]
    ensures FarWellFormed(a, f)
    ensures forall j :: 0 <= j < a.totals[f.order] ==>
      FarIncrements(a, kern, center, f)[j] == FarIncrements(a, kern, center, f1)[j] + FarIncrements(a, kern, center, f2)[j]
  {
    forall j | 0 <= j < a.totals[f.order]
      ensures FarIncrements(a, kern, center, f)[j] == FarIncrements(a, kern, center, f1)[j] + FarIncrements(a, kern, center, f2)[j]
    {
      FarIncrementAdd(a, kern, center, f1, f2, f, j);
    }
  }

  /** Translations from two far fields into the same local expansion may be
      done in either order. */
  lemma FarFieldTranslationsCommute(a: Aux, kern: KernelOps, e: Local, f1: FarField, f2: FarField,
                                    r1: Local, r12: Local, r2: Local, r21: Local)
    requires WellFormed(a, e) && FarWellFormed(a, f1) && FarWellFormed(a, f2)
    requires kern.bandwidthFactor(f1.bandwidthSq) != 0.0 && kern.bandwidthFactor(f2.bandwidthSq) != 0.0
    requires AddsInto(e, r1, f1.order, a.totals[f1.order], FarIncrements(a, kern, e.center, f1))
    requires AddsInto(r1, r12, f2.order, a.totals[f2.order], FarIncrements(a, kern, r1.center, f2))
    requires AddsInto(e, r2, f2.order, a.totals[f2.order], FarIncrements(a, kern, e.center, f2))
    requires AddsInto(r2, r21, f1.order, a.totals[f1.order], FarIncrements(a, kern, r2.center, f1))
    ensures r12 == r21
  {
    AddsIntoCommute(e, r1, r12, r2, r21,
                    f1.order, a.totals[f1.order], FarIncrements(a, kern, e.center, f1),
                    f2.order, a.totals[f2.order], FarIncrements(a, kern, e.center, f2));
  }

  // ---------------------------------------------------------------------
  // Local to local
  // ---------------------------------------------------------------------

  /** How many entries of `list` the inner loop visits before it stops at the
      first entry `>= total`: every visited entry is below `total`, and the
      loop stops either at the end of the list or at an entry `>= total`. */
  function ContributorCount(list: seq<int>, total: int): (n: nat)
    ensures n <= |list|
    ensures forall k :: 0 <= k < n ==> list[k] < total
    ensures n == |list| || list[n] >= total
  {
    if |list| == 0 || list[0] >= total then 0 else 1 + ContributorCount(list[1..], total)
  }

  /** Every exponent of `beta` is at least the matching one of `alpha`. */
  predicate Above(beta: seq<int>, alpha: seq<int>, dim: nat)
    requires |beta| >= dim && |alpha| >= dim
  {
    forall l :: 0 <= l < dim ==> beta[l] - alpha[l] >= 0
  }

  /** `x[0]^e[0] * ... * x[n-1]^e[n-1]`, multiplied left to right. */
  function PowerProduct(x: seq<real>, e: seq<int>, n: nat): real
    requires n <= |x| && n <= |e|
    requires forall l :: 0 <= l < n ==> e[l] >= 0
  {
    if n == 0 then 1.0 else PowerProduct(x, e, n - 1) * Pow(x[n - 1], e[n - 1])
  }

  /** What source coefficient `u` contributes to destination coefficient
      `j`: nothing when some exponent of `u`'s multi-index is below `j`'s;
      otherwise the source coefficient times the scaled center difference
      raised to the exponent differences times the table's choose weight for
      `(u, j)`. */
  function LocalTerm(a: Aux, cd: seq<real>, src: Local, j: int, u: int): real
    requires WellFormed(a, src) && |cd| == a.dim
    requires 0 <= j < a.MaxTotalNumCoeffs() && 0 <= u < a.MaxTotalNumCoeffs()
  {
    var beta, alpha := a.multiindex[u], a.multiindex[j];
    if !Above(beta, alpha, a.dim) then 0.0
    else
      var diff := seq(a.dim, l requires 0 <= l < a.dim => beta[l] - alpha[l]);
      src.coeffs[u] * PowerProduct(cd, diff, a.dim) * a.multichoose[u][j]
  }

  /** The terms of destination coefficient `j`, one per visited entry of its upper mapping. */
  ghost function LocalTerms(a: Aux, cd: seq<real>, src: Local, j: int): (s: seq<real>)
    requires WellFormed(a, src) && |cd| == a.dim && 0 <= j < a.totals[src.order]
    ensures |s| == ContributorCount(a.upperMapping[j], a.totals[src.order])
  {
    TotalsFitBuffer(a, src.order);
    var list, total := a.upperMapping[j], a.totals[src.order];
    seq(ContributorCount(list, total), k requires 0 <= k < ContributorCount(list, total) =>
      LocalTerm(a, cd, src, j, list[k]))
  }

  /** What each of the first `totals[src.order]` destination coefficients gains. */
  ghost function LocalIncrements(a: Aux, kern: KernelOps, src: Local, destCenter: seq<real>): (d: seq<real>)
    requires WellFormed(a, src) && |destCenter| == a.dim
    requires kern.bandwidthFactor(src.bandwidthSq) != 0.0
    ensures |d| == a.totals[src.order]
  {
    var cd := ScaledDiff(destCenter, src.center, kern.bandwidthFactor(src.bandwidthSq), a.dim);
    seq(a.totals[src.order], j requires 0 <= j < a.totals[src.order] => Sum(LocalTerms(a, cd, src, j)))
  }

  /** Lines 527-534: the exponent differences `beta - alpha`, stopping at the
      first negative one. `ok` reports whether none is negative, and then
      `diff` holds all of them. */
  method ExponentDiff(beta: seq<int>, alpha: seq<int>, dim: nat) returns (diff: seq<int>, ok: bool)
    requires |beta| >= dim && |alpha| >= dim
    ensures |diff| == dim
    ensures ok <==> Above(beta, alpha, dim)
    ensures ok ==> forall l :: 0 <= l < dim ==> diff[l] == beta[l] - alpha[l]
  {
    diff := seq(dim, _ => 0);
    ok := true;
    var l := 0;
    while l < dim
      invariant 0 <= l <= dim && |diff| == dim
      invariant forall l' :: 0 <= l' < l ==> diff[l'] == beta[l'] - alpha[l'] && diff[l'] >= 0
    {
      diff := diff[l := beta[l] - alpha[l]];
      if diff[l] < 0 {
        ok := false;
        break;
      }
      l := l + 1;
    }
  }

  /** Lines 539-541: `diff1`, the product of the powers of the center difference. */
  method PowerProductLoop(x: seq<real>, e: seq<int>, dim: nat) returns (p: real)
    requires dim <= |x| && dim <= |e|
    requires forall l :: 0 <= l < dim ==> e[l] >= 0
    ensures p == PowerProduct(x, e, dim)
  {
    p := 1.0;
    var l := 0;
    while l < dim
      invariant 0 <= l <= dim
      invariant p == PowerProduct(x, e, l)
    {
      p := p * Pow(x[l], e[l]);
      l := l + 1;
    }
  }

  /** Lines 521-546 for one contributor `u`: 0 when an exponent difference
      is negative (the source skips it), otherwise the product of the source
      coefficient, the power product and the choose weight. */
  method ContributorTerm(a: Aux, cd: seq<real>, src: Local, j: int, u: int) returns (prod: real)
    requires WellFormed(a, src) && |cd| == a.dim
    requires 0 <= j < a.MaxTotalNumCoeffs() && 0 <= u < a.MaxTotalNumCoeffs()
    ensures prod == LocalTerm(a, cd, src, j, u)
  {
    var beta, alpha := a.multiindex[u], a.multiindex[j];
    var diff, ok := ExponentDiff(beta, alpha, a.dim);
    if !ok {
      return 0.0;
    }
    var diff1 := PowerProductLoop(cd, diff, a.dim);
    prod := src.coeffs[u] * diff1 * a.multichoose[u][j];
    assert diff == seq(a.dim, l requires 0 <= l < a.dim => beta[l] - alpha[l]);
  }

  /** Lines 511-553 for one `j`: the walk over the upper mapping of `j`,
      stopping at the first position at or beyond `total` (so every source
      coefficient read is in bounds), skipping contributors with a negative
      exponent difference, and splitting the products into a positive and a
      negative accumulator whose total is the plain sum of the terms. */
  method LocalRow(a: Aux, cd: seq<real>, src: Local, j: int) returns (pos: real, neg: real)
    requires WellFormed(a, src) && |cd| == a.dim && 0 <= j < a.totals[src.order]
    ensures pos >= 0.0 && neg <= 0.0
    ensures pos + neg == Sum(LocalTerms(a, cd, src, j))
  {
    TotalsFitBuffer(a, src.order);
    var total := a.totals[src.order];
    var list := a.upperMapping[j];
    ghost var terms := LocalTerms(a, cd, src, j);
    ghost var n := ContributorCount(list, total);
    pos, neg := 0.0, 0.0;
    var k := 0;
    while k < |list|
      invariant 0 <= k <= n
      invariant pos == PosSum(terms[..k]) && neg == NegSum(terms[..k])
    {
      if list[k] >= total {
        break;
      }
      var prod := ContributorTerm(a, cd, src, j, list[k]);
      PrefixStep(terms, k);
      pos, neg := SplitAdd(pos, neg, prod);
      k := k + 1;
    }
    assert terms[..n] == terms;
    SplitSum(terms);
  }

  /** TranslateToLocal(se): translates this expansion into the destination
      `dest`. The destination's order becomes the larger of its own and this
      expansion's; each destination coefficient `j` below THIS expansion's
      count gains `pos_coeffs + neg_coeffs`, the sum of its terms; nothing
      else in the destination changes. This expansion is only read. */
  method TranslateToLocal(a: Aux, kern: KernelOps, src: Local, dest: Local) returns (r: Local)
    requires WellFormed(a, src) && WellFormed(a, dest)
    requires kern.bandwidthFactor(src.bandwidthSq) != 0.0
    ensures WellFormed(a, r)
    ensures AddsInto(dest, r, src.order, a.totals[src.order], LocalIncrements(a, kern, src, dest.center))
  {
    TotalsFitBuffer(a, src.order);
    var total := a.totals[src.order];
    var factor := kern.bandwidthFactor(src.bandwidthSq);
    var cd := ScaledDiff(dest.center, src.center, factor, a.dim);
    var d := dest;
    if d.order < src.order {
      d := SetOrder(d, src.order);
    }
    ghost var inc := LocalIncrements(a, kern, src, dest.center);
    var coeffs := d.coeffs;
    var j := 0;
    while j < total
      invariant 0 <= j <= total
      invariant |coeffs| == |dest.coeffs|
      invariant forall j' :: 0 <= j' < |coeffs| ==>
        coeffs[j'] == dest.coeffs[j'] + (if j' < j then inc[j'] else 0.0)
    {
      var pos, neg := LocalRow(a, cd, src, j);
      coeffs := coeffs[j := coeffs[j] + (pos + neg)];
      j := j + 1;
    }
    r := d.(coeffs := coeffs);
  }

  /** Translations from two local expansions into the same destination may
      be done in either order. */
  lemma LocalTranslationsCommute(a: Aux, kern: KernelOps, dest: Local, s1: Local, s2: Local,
                                 r1: Local, r12: Local, r2: Local, r21: Local)
    requires WellFormed(a, dest) && WellFormed(a, s1) && WellFormed(a, s2)
    requires kern.bandwidthFactor(s1.bandwidthSq) != 0.0 && kern.bandwidthFactor(s2.bandwidthSq) != 0.0
    requires AddsInto(dest, r1, s1.order, a.totals[s1.order], LocalIncrements(a, kern, s1, dest.center))
    requires AddsInto(r1, r12, s2.order, a.totals[s2.order], LocalIncrements(a, kern, s2, r1.center))
    requires AddsInto(dest, r2, s2.order, a.totals[s2.order], LocalIncrements(a, kern, s2, dest.center))
    requires AddsInto(r2, r21, s1.order, a.totals[s1.order], LocalIncrements(a, kern, s1, r2.center))
    ensures r12 == r21
  {
    AddsIntoCommute(dest, r1, r12, r2, r21,
                    s1.order, a.totals[s1.order], LocalIncrements(a, kern, s1, dest.center),
                    s2.order, a.totals[s2.order], LocalIncrements(a, kern, s2, dest.center));
  }
}
