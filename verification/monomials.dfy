/** The multi-index enumeration that EvaluateField's monomial recurrence
    follows, and the monomials it computes: degree by degree, and within a
    degree one block per variable `i`, which raises variable `i` in the
    previous degree's multi-indices from variable `i`'s block on. */
module Monomials {
  import opened Sums
  import opened SeriesAux

  /** `alpha` with the exponent of variable `i` raised by one; a variable
      beyond `alpha`'s length leaves it as it is. */
  function Inc(alpha: seq<nat>, i: nat): (beta: seq<nat>)
    ensures |beta| == |alpha|
  {
    if i < |alpha| then alpha[i := alpha[i] + 1] else alpha
  }

  /** The exponent of variable `d` in `alpha`, 0 beyond its length. */
  function Exponent(alpha: seq<nat>, d: nat): nat {
    if d < |alpha| then alpha[d] else 0
  }

  /** Every multi-index of `mis` has `dim` entries. */
  ghost predicate Shaped(mis: seq<seq<nat>>, dim: nat) {
    forall m :: 0 <= m < |mis| ==> |mis[m]| == dim
  }

  /** A block of the previous degree ends where the previous degree ends. */
  lemma DegreeCountWithinTotal(dim: nat, k: nat, i: nat)
    ensures DegreeCount(dim, k, i) <= TotalCount(dim, k)
  {
    if i <= dim {
      DegreeCountAntitone(dim, k, 0, i);
    }
  }

  /** The `n` multi-indices of `prev` from `head` on, each with variable
      `i` raised by one. */
  ghost function Raise(prev: seq<seq<nat>>, head: nat, n: nat, i: nat): (r: seq<seq<nat>>)
    requires head + n <= |prev|
    ensures |r| == n
  {
    seq(n, m requires 0 <= m < n => Inc(prev[head + m], i))
  }

  lemma RaiseEntry(prev: seq<seq<nat>>, head: nat, n: nat, i: nat, m: int)
    requires head + n <= |prev| && 0 <= m < n
    ensures Raise(prev, head, n, i)[m] == Inc(prev[head + m], i)
  {
  }

  /** Indexing into the left part of a concatenation. */
  lemma ConcatLeft<T>(a: seq<T>, b: seq<T>, j: int)
    requires 0 <= j < |a|
    ensures (a + b)[j] == a[j]
  {
  }

  /** Indexing into the right part of a concatenation. */
  lemma ConcatRight<T>(a: seq<T>, b: seq<T>, j: int)
    requires 0 <= j < |b|
    ensures (a + b)[|a| + j] == b[j]
  {
  }

  /** The degree-`k` multi-indices for variables `i, i + 1, ...`, in
      recurrence order: for variable `i`, each of the last
      `DegreeCount(dim, k - 1, i)` multi-indices of `prev` (those of degree
      at most `k - 1`) with variable `i` raised by one; then the blocks of
      the later variables. */
  ghost function Blocks(prev: seq<seq<nat>>, dim: nat, k: nat, i: nat): (r: seq<seq<nat>>)
    requires 1 <= k && |prev| == TotalCount(dim, k - 1)
    ensures |r| == DegreeCount(dim, k, i)
    decreases if i <= dim then dim - i else 0
  {
    if i >= dim then []
    else
      DegreeCountWithinTotal(dim, k - 1, i);
      var n := DegreeCount(dim, k - 1, i);
      Raise(prev, TotalCount(dim, k - 1) - n, n, i) + Blocks(prev, dim, k, i + 1)
  }

  /** `x[0]^alpha[0] * ... * x[n-1]^alpha[n-1]`. */
  function Monomial(x: seq<real>, alpha: seq<nat>, n: nat): real
    requires n <= |x|
  {
    if n == 0 then 1.0 else Monomial(x, alpha, n - 1) * Pow(x[n - 1], Exponent(alpha, n - 1))
  }

  /** The total degree `alpha[0] + ... + alpha[|alpha|-1]`. */
  function Degree(alpha: seq<nat>): nat {
    if |alpha| == 0 then 0 else Degree(alpha[..|alpha| - 1]) + alpha[|alpha| - 1]
  }

  /** The first `n` entries of `s` are the monomials of `x` for the first
      `n` multi-indices of `g`. */
  ghost predicate MonomialsUpTo(s: seq<real>, x: seq<real>, g: seq<seq<nat>>, n: int) {
    && 0 <= n <= |s| && n <= |g|
    && forall m :: 0 <= m < n ==> s[m] == Monomial(x, g[m], |x|)
  }

  /** Monomials over exponents that agree in the first `n` places are equal. */
  lemma {:induction false} MonomialAgree(x: seq<real>, alpha: seq<nat>, beta: seq<nat>, n: nat)
    requires n <= |x|
    requires forall d :: 0 <= d < n ==> Exponent(alpha, d) == Exponent(beta, d)
    ensures Monomial(x, alpha, n) == Monomial(x, beta, n)
  {
    if n > 0 {
      MonomialAgree(x, alpha, beta, n - 1);
    }
  }

  /** `(m * p) * xi`, regrouped as `m * (p * xi)`. */
  lemma Associate(m: real, p: real, xi: real, lhs: real, pb: real)
    requires pb == p * xi && lhs == m * pb
    ensures lhs == (m * p) * xi
  {
  }

  /** `(m * xi) * p`, reordered as `(m * p) * xi`. */
  lemma Swap(m: real, p: real, xi: real, lhs: real, mb: real)
    requires mb == m * xi && lhs == mb * p
    ensures lhs == (m * p) * xi
  {
  }

  /** Raising the last variable of the first `n` multiplies its power by `x[n - 1]`. */
  lemma MonomialIncLast(x: seq<real>, alpha: seq<nat>, n: nat)
    requires 0 < n <= |x| && n - 1 < |alpha|
    ensures Monomial(x, Inc(alpha, n - 1), n) == Monomial(x, alpha, n) * x[n - 1]
  {
    var beta := Inc(alpha, n - 1);
    MonomialAgree(x, alpha, beta, n - 1);
    Associate(Monomial(x, alpha, n - 1), Pow(x[n - 1], alpha[n - 1]), x[n - 1],
              Monomial(x, beta, n), Pow(x[n - 1], beta[n - 1]));
  }

  /** Raising an earlier variable `i` leaves the power of variable `n - 1`
      as it is: the step for `n` follows from the step for `n - 1`. */
  lemma MonomialIncEarlier(x: seq<real>, alpha: seq<nat>, i: nat, n: nat)
    requires i < n - 1 && n <= |x| && i < |alpha|
    requires Monomial(x, Inc(alpha, i), n - 1) == Monomial(x, alpha, n - 1) * x[i]
    ensures Monomial(x, Inc(alpha, i), n) == Monomial(x, alpha, n) * x[i]
  {
    var beta := Inc(alpha, i);
    assert Exponent(beta, n - 1) == Exponent(alpha, n - 1);
    Swap(Monomial(x, alpha, n - 1), Pow(x[n - 1], Exponent(alpha, n - 1)), x[i], Monomial(x, beta, n), Monomial(x, beta, n - 1));
  }

  /** Raising variable `i` by one multiplies the monomial by `x[i]`: the step
      of the recurrence. */
  lemma {:induction false} MonomialInc(x: seq<real>, alpha: seq<nat>, i: nat, n: nat)
    requires i < n <= |x| && i < |alpha|
    ensures Monomial(x, Inc(alpha, i), n) == Monomial(x, alpha, n) * x[i]
  {
    if n - 1 == i {
      MonomialIncLast(x, alpha, n);
    } else {
      MonomialInc(x, alpha, i, n - 1);
      MonomialIncEarlier(x, alpha, i, n);
    }
  }

  /** Raising one exponent raises the degree by one. */
  lemma {:induction false} DegreeInc(alpha: seq<nat>, i: nat)
    requires i < |alpha|
    ensures Degree(Inc(alpha, i)) == Degree(alpha) + 1
    decreases |alpha|
  {
    var n := |alpha| - 1;
    assert Inc(alpha, i)[..n] == if i < n then Inc(alpha[..n], i) else alpha[..n];
    if i < n {
      DegreeInc(alpha[..n], i);
    }
  }

  /** The zero multi-index has degree 0. */
  lemma {:induction false} DegreeZeros(dim: nat)
    ensures Degree(seq(dim, _ => 0)) == 0
  {
    if dim > 0 {
      assert seq(dim, _ => 0)[..dim - 1] == seq(dim - 1, _ => 0);
      DegreeZeros(dim - 1);
    }
  }

  /** Position `m` of `g`, in a block that starts at `t`, holds the entry
      of `prev` at the same offset from `head` raised in variable `i`. */
  ghost predicate RaisedAt(g: seq<seq<nat>>, prev: seq<seq<nat>>, head: int, t: int, i: nat, m: int) {
    && 0 <= m < |g| && 0 <= m - t + head < |prev|
    && i < |prev[m - t + head]| && g[m] == Inc(prev[m - t + head], i)
  }

  /** From `t` on, `g` holds variable `i`'s block: the `len` entries of
      `prev` from `head` on, each raised in variable `i`. */
  ghost predicate BlockAt(g: seq<seq<nat>>, prev: seq<seq<nat>>, head: int, t: int, len: int, i: nat) {
    && 0 <= head && head + len <= |prev| && 0 <= len && 0 <= t && t + len <= |g|
    && forall m :: t <= m < t + len ==> RaisedAt(g, prev, head, t, i, m)
  }

  /** `after` agrees with `before` below `t` and holds
      `before[head + m] * xi` at `t + m` for `m < len`. */
  ghost predicate WritesBlock(before: seq<real>, after: seq<real>, t: int, head: int, len: int, xi: real) {
    && |after| == |before| && 0 <= head && 0 <= len && head + len <= t && t + len <= |before|
    && (forall m {:trigger after[m]} :: 0 <= m < t ==> after[m] == before[m])
    && (forall m {:trigger after[m]} :: t <= m < t + len ==> after[m] == before[m - t + head] * xi)
  }

  /** Writing variable `i`'s block extends the monomials: if `before`
      holds the monomials of `prev` (the previous degree) and of `g` up to
      `t`, `after` agrees with `before` below `t` and holds
      `before[head + m] * x[i]` at `t + m`, and the enumeration holds
      `Inc(prev[head + m], i)` there, then `after` holds both as well, the
      monomials of `g` now up to `t + len`. */
  lemma BlockMonomials(before: seq<real>, after: seq<real>, x: seq<real>, g: seq<seq<nat>>, prev: seq<seq<nat>>,
                       head: int, t: int, len: int, i: nat)
    requires i < |x| && |prev| <= t
    requires MonomialsUpTo(before, x, prev, |prev|) && MonomialsUpTo(before, x, g, t)
    requires BlockAt(g, prev, head, t, len, i)
    requires WritesBlock(before, after, t, head, len, x[i])
    ensures MonomialsUpTo(after, x, prev, |prev|) && MonomialsUpTo(after, x, g, t + len)
  {
    forall m | t <= m < t + len
      ensures after[m] == Monomial(x, g[m], |x|)
    {
      var src := m - t + head;
      assert RaisedAt(g, prev, head, t, i, m);
      BlockMonomialAt(after[m], before[src], x, prev[src], i);
    }
  }

  /** One entry of `BlockMonomials`: if `a = b * x[i]` and `b` is the
      monomial of `alpha`, then `a` is the monomial of `alpha` raised in
      variable `i`. */
  lemma BlockMonomialAt(a: real, b: real, x: seq<real>, alpha: seq<nat>, i: nat)
    requires i < |x| && i < |alpha|
    requires a == b * x[i] && b == Monomial(x, alpha, |x|)
    ensures a == Monomial(x, Inc(alpha, i), |x|)
  {
    MonomialInc(x, alpha, i, |x|);
  }

  /** The zero multi-index has the monomial 1. */
  lemma {:induction false} MonomialOfZeros(x: seq<real>, alpha: seq<nat>, n: nat)
    requires n <= |x|
    requires forall d :: 0 <= d < n ==> Exponent(alpha, d) == 0
    ensures Monomial(x, alpha, n) == 1.0
  {
    if n > 0 {
      MonomialOfZeros(x, alpha, n - 1);
    }
  }

  /** A buffer starting with 1 holds the monomial of degree 0. */
  lemma FirstMonomial(s: seq<real>, x: seq<real>)
    requires |s| >= 1 && s[0] == 1.0
    ensures MonomialsUpTo(s, x, Generated(|x|, 0), 1)
  {
    MonomialOfZeros(x, Generated(|x|, 0)[0], |x|);
  }

  /** A multi-index of positive degree has a positive exponent. */
  lemma {:induction false} PositiveExponent(alpha: seq<nat>) returns (d: nat)
    requires Degree(alpha) > 0
    ensures d < |alpha| && alpha[d] > 0
    decreases |alpha|
  {
    var n := |alpha| - 1;
    if alpha[n] > 0 {
      d := n;
    } else {
      d := PositiveExponent(alpha[..n]);
    }
  }

  /** A monomial with a positive exponent on a variable that is 0 vanishes. */
  lemma {:induction false} MonomialVanishes(x: seq<real>, alpha: seq<nat>, n: nat, d: nat)
    requires d < n <= |x| && x[d] == 0.0 && Exponent(alpha, d) > 0
    ensures Monomial(x, alpha, n) == 0.0
  {
    if d == n - 1 {
      PowOfZero(Exponent(alpha, d));
    } else {
      MonomialVanishes(x, alpha, n - 1, d);
    }
  }

  /** The multi-indices of degree at most `o` in `dim` variables, in the
      order the recurrence produces their monomials. */
  ghost function Generated(dim: nat, o: nat): (g: seq<seq<nat>>)
    ensures |g| == TotalCount(dim, o)
  {
    if o == 0 then [seq(dim, _ => 0)]
    else
      var prev := Generated(dim, o - 1);
      prev + Blocks(prev, dim, o, 0)
  }

  /** Entry `m` of the blocks from variable `i` on: in variable `i`'s own
      block, or else in the later variables' blocks. */
  lemma BlocksIndex(prev: seq<seq<nat>>, dim: nat, k: nat, i: nat, m: int)
    requires 1 <= k && |prev| == TotalCount(dim, k - 1)
    requires i < dim && 0 <= m < DegreeCount(dim, k, i)
    ensures DegreeCount(dim, k - 1, i) <= |prev|
    ensures DegreeCount(dim, k, i) == DegreeCount(dim, k - 1, i) + DegreeCount(dim, k, i + 1)
    ensures m < DegreeCount(dim, k - 1, i) ==>
      Blocks(prev, dim, k, i)[m] == Inc(prev[|prev| - DegreeCount(dim, k - 1, i) + m], i)
    ensures DegreeCount(dim, k - 1, i) <= m ==>
      Blocks(prev, dim, k, i)[m] == Blocks(prev, dim, k, i + 1)[m - DegreeCount(dim, k - 1, i)]
  {
    DegreeCountWithinTotal(dim, k - 1, i);
    var n := DegreeCount(dim, k - 1, i);
    var r := Raise(prev, |prev| - n, n, i);
    if m < n {
      ConcatLeft(r, Blocks(prev, dim, k, i + 1), m);
      RaiseEntry(prev, |prev| - n, n, i, m);
    } else {
      ConcatRight(r, Blocks(prev, dim, k, i + 1), m - n);
    }
  }

  /** Entry `m` of the enumeration of degree `o > 0`: one of degree
      `o - 1`, or else one of the new blocks. */
  lemma GeneratedIndex(dim: nat, o: nat, m: int)
    requires 0 < o && 0 <= m < TotalCount(dim, o)
    ensures TotalCount(dim, o) == TotalCount(dim, o - 1) + DegreeCount(dim, o, 0)
    ensures m < TotalCount(dim, o - 1) ==> Generated(dim, o)[m] == Generated(dim, o - 1)[m]
    ensures TotalCount(dim, o - 1) <= m ==>
      Generated(dim, o)[m] == Blocks(Generated(dim, o - 1), dim, o, 0)[m - TotalCount(dim, o - 1)]
  {
    var prev := Generated(dim, o - 1);
    var b := Blocks(prev, dim, o, 0);
    if m < |prev| {
      ConcatLeft(prev, b, m);
    } else {
      ConcatRight(prev, b, m - |prev|);
    }
  }

  /** Raising exponents keeps the number of variables: every block entry
      has `dim` entries when the previous degree's multi-indices do. */
  lemma {:induction false} BlocksShaped(prev: seq<seq<nat>>, dim: nat, k: nat, i: nat)
    requires 1 <= k && |prev| == TotalCount(dim, k - 1) && Shaped(prev, dim)
    ensures Shaped(Blocks(prev, dim, k, i), dim)
    decreases if i <= dim then dim - i else 0
  {
    if i < dim {
      BlocksShaped(prev, dim, k, i + 1);
      var b := Blocks(prev, dim, k, i);
      forall m | 0 <= m < |b|
        ensures |b[m]| == dim
      {
        BlocksIndex(prev, dim, k, i, m);
      }
    }
  }

  /** Every multi-index of the enumeration has `dim` entries. */
  lemma {:induction false} GeneratedShaped(dim: nat, o: nat)
    ensures Shaped(Generated(dim, o), dim)
  {
    if o > 0 {
      GeneratedShaped(dim, o - 1);
      BlocksShaped(Generated(dim, o - 1), dim, o, 0);
      var g := Generated(dim, o);
      forall m | 0 <= m < |g|
        ensures |g[m]| == dim
      {
        GeneratedIndex(dim, o, m);
      }
    }
  }

  /** Entry `m` of the enumeration has `dim` entries. */
  lemma GeneratedEntryShaped(dim: nat, o: nat, m: int)
    requires 0 <= m < TotalCount(dim, o)
    ensures |Generated(dim, o)[m]| == dim
  {
    GeneratedShaped(dim, o);
  }

  /** Entry `m` of variable `i`'s block, found at position `j` among the
      blocks of variables `i0, i0 + 1, ...`: the multi-index
      `|prev| - DegreeCount(dim, k - 1, i) + m` raised in variable `i`. */
  lemma {:induction false} BlocksEntry(prev: seq<seq<nat>>, dim: nat, k: nat, i0: nat, i: nat, m: int, j: int)
    requires 1 <= k && |prev| == TotalCount(dim, k - 1)
    requires i0 <= i < dim && 0 <= m < DegreeCount(dim, k - 1, i)
    requires j == DegreeCount(dim, k, i0) - DegreeCount(dim, k, i) + m
    ensures DegreeCount(dim, k - 1, i) <= |prev|
    ensures 0 <= j < |Blocks(prev, dim, k, i0)|
    ensures Blocks(prev, dim, k, i0)[j] == Inc(prev[|prev| - DegreeCount(dim, k - 1, i) + m], i)
    decreases i - i0
  {
    DegreeCountWithinTotal(dim, k - 1, i);
    BlockLayout(dim, k, i);
    if i0 == i {
      assert j == m;
      BlocksIndex(prev, dim, k, i, j);
    } else {
      BlockLayout(dim, k, i0);
      var j' := j - DegreeCount(dim, k - 1, i0);
      BlocksEntry(prev, dim, k, i0 + 1, i, m, j');
      BlocksIndex(prev, dim, k, i0, j);
      assert Blocks(prev, dim, k, i0)[j] == Blocks(prev, dim, k, i0 + 1)[j'];
    }
  }

  /** The block sizes of degree `k`: variable `i`'s block is one block of
      degree `k - 1` plus the later variables' blocks, and all of them fit
      between the counts of degrees `k - 1` and `k`. */
  lemma BlockLayout(dim: nat, k: nat, i: nat)
    requires 1 <= k && i < dim
    ensures DegreeCount(dim, k, i) == DegreeCount(dim, k - 1, i) + DegreeCount(dim, k, i + 1)
    ensures DegreeCount(dim, k - 1, i) <= TotalCount(dim, k - 1)
    ensures DegreeCount(dim, k, i) <= TotalCount(dim, k) - TotalCount(dim, k - 1)
  {
    DegreeCountWithinTotal(dim, k - 1, i);
    DegreeCountAntitone(dim, k, 0, i);
  }

  /** Entry `m` of the enumeration of degree `k`, within variable `i`'s
      block, which starts at `t`: the multi-index at the same offset from
      `head`, among the last `DegreeCount(dim, k - 1, i)` of degree at most
      `k - 1`, raised in variable `i`. */
  lemma BlockEntry(dim: nat, k: nat, i: nat, head: int, t: int, m: int)
    requires 1 <= k && i < dim
    requires head == TotalCount(dim, k - 1) - DegreeCount(dim, k - 1, i)
    requires t == TotalCount(dim, k) - DegreeCount(dim, k, i)
    requires t <= m < t + DegreeCount(dim, k - 1, i)
    ensures RaisedAt(Generated(dim, k), Generated(dim, k - 1), head, t, i, m)
  {
    BlockLayout(dim, k, i);
    GeneratedEntryShaped(dim, k - 1, m - t + head);
    GeneratedIndex(dim, k, m);
    BlocksEntry(Generated(dim, k - 1), dim, k, 0, i, m - t, m - TotalCount(dim, k - 1));
  }

  /** Where variable `i`'s block of degree `k` lies in the enumeration: it
      starts at `t = TotalCount(dim, k) - DegreeCount(dim, k, i)` and raises
      variable `i` in the last `len = DegreeCount(dim, k - 1, i)`
      multi-indices of degree at most `k - 1`, from `head` on. */
  lemma BlockEntries(dim: nat, k: nat, i: nat, head: int, t: int, len: int)
    requires 1 <= k && i < dim
    requires head == TotalCount(dim, k - 1) - DegreeCount(dim, k - 1, i)
    requires t == TotalCount(dim, k) - DegreeCount(dim, k, i)
    requires len == DegreeCount(dim, k - 1, i)
    ensures BlockAt(Generated(dim, k), Generated(dim, k - 1), head, t, len, i)
  {
    BlockLayout(dim, k, i);
    var prev, g := Generated(dim, k - 1), Generated(dim, k);
    forall m | t <= m < t + len
      ensures RaisedAt(g, prev, head, t, i, m)
    {
      BlockEntry(dim, k, i, head, t, m);
    }
  }

  /** The enumeration of degree `o` starts with that of degree `o - 1`. */
  lemma {:induction false} GeneratedPrefix(dim: nat, o1: nat, o2: nat)
    requires o1 <= o2
    ensures TotalCount(dim, o1) <= TotalCount(dim, o2)
    ensures Generated(dim, o2)[..TotalCount(dim, o1)] == Generated(dim, o1)
    decreases o2
  {
    if o1 < o2 {
      GeneratedPrefix(dim, o1, o2 - 1);
      var prev := Generated(dim, o2 - 1);
      assert Generated(dim, o2)[..|prev|] == prev;
      assert Generated(dim, o2)[..TotalCount(dim, o1)] == prev[..TotalCount(dim, o1)];
    }
  }

  /** In one variable the enumeration is `[0], [1], ..., [o]`, and the
      monomials are the powers. */
  lemma {:induction false} GeneratedOneVariable(o: nat)
    ensures TotalCount(1, o) == o + 1
    ensures forall m :: 0 <= m <= o ==> Generated(1, o)[m] == [m]
    ensures forall x: seq<real>, m :: |x| == 1 && 0 <= m <= o ==> Monomial(x, Generated(1, o)[m], 1) == Pow(x[0], m)
  {
    DegreeCountOneVariable(o);
    if o > 0 {
      GeneratedOneVariable(o - 1);
      DegreeCountOneVariable(o - 1);
      var prev := Generated(1, o - 1);
      var b := Blocks(prev, 1, o, 0);
      assert Blocks(prev, 1, o, 1) == [];
      assert b == [Inc(prev[o - 1], 0)];
      assert prev[o - 1] == [o - 1];
    }
  }

  /** Every entry of a block for degree `k` has degree `k`, when the last
      block of `prev` has degree `k - 1`. */
  lemma {:induction false} BlocksDegree(prev: seq<seq<nat>>, dim: nat, k: nat, i: nat)
    requires 1 <= k && |prev| == TotalCount(dim, k - 1) && Shaped(prev, dim)
    requires forall m :: TotalCount(dim, k - 1) - DegreeCount(dim, k - 1, 0) <= m < |prev| ==>
      Degree(prev[m]) == k - 1
    ensures forall m :: 0 <= m < |Blocks(prev, dim, k, i)| ==> Degree(Blocks(prev, dim, k, i)[m]) == k
    decreases if i <= dim then dim - i else 0
  {
    if i < dim {
      BlocksDegree(prev, dim, k, i + 1);
      var n := DegreeCount(dim, k - 1, i);
      var head := TotalCount(dim, k - 1) - n;
      DegreeCountAntitone(dim, k - 1, 0, i);
      DegreeCountWithinTotal(dim, k - 1, i);
      var b := Blocks(prev, dim, k, i);
      forall m | 0 <= m < |b|
        ensures Degree(b[m]) == k
      {
        BlocksIndex(prev, dim, k, i, m);
        if m < n {
          DegreeInc(prev[head + m], i);
        }
      }
    }
  }

  /** Every multi-index of the enumeration after the first has positive degree. */
  lemma {:induction false} GeneratedLaterDegree(dim: nat, o: nat, m: nat)
    requires 1 <= m < |Generated(dim, o)|
    ensures Degree(Generated(dim, o)[m]) >= 1
    decreases o
  {
    if o > 0 {
      GeneratedPrefix(dim, o - 1, o);
      var g, prev := Generated(dim, o), Generated(dim, o - 1);
      if m < TotalCount(dim, o - 1) {
        assert g[m] == g[..TotalCount(dim, o - 1)][m];
        GeneratedLaterDegree(dim, o - 1, m);
      } else {
        GeneratedDegrees(dim, o);
      }
    }
  }

  /** The enumeration is graded: every multi-index has degree at most `o`,
      and the last `DegreeCount(dim, o, 0)` of them, the block of degree
      `o`, have degree exactly `o`. */
  lemma {:induction false} GeneratedDegrees(dim: nat, o: nat)
    ensures forall m :: 0 <= m < |Generated(dim, o)| ==> Degree(Generated(dim, o)[m]) <= o
    ensures forall m :: TotalCount(dim, o) - DegreeCount(dim, o, 0) <= m < |Generated(dim, o)| ==>
      Degree(Generated(dim, o)[m]) == o
  {
    if o == 0 {
      DegreeZeros(dim);
    } else {
      GeneratedDegrees(dim, o - 1);
      GeneratedShaped(dim, o - 1);
      var prev := Generated(dim, o - 1);
      BlocksDegree(prev, dim, o, 0);
      var g := Generated(dim, o);
      forall m | 0 <= m < |g|
        ensures Degree(g[m]) <= o
        ensures TotalCount(dim, o) - DegreeCount(dim, o, 0) <= m ==> Degree(g[m]) == o
      {
        GeneratedIndex(dim, o, m);
      }
    }
  }
}
