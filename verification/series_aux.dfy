/** The precomputed multi-index table the expansion reads (SeriesExpansionAux).
    Its internals are not part of this model: the table is a record of the
    lookups the expansion makes, and `Valid` states what the expansion relies
    on about them. */
module SeriesAux {

  /** The table's lookups, as data.
      - `totals[o]`: get_total_num_coeffs(o), the number of multi-indices of
        total degree at most `o`;
      - `multiindex[p]`: get_multiindex(p), the exponent tuple at position `p`;
      - `negInvFactorials[p]`: get_neg_inv_multiindex_factorials()[p];
      - `factorial(n)`: factorial(n), negative when `n` lies outside the
        range the table precomputed;
      - `upperMapping[p]`: get_upper_mapping_index()[p], the positions that
        may contribute to position `p` in a local-to-local translation;
      - `multichoose[u][l]`: get_n_multichoose_k_by_pos(u, l). */
  datatype Aux = Aux(
    dim: nat,
    maxOrder: nat,
    totals: seq<nat>,
    multiindex: seq<seq<int>>,
    negInvFactorials: seq<real>,
    factorial: int -> real,
    upperMapping: seq<seq<int>>,
    multichoose: seq<seq<real>>)
  {
    /** get_max_total_num_coeffs(): the size of every coefficient buffer. */
    function MaxTotalNumCoeffs(): nat {
      |multiindex|
    }
  }

  /** What the expansion assumes of the table: one count per order up to the
      maximum, one coefficient at order 0, counts that never shrink as the
      order grows, the maximum order's count equal to the buffer size, and
      per-position lookups sized to match. */
  ghost predicate Valid(a: Aux) {
    && |a.totals| == a.maxOrder + 1
    && a.totals[0] == 1
    && (forall o1, o2 :: 0 <= o1 <= o2 <= a.maxOrder ==> a.totals[o1] <= a.totals[o2])
    && a.totals[a.maxOrder] == a.MaxTotalNumCoeffs()
    && (forall p :: 0 <= p < |a.multiindex| ==> |a.multiindex[p]| == a.dim)
    && |a.negInvFactorials| == a.MaxTotalNumCoeffs()
    && |a.upperMapping| == a.MaxTotalNumCoeffs()
    && (forall p, k :: 0 <= p < |a.upperMapping| && 0 <= k < |a.upperMapping[p]| ==> a.upperMapping[p][k] >= 0)
    && |a.multichoose| == a.MaxTotalNumCoeffs()
    && (forall u :: 0 <= u < |a.multichoose| ==> |a.multichoose[u]| == a.MaxTotalNumCoeffs())
  }

  /** Every order up to the maximum has at most as many coefficients as the buffer. */
  lemma TotalsFitBuffer(a: Aux, o: int)
    requires Valid(a) && 0 <= o <= a.maxOrder
    ensures 1 <= a.totals[o] <= a.MaxTotalNumCoeffs()
  {
  }

  /** The number of multi-indices in `dim` variables of total degree exactly
      `k` whose first non-zero exponent is at a variable `>= i`. The monomial
      recurrence of EvaluateField produces the degree-`k` monomials in blocks
      of these sizes, one block per variable. */
  function DegreeCount(dim: nat, k: nat, i: nat): nat
    decreases k, if i <= dim then dim - i else 0
  {
    if k == 0 then 1
    else if i >= dim then 0
    else DegreeCount(dim, k - 1, i) + DegreeCount(dim, k, i + 1)
  }

  /** The number of multi-indices in `dim` variables of total degree at most `o`. */
  function TotalCount(dim: nat, o: nat): (n: nat)
    ensures n >= 1
  {
    if o == 0 then 1 else TotalCount(dim, o - 1) + DegreeCount(dim, o, 0)
  }

  /** The table's counts are the multi-index counts, which the monomial
      recurrence of EvaluateField relies on. */
  ghost predicate CountsMultiIndices(a: Aux) {
    && |a.totals| == a.maxOrder + 1
    && forall o :: 0 <= o <= a.maxOrder ==> a.totals[o] == TotalCount(a.dim, o)
  }

  /** Fewer multi-indices start at a later variable. */
  lemma {:induction false} DegreeCountAntitone(dim: nat, k: nat, i: nat, i': nat)
    requires i <= i' <= dim
    ensures DegreeCount(dim, k, i') <= DegreeCount(dim, k, i)
    decreases i' - i
  {
    if i < i' && k > 0 {
      DegreeCountAntitone(dim, k, i + 1, i');
    }
  }

  /** In one variable there is exactly one multi-index of each degree. */
  lemma {:induction false} DegreeCountOneVariable(k: nat)
    ensures DegreeCount(1, k, 0) == 1
  {
    if k > 0 {
      DegreeCountOneVariable(k - 1);
      assert DegreeCount(1, k, 1) == 0;
    }
  }

  /** The multi-index count is at least 1 and grows with the order. */
  lemma {:induction false} TotalCountMonotone(dim: nat, o1: nat, o2: nat)
    requires o1 <= o2
    ensures 1 <= TotalCount(dim, o1) <= TotalCount(dim, o2)
    decreases o2
  {
    if o1 < o2 {
      TotalCountMonotone(dim, o1, o2 - 1);
    } else if o1 > 0 {
      TotalCountMonotone(dim, 0, o1 - 1);
    }
  }

  /** A table whose counts are the multi-index counts meets the minimum
      contracts `Valid` assumes of get_total_num_coeffs. */
  lemma CountingTableMeetsContracts(a: Aux)
    requires CountsMultiIndices(a)
    ensures a.totals[0] == 1
    ensures forall o1, o2 :: 0 <= o1 <= o2 <= a.maxOrder ==> a.totals[o1] <= a.totals[o2]
  {
    forall o1, o2 | 0 <= o1 <= o2 <= a.maxOrder
      ensures a.totals[o1] <= a.totals[o2]
    {
      TotalCountMonotone(a.dim, o1, o2);
    }
  }
}
