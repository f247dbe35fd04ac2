/** Sums of real sequences in the order a left-to-right loop forms them, the
    positive/negative split used by the translation operators, and integer
    powers. */
module Sums {

  /** The sum of `s`, adding terms left to right as a loop does. */
  function Sum(s: seq<real>): real
    decreases |s|
  {
    if |s| == 0 then 0.0 else Sum(s[..|s| - 1]) + s[|s| - 1]
  }

  /** The share of `x` a positive accumulator takes (`prod > 0`). */
  function PositivePart(x: real): real {
    if x > 0.0 then x else 0.0
  }

  /** The share of `x` a negative accumulator takes (the `else` of `prod > 0`). */
  function NonPositivePart(x: real): real {
    if x > 0.0 then 0.0 else x
  }

  /** What a positive accumulator holds after a loop over `s`. */
  function PosSum(s: seq<real>): (r: real)
    ensures r >= 0.0
    decreases |s|
  {
    if |s| == 0 then 0.0 else PosSum(s[..|s| - 1]) + PositivePart(s[|s| - 1])
  }

  /** What a negative accumulator holds after a loop over `s`. */
  function NegSum(s: seq<real>): (r: real)
    ensures r <= 0.0
    decreases |s|
  {
    if |s| == 0 then 0.0 else NegSum(s[..|s| - 1]) + NonPositivePart(s[|s| - 1])
  }

  /** Splitting a sum into a positive and a negative accumulator loses nothing. */
  lemma {:induction false} SplitSum(s: seq<real>)
    ensures PosSum(s) + NegSum(s) == Sum(s)
    decreases |s|
  {
    if |s| > 0 {
      SplitSum(s[..|s| - 1]);
    }
  }

  /** One more loop step over a prefix of `s`, for all three accumulators. */
  lemma PrefixStep(s: seq<real>, k: nat)
    requires k < |s|
    ensures Sum(s[..k + 1]) == Sum(s[..k]) + s[k]
    ensures PosSum(s[..k + 1]) == PosSum(s[..k]) + PositivePart(s[k])
    ensures NegSum(s[..k + 1]) == NegSum(s[..k]) + NonPositivePart(s[k])
  {
    assert s[..k + 1][..k] == s[..k];
  }

  /** Sums distribute over concatenation. */
  lemma {:induction false} SumAppend(s: seq<real>, t: seq<real>)
    ensures Sum(s + t) == Sum(s) + Sum(t)
    decreases |t|
  {
    if |t| > 0 {
      var t' := t[..|t| - 1];
      assert (s + t)[..|s + t| - 1] == s + t';
      SumAppend(s, t');
    } else {
      assert s + t == s;
    }
  }

  /** A sum of zeros is zero. */
  lemma {:induction false} SumZeros(s: seq<real>)
    requires forall i :: 0 <= i < |s| ==> s[i] == 0.0
    ensures Sum(s) == 0.0
    decreases |s|
  {
    if |s| > 0 {
      SumZeros(s[..|s| - 1]);
    }
  }

  /** `x` raised to the power `n`. */
  function Pow(x: real, n: nat): real {
    if n == 0 then 1.0 else Pow(x, n - 1) * x
  }

  /** Every positive power of zero is zero. */
  lemma {:induction false} PowOfZero(n: nat)
    requires n > 0
    ensures Pow(0.0, n) == 0.0
  {
    if n > 1 {
      PowOfZero(n - 1);
    }
  }

  function Max(a: int, b: int): int {
    if a > b then a else b
  }
}
