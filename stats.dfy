/*
 * The statistics shown next to a summary: the character counts of the input
 * and of the formatted summary, and the reduction percentage
 * round((1 - formatted / original) * 100), computed here in exact rational
 * arithmetic.
 */
module SummaryStats {

  /** round(n / d) for d > 0 as Python's round does it: the nearest integer,
      and on a tie the even one of the two neighbours. */
  function RoundHalfEven(n: int, d: int): (r: int)
    requires d > 0
    ensures -d <= 2 * (n - r * d) <= d
    ensures (2 * (n - r * d) == d || 2 * (n - r * d) == -d) ==> r % 2 == 0
  {
    var q := n / d;
    var rem := n % d;
    assert n - q * d == rem;
    assert n - (q + 1) * d == rem - d;
    if 2 * rem < d then q
    else if 2 * rem > d then q + 1
    else if q % 2 == 0 then q
    else q + 1
  }

  /** (1 - formatted / original) * 100 is 100 * (original - formatted) / original. */
  function Reduction(originalLength: nat, formattedLength: nat): int
    requires originalLength > 0
  {
    RoundHalfEven(100 * (originalLength - formattedLength), originalLength)
  }

  datatype Stats = Stats(originalLength: nat, summaryLength: nat, reduction: int)

  /** The three metrics of a summary; the caller guarantees a non-empty
      original. The reduction is round((1 - F / L) * 100) with ties to even,
      that is, the integer nearest to 100 * (L - F) / L, the even one on a tie. */
  function ComputeStats(original: string, formatted: string): (st: Stats)
    requires |original| > 0
    ensures st.originalLength == |original| && st.summaryLength == |formatted|
    ensures var l, n := |original|, 100 * (|original| - |formatted|);
      -l <= 2 * (n - st.reduction * l) <= l &&
      ((2 * (n - st.reduction * l) == l || 2 * (n - st.reduction * l) == -l) ==> st.reduction % 2 == 0)
    ensures st.reduction <= 100
  {
    ReductionAtMost100(|original|, |formatted|);
    Stats(|original|, |formatted|, Reduction(|original|, |formatted|))
  }

  lemma MulMono(a: int, b: int, d: int)
    requires d > 0 && a <= b
    ensures a * d <= b * d
  {
  }

  /** The nearest integer with ties to even is the only integer that is
      within one half of n / d and even on a tie. */
  lemma RoundUnique(n: int, d: int, r: int)
    requires d > 0
    requires -d <= 2 * (n - r * d) <= d
    requires (2 * (n - r * d) == d || 2 * (n - r * d) == -d) ==> r % 2 == 0
    ensures r == RoundHalfEven(n, d)
  {
    var r0 := RoundHalfEven(n, d);
    if r0 < r {
      assert (r0 + 1) * d == r0 * d + d;
      if r0 + 1 < r {
        assert (r0 + 2) * d == r0 * d + 2 * d;
        MulMono(r0 + 2, r, d);
      } else {
        MulMono(r0 + 1, r, d);
      }
    } else if r < r0 {
      assert (r + 1) * d == r * d + d;
      if r + 1 < r0 {
        assert (r + 2) * d == r * d + 2 * d;
        MulMono(r + 2, r0, d);
      } else {
        MulMono(r + 1, r0, d);
      }
    }
  }

  /** Rounding never reverses the order of two values. */
  lemma RoundMonotone(n1: int, n2: int, d: int)
    requires d > 0 && n1 <= n2
    ensures RoundHalfEven(n1, d) <= RoundHalfEven(n2, d)
  {
    var r1, r2 := RoundHalfEven(n1, d), RoundHalfEven(n2, d);
    if r2 < r1 {
      assert (r2 + 1) * d == r2 * d + d;
      MulMono(r2 + 1, r1, d);
    }
  }

  /** No reduction when the summary is as long as the input, and a full
      reduction when it is empty. */
  lemma ReductionEndpoints(originalLength: nat)
    requires originalLength > 0
    ensures Reduction(originalLength, originalLength) == 0
    ensures Reduction(originalLength, 0) == 100
  {
    RoundUnique(0, originalLength, 0);
    RoundUnique(100 * originalLength, originalLength, 100);
  }

  /** A longer summary never gives a larger reduction. */
  lemma ReductionMonotone(originalLength: nat, f1: nat, f2: nat)
    requires originalLength > 0 && f1 <= f2
    ensures Reduction(originalLength, f1) >= Reduction(originalLength, f2)
  {
    RoundMonotone(100 * (originalLength - f2), 100 * (originalLength - f1), originalLength);
  }

  /** The reduction is never above 100 percent. */
  lemma ReductionAtMost100(originalLength: nat, formattedLength: nat)
    requires originalLength > 0
    ensures Reduction(originalLength, formattedLength) <= 100
  {
    ReductionEndpoints(originalLength);
    ReductionMonotone(originalLength, 0, formattedLength);
  }

  /** The reduction is not clamped at zero: a summary longer than the input
      gives a reduction of at most zero, and a negative one as soon as the
      excess is more than half a percent of the input. A summary no longer
      than the input gives a reduction of at least zero. */
  lemma ReductionSign(originalLength: nat, formattedLength: nat)
    requires originalLength > 0
    ensures formattedLength <= originalLength ==> Reduction(originalLength, formattedLength) >= 0
    ensures formattedLength >= originalLength ==> Reduction(originalLength, formattedLength) <= 0
    ensures 200 * (formattedLength - originalLength) > originalLength ==> Reduction(originalLength, formattedLength) < 0
  {
    ReductionEndpoints(originalLength);
    if formattedLength <= originalLength {
      ReductionMonotone(originalLength, formattedLength, originalLength);
    } else {
      ReductionMonotone(originalLength, originalLength, formattedLength);
      var r := Reduction(originalLength, formattedLength);
      if 0 <= r {
        MulMono(0, r, originalLength);
      }
    }
  }

  /** 120 characters out of 500 is a reduction of 76 percent. */
  lemma ReductionExample()
    ensures Reduction(500, 120) == 76
  {
    RoundUnique(38000, 500, 76);
  }
}
