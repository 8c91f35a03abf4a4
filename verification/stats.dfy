/**
 * Exact-real counterparts of the numeric helpers the predictor leans on:
 * sums, means, minima and maxima of a column, and rounding to two decimals.
 */
module Stats {

  /** Sum of a column, left to right. */
  function Sum(s: seq<real>): real
  {
    if |s| == 0 then 0.0 else s[0] + Sum(s[1..])
  }

  /** The sum of a column of at most three entries, written out. */
  lemma SumOfShort(s: seq<real>)
    ensures |s| == 1 ==> Sum(s) == s[0]
    ensures |s| == 2 ==> Sum(s) == s[0] + s[1]
    ensures |s| == 3 ==> Sum(s) == s[0] + s[1] + s[2]
  {
    if 2 <= |s| <= 3 {
      assert s[1..][1..] == s[2..];
      assert |s| == 3 ==> s[2..][1..] == [];
    }
  }

  /** Smallest entry of a non-empty column. */
  function Min(s: seq<real>): (m: real)
    requires |s| > 0
    ensures m in s
    ensures forall i :: 0 <= i < |s| ==> m <= s[i]
  {
    if |s| == 1 then s[0]
    else
      var rest := Min(s[1..]);
      assert forall i :: 1 <= i < |s| ==> s[i] == s[1..][i - 1];
      if s[0] <= rest then s[0] else rest
  }

  /** Largest entry of a non-empty column. */
  function Max(s: seq<real>): (m: real)
    requires |s| > 0
    ensures m in s
    ensures forall i :: 0 <= i < |s| ==> s[i] <= m
  {
    if |s| == 1 then s[0]
    else
      var rest := Max(s[1..]);
      assert forall i :: 1 <= i < |s| ==> s[i] == s[1..][i - 1];
      if rest <= s[0] then s[0] else rest
  }

  /** A column whose entries all lie in [lo, hi] sums to something in [n*lo, n*hi]. */
  lemma {:induction false} SumBetween(s: seq<real>, lo: real, hi: real)
    requires forall i :: 0 <= i < |s| ==> lo <= s[i] <= hi
    ensures lo * |s| as real <= Sum(s) <= hi * |s| as real
  {
    if |s| > 0 {
      var rest := s[1..];
      assert forall i :: 0 <= i < |rest| ==> rest[i] == s[i + 1];
      SumBetween(rest, lo, hi);
      var n := |rest| as real;
      assert |s| as real == n + 1.0;
      assert lo * (n + 1.0) == lo * n + lo;
      assert hi * (n + 1.0) == hi * n + hi;
    }
  }

  /** `total` shared out `n` ways: the share that, taken `n` times, gives back the total. */
  function Share(total: real, n: real): (q: real)
    requires n > 0.0
    ensures q * n == total
  {
    total / n
  }

  /** Arithmetic mean of a non-empty column: the value that, counted once per entry, gives back the column's sum. */
  function Mean(s: seq<real>): (m: real)
    requires |s| > 0
    ensures m * |s| as real == Sum(s)
  {
    Share(Sum(s), |s| as real)
  }

  /** The mean lies between the column's extremes. */
  lemma MeanBetweenExtremes(s: seq<real>)
    requires |s| > 0
    ensures Min(s) <= Mean(s) <= Max(s)
  {
    MeanWithin(s, Min(s), Max(s));
  }

  /** If every entry lies in [lo, hi], so does the mean. */
  lemma MeanWithin(s: seq<real>, lo: real, hi: real)
    requires |s| > 0
    requires forall i :: 0 <= i < |s| ==> lo <= s[i] <= hi
    ensures lo <= Mean(s) <= hi
  {
    SumBetween(s, lo, hi);
    ShareBetween(lo, hi, Mean(s), |s| as real);
  }

  /** A share whose `n`-fold lies between n*lo and n*hi lies between lo and hi. */
  lemma ShareBetween(lo: real, hi: real, q: real, n: real)
    requires n > 0.0
    requires lo * n <= q * n <= hi * n
    ensures lo <= q <= hi
  {
    assert (q - lo) * n >= 0.0;
    assert (hi - q) * n >= 0.0;
  }

  /** `x` is a whole number of hundredths. */
  predicate IsCents(x: real)
  {
    (x * 100.0).Floor as real == x * 100.0
  }

  /**
   * Rounds to two decimal places, halves going to the even hundredth
   * (the rule Python's round applies, here on exact reals).
   */
  function Round2(x: real): (r: real)
    ensures IsCents(r)
    ensures x - 0.005 <= r <= x + 0.005
  {
    var scaled := x * 100.0;
    var down := scaled.Floor;
    var frac := scaled - down as real;
    var n := if frac < 0.5 then down
             else if frac > 0.5 then down + 1
             else if down % 2 == 0 then down
             else down + 1;
    assert scaled - 0.5 <= n as real <= scaled + 0.5;
    CentsNear(x, n);
    n as real / 100.0
  }

  /** A whole number of hundredths within half a hundredth of 100x is within 0.005 of x. */
  lemma CentsNear(x: real, n: int)
    requires x * 100.0 - 0.5 <= n as real <= x * 100.0 + 0.5
    ensures IsCents(n as real / 100.0)
    ensures x - 0.005 <= n as real / 100.0 <= x + 0.005
  {
    assert (n as real / 100.0) * 100.0 == n as real;
  }

  /** A value that already has at most two decimals is left alone. */
  lemma Round2Fixes(x: real)
    requires IsCents(x)
    ensures Round2(x) == x
  {
  }

  /** An exact half-hundredth goes to whichever neighbour is an even number of hundredths. */
  lemma Round2HalfToEven(k: int)
    ensures var r := Round2((k as real + 0.5) / 100.0);
            (r * 100.0).Floor % 2 == 0 && (r * 100.0 == k as real || r * 100.0 == k as real + 1.0)
  {
    var x := (k as real + 0.5) / 100.0;
    assert x * 100.0 == k as real + 0.5;
    assert (x * 100.0).Floor == k;
  }
}
