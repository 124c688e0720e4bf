/** Sums and arithmetic means of score lists, as Python's `sum(xs) / len(xs)`
    computes them on exact reals. */
module Numbers {

  /** Python's `sum(xs)`: the scores added from the left. */
  function Sum(s: seq<real>): (total: real)
    ensures s == [] ==> total == 0.0
    ensures |s| == 1 ==> total == s[0]
  {
    if s == [] then 0.0 else Sum(s[..|s| - 1]) + s[|s| - 1]
  }

  /** `sum(xs) / len(xs)` for a non-empty list: the value that, times the
      number of entries, gives back the sum. */
  function Mean(s: seq<real>): (m: real)
    requires s != []
    ensures m * (|s| as real) == Sum(s)
  {
    Sum(s) / (|s| as real)
  }

  /** Sum distributes over concatenation, so the order of accumulation does not matter. */
  lemma {:induction false} SumConcat(s: seq<real>, t: seq<real>)
    ensures Sum(s + t) == Sum(s) + Sum(t)
    decreases |t|
  {
    if t == [] {
      assert s + t == s;
    } else {
      var u := t[..|t| - 1];
      assert (s + t)[..|s + t| - 1] == s + u;
      SumConcat(s, u);
    }
  }

  /** A list whose entries lie in [lo, hi] sums to a value in [lo * n, hi * n]. */
  lemma {:induction false} SumBounds(s: seq<real>, lo: real, hi: real)
    requires forall i :: 0 <= i < |s| ==> lo <= s[i] <= hi
    ensures lo * (|s| as real) <= Sum(s) <= hi * (|s| as real)
    decreases |s|
  {
    if s != [] {
      var u := s[..|s| - 1];
      SumBounds(u, lo, hi);
      assert lo <= s[|s| - 1] <= hi;
    }
  }

  /** Dividing by a positive count keeps a bound that holds of the scaled value. */
  lemma DivideBounds(total: real, n: real, lo: real, hi: real)
    requires n > 0.0
    requires lo * n <= total <= hi * n
    ensures lo <= total / n <= hi
  {
    assert (total / n) * n == total;
  }

  /** The mean of a non-empty list lies between any bounds of its entries. */
  lemma MeanBounds(s: seq<real>, lo: real, hi: real)
    requires s != []
    requires forall i :: 0 <= i < |s| ==> lo <= s[i] <= hi
    ensures lo <= Mean(s) <= hi
  {
    SumBounds(s, lo, hi);
    DivideBounds(Sum(s), |s| as real, lo, hi);
  }
}
