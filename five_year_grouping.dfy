/** The computation inside `graph_years` before plotting: sort the year map,
    rescale each value by `y / 5 - 1`, and average consecutive runs of five
    years. Drawing the bar chart is left out. */
module FiveYearGrouping {
  import opened Numbers
  import opened Text

  const GroupSize: nat := 5

  /** `xs` and `ys` are the keys and values of `m`, sorted by key: the result
      of `X, Y = map(list, zip(*sorted(m.items())))`. */
  ghost predicate SortedItems(m: map<string, real>, xs: seq<string>, ys: seq<real>)
  {
    && |xs| == |ys| == |m|
    && (forall i :: 0 <= i < |xs| ==> xs[i] in m && ys[i] == m[xs[i]])
    && (forall k :: k in m ==> k in xs)
    && (forall i, j :: 0 <= i < j < |xs| ==> LexLess(xs[i], xs[j]))
  }

  /** `[(y / 5) - 1 for y in Y]`: every value can be recovered as `(r + 1) * 5`. */
  function Rescale(ys: seq<real>): (scaled: seq<real>)
    ensures |scaled| == |ys|
    ensures forall i :: 0 <= i < |ys| ==> ys[i] == (scaled[i] + 1.0) * 5.0
  {
    seq(|ys|, i requires 0 <= i < |ys| => ys[i] / 5.0 - 1.0)
  }

  /** The number of complete groups: the loop visits all but the last entry. */
  function GroupCount(n: nat): nat
  {
    if n == 0 then 0 else (n - 1) / GroupSize
  }

  /** The label of group `k`: the first and last year it covers. */
  function GroupLabels(xs: seq<string>): (labels: seq<string>)
    ensures |labels| == GroupCount(|xs|)
  {
    seq(GroupCount(|xs|), k requires 0 <= k < GroupCount(|xs|) =>
      xs[GroupSize * k] + "-" + xs[GroupSize * k + 4])
  }

  /** The value of group `k`: the mean of its five values. */
  function GroupValues(ys: seq<real>): (values: seq<real>)
    ensures |values| == GroupCount(|ys|)
  {
    seq(GroupCount(|ys|), k requires 0 <= k < GroupCount(|ys|) =>
      Sum(ys[GroupSize * k..GroupSize * k + GroupSize]) / 5.0)
  }

  /** `sorted(date_dict.items())` unzipped into keys and values: the least
      remaining key is taken until none is left. */
  method SortItems(m: map<string, real>) returns (xs: seq<string>, ys: seq<real>)
    ensures SortedItems(m, xs, ys)
  {
    xs, ys := [], [];
    var rest := m.Keys;
    while rest != {}
      invariant rest <= m.Keys
      invariant |xs| == |ys| && |xs| + |rest| == |m|
      invariant forall i :: 0 <= i < |xs| ==> xs[i] in m && xs[i] !in rest && ys[i] == m[xs[i]]
      invariant forall k :: k in m && k !in rest ==> k in xs
      invariant forall i, j :: 0 <= i < j < |xs| ==> LexLess(xs[i], xs[j])
      invariant forall i, k :: 0 <= i < |xs| && k in rest ==> LexLess(xs[i], k)
      decreases |rest|
    {
      LexLeastExists(rest);
      var k :| k in rest && forall j :: j in rest && j != k ==> LexLess(k, j);
      xs, ys := xs + [k], ys + [m[k]];
      rest := rest - {k};
    }
  }

  /** The five-year loop of `graph_years` (lines with `count` and `sumY`):
      every fifth visited entry closes a group; the last entry is never
      visited and a trailing partial group is dropped. */
  method GroupFiveYears(xs: seq<string>, ys: seq<real>) returns (labels: seq<string>, values: seq<real>)
    requires |xs| == |ys|
    ensures labels == GroupLabels(xs)
    ensures values == GroupValues(ys)
  {
    labels, values := [], [];
    var sumY, count := 0.0, 0;
    if |xs| == 0 {
      return;
    }
    for i := 0 to |xs| - 1
      invariant 0 <= count < GroupSize
      invariant i == GroupSize * |labels| + count
      invariant |values| == |labels|
      invariant sumY == Sum(ys[i - count..i])
      invariant forall k :: 0 <= k < |labels| ==>
                  labels[k] == xs[GroupSize * k] + "-" + xs[GroupSize * k + 4]
                  && values[k] == Sum(ys[GroupSize * k..GroupSize * k + GroupSize]) / 5.0
    {
      assert ys[i - count..i + 1][..count] == ys[i - count..i];
      count := count + 1;
      sumY := sumY + ys[i];
      if count == 5 {
        var groupLabel := xs[i - 4] + "-" + xs[i];
        labels := labels + [groupLabel];
        values := values + [sumY / 5.0];
        sumY, count := 0.0, 0;
      }
    }
  }

  /** The grouping part of `graph_years`; an empty map is excluded because
      unpacking its items fails. */
  method GraphYears(dateDict: map<string, real>) returns (labels: seq<string>, values: seq<real>)
    requires dateDict != map[]
    ensures |labels| == |values| == (|dateDict| - 1) / GroupSize
    ensures exists xs, ys :: SortedItems(dateDict, xs, ys)
              && labels == GroupLabels(xs) && values == GroupValues(Rescale(ys))
  {
    var xs, ys := SortItems(dateDict);
    var scaled := Rescale(ys);
    labels, values := GroupFiveYears(xs, scaled);
  }

  // ---------------------------------------------------------------------------
  // Properties

  /** The last sorted entry never contributes: replacing its year and value
      changes no label and no group value. */
  lemma LastEntryUnused(xs: seq<string>, ys: seq<real>, x: string, y: real)
    requires |xs| == |ys| && xs != []
    ensures GroupLabels(xs[..|xs| - 1] + [x]) == GroupLabels(xs)
    ensures GroupValues(ys[..|ys| - 1] + [y]) == GroupValues(ys)
  {
    var n := |xs|;
    var xs' := xs[..n - 1] + [x];
    var ys' := ys[..n - 1] + [y];
    forall k | 0 <= k < GroupCount(n)
      ensures GroupSize * k + GroupSize <= n - 1
    {
      assert k <= (n - 1) / GroupSize - 1;
    }
    forall k | 0 <= k < GroupCount(n)
      ensures GroupLabels(xs')[k] == GroupLabels(xs)[k]
      ensures GroupValues(ys')[k] == GroupValues(ys)[k]
    {
      var lo := GroupSize * k;
      assert ys'[lo..lo + GroupSize] == ys[lo..lo + GroupSize];
    }
  }

  /** `Sum` of rescaled values: each value contributes `y / 5 - 1`. */
  lemma {:induction false} SumRescale(ys: seq<real>)
    ensures Sum(Rescale(ys)) == Sum(ys) / 5.0 - (|ys| as real)
    decreases |ys|
  {
    if ys != [] {
      var u := ys[..|ys| - 1];
      assert Rescale(ys)[..|ys| - 1] == Rescale(u);
      SumRescale(u);
    }
  }

  /** A group's value is the mean of its five rescaled values, which is the
      mean of the five original values rescaled the same way. */
  lemma GroupValueOfRescaled(ys: seq<real>, k: nat)
    requires k < GroupCount(|ys|)
    ensures GroupSize * k + GroupSize < |ys|
    ensures GroupValues(Rescale(ys))[k] == Sum(ys[GroupSize * k..GroupSize * k + GroupSize]) / 25.0 - 1.0
  {
    var n := |ys|;
    assert k <= (n - 1) / GroupSize - 1;
    var lo := GroupSize * k;
    var group := ys[lo..lo + GroupSize];
    assert Rescale(ys)[lo..lo + GroupSize] == Rescale(group);
    SumRescale(group);
  }

  /** The sorted items of a map are unique, so the result of `GraphYears` is
      determined by its input. */
  lemma {:induction false} SortedItemsUnique(m: map<string, real>, xs: seq<string>, ys: seq<real>,
                                            xs': seq<string>, ys': seq<real>)
    requires SortedItems(m, xs, ys) && SortedItems(m, xs', ys')
    ensures xs == xs' && ys == ys'
  {
    forall i | 0 <= i < |xs|
      ensures xs[i] == xs'[i]
    {
      SortedPosition(m, xs, ys, xs', ys', i);
    }
  }

  /** Entry `i` of two sorted listings of the same map agree: both are the key
      with exactly `i` smaller keys. */
  lemma SortedPosition(m: map<string, real>, xs: seq<string>, ys: seq<real>,
                       xs': seq<string>, ys': seq<real>, i: nat)
    requires SortedItems(m, xs, ys) && SortedItems(m, xs', ys')
    requires i < |xs|
    ensures xs[i] == xs'[i]
  {
    var a := xs[i];
    var b := xs'[i];
    if a != b {
      LexLessTotal(a, b);
      SmallerCount(m, xs, ys, i);
      SmallerCount(m, xs', ys', i);
      if LexLess(a, b) {
        SmallerKeysMonotone(m, a, b);
      } else {
        SmallerKeysMonotone(m, b, a);
      }
    }
  }

  /** The keys of `m` smaller than `a`. */
  ghost function SmallerKeys(m: map<string, real>, a: string): nat
  {
    |set k | k in m && LexLess(k, a)|
  }

  /** In a sorted listing, entry `i` has exactly `i` smaller keys. */
  lemma SmallerCount(m: map<string, real>, xs: seq<string>, ys: seq<real>, i: nat)
    requires SortedItems(m, xs, ys) && i < |xs|
    ensures SmallerKeys(m, xs[i]) == i
  {
    var below := set k | k in m && LexLess(k, xs[i]);
    var prefix := set j | 0 <= j < i :: xs[j];
    forall k | k in below ensures k in prefix {
      var j :| 0 <= j < |xs| && xs[j] == k;
      if j >= i {
        if j == i {
          LexLessIrreflexive(k);
        } else {
          LexLessAsymmetric(xs[i], k);
        }
      }
    }
    forall k | k in prefix ensures k in below {
    }
    assert below == prefix;
    DistinctPrefixSize(xs, i);
  }

  /** A strictly increasing listing has `i` distinct entries before position `i`. */
  lemma {:induction false} DistinctPrefixSize(xs: seq<string>, i: nat)
    requires i <= |xs|
    requires forall p, q :: 0 <= p < q < |xs| ==> LexLess(xs[p], xs[q])
    ensures |set j | 0 <= j < i :: xs[j]| == i
    decreases i
  {
    if i > 0 {
      DistinctPrefixSize(xs, i - 1);
      var s := set j | 0 <= j < i - 1 :: xs[j];
      assert (set j | 0 <= j < i :: xs[j]) == s + {xs[i - 1]};
      if xs[i - 1] in s {
        var j :| 0 <= j < i - 1 && xs[j] == xs[i - 1];
        LexLessIrreflexive(xs[j]);
      }
    }
  }

  /** A smaller key has fewer keys below it. */
  lemma SmallerKeysMonotone(m: map<string, real>, a: string, b: string)
    requires a in m && LexLess(a, b)
    ensures SmallerKeys(m, a) < SmallerKeys(m, b)
  {
    var sa := set k | k in m && LexLess(k, a);
    var sb := set k | k in m && LexLess(k, b);
    forall k | k in sa ensures k in sb {
      LexLessTransitive(k, a, b);
    }
    assert a in sb && a !in sa by {
      LexLessIrreflexive(a);
    }
    assert sb == sa + (sb - sa) && sa !! (sb - sa);
    assert a in sb - sa;
  }
}
