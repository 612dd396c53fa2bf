/** The variance filter of the Python scripts: a histogram of the per-track
    variance products, Otsu's threshold over it (Python 2 integer
    arithmetic), and the selection of the trajectories whose product reaches
    the threshold. */
module OtsuThresholding {

  /** The exceptions numpy and Python raise on the paths modelled here. */
  datatype PyError = ValueError | IndexError

  datatype Result<T> = Ok(value: T) | Err(error: PyError)

  /** `np.amax` of a non-empty list. */
  function Max(a: seq<int>): (m: int)
    requires |a| > 0
    ensures forall i :: 0 <= i < |a| ==> a[i] <= m
    ensures exists i :: 0 <= i < |a| && a[i] == m
  {
    if |a| == 1 then a[0]
    else
      var m := Max(a[1..]);
      assert forall i :: 1 <= i < |a| ==> a[i] == a[1..][i - 1];
      if a[0] >= m then a[0] else m
  }

  /** The bins of `harr`: bin k is incremented by the value k and, through
      numpy's negative indexing, by the value k - size. */
  function Histogram(a: seq<int>, size: nat): (h: seq<int>)
    ensures |h| == size
  {
    seq(size, k requires 0 <= k < size => multiset(a)[k] + multiset(a)[k - size])
  }

  /** What `mhist` returns or raises: `np.amax` of an empty list and a
      negative `np.zeros` size raise ValueError; a value below `-size` is an
      index numpy refuses. */
  function Histogrammed(a: seq<int>): Result<seq<int>>
  {
    if |a| == 0 then Err(ValueError)
    else if Max(a) + 1 < 0 then Err(ValueError)
    else if exists i :: 0 <= i < |a| && a[i] < -(Max(a) + 1) then Err(IndexError)
    else Ok(Histogram(a, Max(a) + 1))
  }

  /** `mhist`: a zeroed array of size `max + 1`, one increment per value. */
  method Mhist(a: seq<int>) returns (r: Result<seq<int>>)
    ensures r == Histogrammed(a)
    ensures r.Ok? ==> |r.value| == Max(a) + 1
  {
    if |a| == 0 {
      return Err(ValueError);
    }
    var size := Max(a) + 1;
    if size < 0 {
      return Err(ValueError);
    }
    var harr := new int[size](k => 0);
    assert harr[..] == Histogram(a[..0], size);
    for n := 0 to |a|
      invariant forall i :: 0 <= i < n ==> a[i] >= -size
      invariant harr[..] == Histogram(a[..n], size)
    {
      var v := a[n];
      if v < -size {
        return Err(IndexError);
      }
      var idx := if v < 0 then v + size else v;
      HistogramStep(a, n, size);
      harr[idx] := harr[idx] + 1;
    }
    assert a[..|a|] == a;
    return Ok(harr[..]);
  }

  /** One more value increments exactly the bin it indexes. */
  lemma HistogramStep(a: seq<int>, n: nat, size: nat)
    requires n < |a| && 0 <= a[n] + size && a[n] < size
    ensures var idx := if a[n] < 0 then a[n] + size else a[n];
            Histogram(a[..n + 1], size) == Histogram(a[..n], size)[idx := Histogram(a[..n], size)[idx] + 1]
  {
    assert a[..n + 1] == a[..n] + [a[n]];
    assert multiset(a[..n + 1]) == multiset(a[..n]) + multiset{a[n]};
  }

  /** Python 2's `/` on integers: division rounding toward negative infinity. */
  function FloorDiv(a: int, b: int): (q: int)
    requires b != 0
    ensures b > 0 ==> q * b <= a < q * b + b
    ensures b < 0 ==> q * b >= a > q * b + b
  {
    if b > 0 then a / b else (-a) / (-b)
  }

  /** The sum of the first `n` bins. */
  function Sum(h: seq<int>, n: nat): int
    requires n <= |h|
  {
    if n == 0 then 0 else Sum(h, n - 1) + h[n - 1]
  }

  /** The first moment of the first `n` bins: the loop that computes `_sum`. */
  function Moment(h: seq<int>, n: nat): int
    requires n <= |h|
  {
    if n == 0 then 0 else Moment(h, n - 1) + (n - 1) * h[n - 1]
  }

  /** `wB` after bin `i` was added. */
  function WB(h: seq<int>, i: nat): int
    requires i < |h|
  {
    Sum(h, i + 1)
  }

  /** `sumB` before bin `n`: it grows only on steps where `wB` is not zero. */
  function SumB(h: seq<int>, n: nat): int
    requires n <= |h|
  {
    if n == 0 then 0
    else SumB(h, n - 1) + (if WB(h, n - 1) != 0 then (n - 1) * h[n - 1] else 0)
  }

  /** The scan does not stop at bin `j`: it stops where the background holds
      all `total` values. */
  predicate NoBreakAt(h: seq<int>, total: int, j: nat)
    requires j < |h|
  {
    WB(h, j) != 0 ==> total - WB(h, j) != 0
  }

  /** Bin `i` is reached by the scan, and both classes' weights are non-zero there. */
  predicate Candidate(h: seq<int>, total: int, i: int)
  {
    0 <= i < |h| && WB(h, i) != 0 && total - WB(h, i) != 0 &&
    forall j :: 0 <= j < i ==> NoBreakAt(h, total, j)
  }

  /** The between-class variance of splitting after bin `i`, with the class
      means rounded down as Python 2 does. */
  function Between(h: seq<int>, total: int, i: nat): int
    requires i < |h| && WB(h, i) != 0 && total - WB(h, i) != 0
  {
    var wB := WB(h, i);
    var wF := total - wB;
    var sumB := SumB(h, i + 1);
    var mB := FloorDiv(sumB, wB);
    var mF := FloorDiv(Moment(h, |h|) - sumB, wF);
    wB * wF * ((mB - mF) * (mB - mF))
  }

  /** Otsu's choice: the first bin of largest positive between-class
      variance, or 0 when no split has a positive one. */
  predicate IsOtsuThreshold(h: seq<int>, total: int, t: int)
  {
    (t == 0 && forall k :: 0 <= k < |h| && Candidate(h, total, k) ==> Between(h, total, k) <= 0) ||
    (Candidate(h, total, t) && Between(h, total, t) > 0 &&
     forall k :: 0 <= k < |h| && Candidate(h, total, k) ==>
       Between(h, total, k) <= Between(h, total, t) && (k < t ==> Between(h, total, k) < Between(h, total, t)))
  }

  /** The best split among the bins before `n`, as the scan holds it in
      `_max` and `threshold`. */
  predicate BestBefore(h: seq<int>, total: int, n: nat, max: int, t: int)
  {
    (forall k :: 0 <= k < n && Candidate(h, total, k) ==> Between(h, total, k) <= max) &&
    ((max == 0 && t == 0) ||
     (0 <= t < n && Candidate(h, total, t) && max == Between(h, total, t) && max > 0 &&
      forall k :: 0 <= k < t && Candidate(h, total, k) ==> Between(h, total, k) < max))
  }

  /** `otsu_thresholding`. */
  method OtsuThreshold(histogram: seq<int>, total: int) returns (threshold: int)
    ensures IsOtsuThreshold(histogram, total, threshold)
  {
    var h := histogram;
    var sum := 0;
    for i := 0 to |h|
      invariant sum == Moment(h, i)
    {
      sum := sum + i * h[i];
    }
    var sumB := 0;
    var wB := 0;
    var max := 0;
    threshold := 0;
    for i := 0 to |h|
      invariant wB == Sum(h, i) && sumB == SumB(h, i)
      invariant forall j :: 0 <= j < i ==> NoBreakAt(h, total, j)
      invariant BestBefore(h, total, i, max, threshold)
    {
      wB := wB + h[i];
      assert wB == WB(h, i);
      if wB == 0 {
        assert !Candidate(h, total, i);
        continue;
      }
      var wF := total - wB;
      if wF == 0 {
        forall k | i <= k < |h|
          ensures !Candidate(h, total, k)
        {
          if k > i {
            assert !NoBreakAt(h, total, i);
          }
        }
        break;
      }
      sumB := sumB + i * h[i];
      var mB := FloorDiv(sumB, wB);
      var mF := FloorDiv(sum - sumB, wF);
      var between := wB * wF * ((mB - mF) * (mB - mF));
      assert Candidate(h, total, i) && between == Between(h, total, i);
      if between > max {
        max := between;
        threshold := i;
      }
    }
  }

  /** Otsu's threshold is determined by the histogram and the total. */
  lemma OtsuThresholdUnique(h: seq<int>, total: int, t1: int, t2: int)
    requires IsOtsuThreshold(h, total, t1) && IsOtsuThreshold(h, total, t2)
    ensures t1 == t2
  {
    if Candidate(h, total, t1) && Between(h, total, t1) > 0 && Candidate(h, total, t2)
       && Between(h, total, t2) > 0 {
      assert Between(h, total, t1) <= Between(h, total, t2);
      assert Between(h, total, t2) <= Between(h, total, t1);
    }
  }

  /** The number of values of `a` below `n`. */
  function CountBelow(a: seq<int>, n: int): (c: nat)
    ensures c <= |a|
  {
    if a == [] then 0 else CountBelow(a[..|a| - 1], n) + (if a[|a| - 1] < n then 1 else 0)
  }

  lemma {:induction false} CountBelowStep(a: seq<int>, n: int)
    ensures CountBelow(a, n + 1) == CountBelow(a, n) + multiset(a)[n]
    decreases |a|
  {
    if a != [] {
      var init := a[..|a| - 1];
      CountBelowStep(init, n);
      assert a == init + [a[|a| - 1]];
      assert multiset(a) == multiset(init) + multiset{a[|a| - 1]};
    }
  }

  /** For non-negative values, the first `n` bins of the histogram hold the
      values below `n`. */
  lemma {:induction false} HistogramPrefix(a: seq<int>, size: nat, n: nat)
    requires forall i :: 0 <= i < |a| ==> a[i] >= 0
    requires n <= size
    ensures Sum(Histogram(a, size), n) == CountBelow(a, n)
  {
    if n == 0 {
      CountBelowZero(a);
    } else {
      HistogramPrefix(a, size, n - 1);
      CountBelowStep(a, n - 1);
      assert (n - 1) - size !in multiset(a);
    }
  }

  lemma {:induction false} CountBelowZero(a: seq<int>)
    requires forall i :: 0 <= i < |a| ==> a[i] >= 0
    ensures CountBelow(a, 0) == 0
    decreases |a|
  {
    if a != [] {
      CountBelowZero(a[..|a| - 1]);
    }
  }

  lemma {:induction false} CountBelowWitness(a: seq<int>, n: int)
    ensures CountBelow(a, n) != 0 ==> exists i :: 0 <= i < |a| && a[i] < n
    ensures CountBelow(a, n) != |a| ==> exists i :: 0 <= i < |a| && a[i] >= n
    decreases |a|
  {
    if a != [] {
      var init := a[..|a| - 1];
      CountBelowWitness(init, n);
      if CountBelow(init, n) != 0 {
        var i :| 0 <= i < |init| && init[i] < n;
        assert a[i] == init[i];
      }
      if CountBelow(init, n) != |init| {
        var i :| 0 <= i < |init| && init[i] >= n;
        assert a[i] == init[i];
      }
    }
  }

  lemma {:induction false} CountBelowAll(a: seq<int>, n: int)
    requires forall i :: 0 <= i < |a| ==> a[i] < n
    ensures CountBelow(a, n) == |a|
    decreases |a|
  {
    if a != [] {
      CountBelowAll(a[..|a| - 1], n);
    }
  }

  /** `mhist` of non-negative values succeeds and its bins add up to the
      number of values. */
  lemma HistogramTotal(a: seq<int>)
    requires |a| > 0 && forall i :: 0 <= i < |a| ==> a[i] >= 0
    ensures Histogrammed(a).Ok?
    ensures Sum(Histogrammed(a).value, |Histogrammed(a).value|) == |a|
  {
    var size := Max(a) + 1;
    HistogramPrefix(a, size, size);
    CountBelowAll(a, size);
  }

  /** Over the histogram of non-negative values, every split the scan
      weighs leaves values on both sides of it. */
  lemma CandidateSplits(a: seq<int>, t: int)
    requires |a| > 0 && forall i :: 0 <= i < |a| ==> a[i] >= 0
    requires Candidate(Histogram(a, Max(a) + 1), |a|, t)
    ensures exists i :: 0 <= i < |a| && a[i] <= t
    ensures exists i :: 0 <= i < |a| && a[i] > t
  {
    var size := Max(a) + 1;
    var h := Histogram(a, size);
    assert 0 <= t < |h| && |h| == size;
    HistogramPrefix(a, size, t + 1);
    assert WB(h, t) == CountBelow(a, t + 1);
    CountBelowWitness(a, t + 1);
  }

  /** Otsu's threshold over the histogram of non-negative values is 0 or a
      value that leaves some values above it, so the filter that keeps the
      values reaching it never keeps nothing; when all values are equal it
      is 0. */
  lemma ThresholdBelowSomeValue(a: seq<int>, t: int)
    requires |a| > 0 && forall i :: 0 <= i < |a| ==> a[i] >= 0
    requires IsOtsuThreshold(Histogram(a, Max(a) + 1), |a|, t)
    ensures t == 0 || exists i :: 0 <= i < |a| && a[i] > t
    ensures (forall i :: 0 <= i < |a| ==> a[i] == a[0]) ==> t == 0
  {
    if t != 0 {
      CandidateSplits(a, t);
    }
  }

  /** The items whose value reaches the threshold, in order: the filter loop
      over the first `n` values. */
  function Kept<T>(nums: seq<int>, items: seq<T>, thres: int, n: nat): seq<T>
    requires n <= |nums| && n <= |items|
  {
    if n == 0 then []
    else Kept(nums, items, thres, n - 1) + (if nums[n - 1] >= thres then [items[n - 1]] else [])
  }

  /** The filter raises IndexError when a kept value has no item at its position. */
  function Filtered<T>(nums: seq<int>, items: seq<T>, thres: int): Result<seq<T>>
  {
    if exists i :: |items| <= i < |nums| && nums[i] >= thres then Err(IndexError)
    else if |nums| <= |items| then Ok(Kept(nums, items, thres, |nums|))
    else Ok(Kept(nums, items, thres, |items|))
  }

  /** The threshold filter loop. */
  method ThresholdFilter<T>(nums: seq<int>, items: seq<T>, thres: int) returns (r: Result<seq<T>>)
    ensures r == Filtered(nums, items, thres)
  {
    var kept: seq<T> := [];
    for i := 0 to |nums|
      invariant i <= |items| ==> kept == Kept(nums, items, thres, i)
      invariant i > |items| ==> kept == Kept(nums, items, thres, |items|)
      invariant forall k :: |items| <= k < i ==> nums[k] < thres
    {
      if nums[i] >= thres {
        if i >= |items| {
          return Err(IndexError);
        }
        kept := kept + [items[i]];
      }
    }
    return Ok(kept);
  }

  /** Each item kept was at a position whose value reaches the threshold,
      and every such item is kept. */
  lemma {:induction false} KeptExactly<T>(nums: seq<int>, items: seq<T>, thres: int, n: nat)
    requires n <= |nums| && n <= |items|
    ensures forall x :: x in Kept(nums, items, thres, n) ==>
              exists i :: 0 <= i < n && nums[i] >= thres && items[i] == x
    ensures forall i :: 0 <= i < n && nums[i] >= thres ==> items[i] in Kept(nums, items, thres, n)
  {
    if n > 0 {
      KeptExactly(nums, items, thres, n - 1);
    }
  }

  /** When every value reaches the threshold, the filter keeps every item. */
  lemma {:induction false} KeptAll<T>(nums: seq<int>, items: seq<T>, thres: int, n: nat)
    requires n <= |nums| && n <= |items|
    requires forall i :: 0 <= i < n ==> nums[i] >= thres
    ensures Kept(nums, items, thres, n) == items[..n]
  {
    if n > 0 {
      KeptAll(nums, items, thres, n - 1);
      assert items[..n] == items[..n - 1] + [items[n - 1]];
    }
  }

  /** The result of the selection stage: the threshold and the kept items. */
  datatype Selection<T> = Selection(threshold: int, kept: seq<T>)

  /** The script's flow from the variance products to the kept trajectories:
      `mhist`, `otsu_thresholding` with the number of products as total, and
      the filter. On non-negative products, one per trajectory, it succeeds
      and keeps at least one trajectory. */
  method SelectTrajectories<T>(nums: seq<int>, items: seq<T>) returns (r: Result<Selection<T>>)
    ensures r.Ok? ==> Histogrammed(nums).Ok? &&
                      IsOtsuThreshold(Histogrammed(nums).value, |nums|, r.value.threshold) &&
                      Filtered(nums, items, r.value.threshold) == Ok(r.value.kept)
    ensures r.Err? ==> Histogrammed(nums).Err? ||
                       exists t :: IsOtsuThreshold(Histogrammed(nums).value, |nums|, t) &&
                                   Filtered(nums, items, t).Err?
    ensures |nums| > 0 && |items| == |nums| && (forall i :: 0 <= i < |nums| ==> nums[i] >= 0) ==>
              r.Ok? && |r.value.kept| > 0
  {
    var hist := Mhist(nums);
    if hist.Err? {
      return Err(hist.error);
    }
    var thres := OtsuThreshold(hist.value, |nums|);
    var kept := ThresholdFilter(nums, items, thres);
    if kept.Err? {
      return Err(kept.error);
    }
    if |nums| > 0 && |items| == |nums| && forall i :: 0 <= i < |nums| ==> nums[i] >= 0 {
      ThresholdBelowSomeValue(nums, thres);
      var j: int;
      if thres == 0 {
        j := 0;
      } else {
        j :| 0 <= j < |nums| && nums[j] > thres;
      }
      KeptExactly(nums, items, thres, |nums|);
      assert items[j] in kept.value;
    }
    return Ok(Selection(thres, kept.value));
  }

  /** `n` copies of `v`. */
  function Repeat(v: int, n: nat): seq<int>
  {
    seq(n, _ => v)
  }

  /** `n` copies of `v` count `n` times `v` and nothing else. */
  lemma {:induction false} RepeatCount(v: int, n: nat, k: int)
    ensures multiset(Repeat(v, n))[k] == if k == v then n else 0
  {
    if n > 0 {
      RepeatCount(v, n - 1, k);
      assert Repeat(v, n) == Repeat(v, n - 1) + [v];
    }
  }

  /** The values 1, 5 and 9, three of each. */
  const TieValues: seq<int> := Repeat(1, 3) + Repeat(5, 3) + Repeat(9, 3)

  /** Their histogram. */
  const TieHistogram: seq<int> := [0, 3, 0, 0, 0, 3, 0, 0, 0, 3]

  lemma TieMax(a: seq<int>)
    requires a == TieValues
    ensures Max(a) == 9
    ensures forall i :: 0 <= i < |a| ==> a[i] >= 0
  {
    assert |a| == 9 && a[6] == 9;
    assert forall i :: 0 <= i < |a| ==> a[i] == (if i < 3 then 1 else if i < 6 then 5 else 9);
  }

  /** How many of the nine values equal `k`. */
  lemma TieCount(a: seq<int>, k: int)
    requires a == TieValues
    ensures multiset(a)[k] == (if k == 1 || k == 5 || k == 9 then 3 else 0)
  {
    assert multiset(a) == multiset(Repeat(1, 3)) + multiset(Repeat(5, 3)) + multiset(Repeat(9, 3));
    RepeatCount(1, 3, k);
    RepeatCount(5, 3, k);
    RepeatCount(9, 3, k);
  }

  /** The bins of the nine values: three in bins 1, 5 and 9, none elsewhere. */
  lemma TieBins(a: seq<int>)
    requires a == TieValues
    ensures Histogram(a, 10) == TieHistogram
  {
    forall k | 0 <= k < 10
      ensures Histogram(a, 10)[k] == TieHistogram[k]
    {
      TieCount(a, k);
      TieCount(a, k - 10);
    }
  }

  /** `mhist` of the nine values is that histogram. */
  lemma TieValuesHistogram(a: seq<int>)
    requires a == TieValues
    ensures Histogrammed(a) == Ok(TieHistogram)
  {
    TieMax(a);
    TieBins(a);
  }

  /** Its prefix sums: the background weighs 3 from bin 1 on, 6 from bin 5 on. */
  lemma TiePrefixes()
    ensures WB(TieHistogram, 0) == 0 && WB(TieHistogram, 9) == 9
    ensures forall k :: 1 <= k <= 4 ==> WB(TieHistogram, k) == 3 && SumB(TieHistogram, k + 1) == 3
    ensures forall k :: 5 <= k <= 8 ==> WB(TieHistogram, k) == 6 && SumB(TieHistogram, k + 1) == 18
    ensures Moment(TieHistogram, 10) == 45
  {
    var h := TieHistogram;
    assert Sum(h, 0) == 0;
    assert Sum(h, 1) == 0;
    assert Sum(h, 2) == 3;
    assert Sum(h, 3) == 3;
    assert Sum(h, 4) == 3;
    assert Sum(h, 5) == 3;
    assert Sum(h, 6) == 6;
    assert Sum(h, 7) == 6;
    assert Sum(h, 8) == 6;
    assert Sum(h, 9) == 6;
    assert Sum(h, 10) == 9;
    assert SumB(h, 0) == 0;
    assert SumB(h, 1) == 0;
    assert SumB(h, 2) == 3;
    assert SumB(h, 3) == 3;
    assert SumB(h, 4) == 3;
    assert SumB(h, 5) == 3;
    assert SumB(h, 6) == 18;
    assert SumB(h, 7) == 18;
    assert SumB(h, 8) == 18;
    assert SumB(h, 9) == 18;
    assert SumB(h, 10) == 45;
    assert Moment(h, 0) == 0;
    assert Moment(h, 1) == 0;
    assert Moment(h, 2) == 3;
    assert Moment(h, 3) == 3;
    assert Moment(h, 4) == 3;
    assert Moment(h, 5) == 3;
    assert Moment(h, 6) == 18;
    assert Moment(h, 7) == 18;
    assert Moment(h, 8) == 18;
    assert Moment(h, 9) == 18;
    assert Moment(h, 10) == 45;
  }

  /** Splitting after bins 1 to 4 weighs 3 * 6 * (1 - 7)^2. */
  lemma TieBetweenLow(k: nat)
    requires 1 <= k <= 4
    ensures WB(TieHistogram, k) != 0 && 9 - WB(TieHistogram, k) != 0
    ensures Between(TieHistogram, 9, k) == 648
  {
    TiePrefixes();
    assert FloorDiv(3, 3) == 1 && FloorDiv(42, 6) == 7;
  }

  /** Splitting after bins 5 to 8 weighs 6 * 3 * (3 - 9)^2. */
  lemma TieBetweenHigh(k: nat)
    requires 5 <= k <= 8
    ensures WB(TieHistogram, k) != 0 && 9 - WB(TieHistogram, k) != 0
    ensures Between(TieHistogram, 9, k) == 648
  {
    TiePrefixes();
    assert FloorDiv(18, 6) == 3 && FloorDiv(27, 3) == 9;
  }

  /** Splitting after 1 and after 5 weigh the same, and the first is kept. */
  lemma TieKeepsFirstSplit()
    ensures IsOtsuThreshold(TieHistogram, 9, 1)
  {
    var h := TieHistogram;
    TiePrefixes();
    forall k | 0 <= k < |h| && Candidate(h, 9, k)
      ensures Between(h, 9, k) == 648
    {
      if k <= 4 {
        TieBetweenLow(k);
      } else {
        TieBetweenHigh(k);
      }
    }
    TieBetweenLow(1);
    assert Candidate(h, 9, 1) by {
      assert NoBreakAt(h, 9, 0);
    }
  }

  /** The script's flow on the nine values: `mhist` gives the tie histogram,
      the strict comparison keeps the first best split, after bin 1, and
      since every value reaches 1 the filter keeps all nine trajectories. */
  lemma TieKeepsAllNine<T>(items: seq<T>)
    requires |items| == |TieValues|
    ensures Histogrammed(TieValues) == Ok(TieHistogram)
    ensures IsOtsuThreshold(Histogrammed(TieValues).value, |TieValues|, 1)
    ensures Filtered(TieValues, items, 1) == Ok(items)
  {
    TieValuesHistogram(TieValues);
    TieKeepsFirstSplit();
    TieFilterKeepsAll(items);
  }

  lemma TieFilterKeepsAll<T>(items: seq<T>)
    requires |items| == |TieValues|
    ensures Filtered(TieValues, items, 1) == Ok(items)
  {
    var a := TieValues;
    assert forall i :: 0 <= i < |a| ==> a[i] >= 1;
    KeptAll(a, items, 1, |a|);
    assert items[..|a|] == items;
  }
}
