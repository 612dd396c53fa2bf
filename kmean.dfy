/** `get_points` of the viewer script: each trajectory row is a start frame
    followed by `l + 1` coordinate pairs, and the i-th pair is filed under
    frame `start + i` in an array of per-frame point lists of size
    `max(start) + 16`. */
module KMean {
  import opened OtsuThresholding

  /** A point `[x, y]` of a frame's list. */
  datatype FramePoint = FramePoint(x: int, y: int)

  /** The i-th pair of a trajectory row is filed under frame `bucket`. */
  datatype Placement = Placement(bucket: int, point: FramePoint)

  /** `a[:, 0]`: the start frames. */
  function FirstColumn(ts: seq<seq<int>>): seq<int>
    requires forall r :: 0 <= r < |ts| ==> |ts[r]| > 0
  {
    seq(|ts|, r requires 0 <= r < |ts| => ts[r][0])
  }

  /** numpy's index into an array of `size`: a negative index counts from the end. */
  function Slot(b: int, size: int): (s: int)
    requires -size <= b < size
    ensures 0 <= s < size
  {
    if b < 0 then b + size else b
  }

  /** The first `n` pairs of one row are read in bounds and filed in range. */
  predicate RowOk(p: seq<int>, n: nat, size: int)
  {
    |p| > 2 * n && (n == 0 || (-size <= p[0] && p[0] + n <= size))
  }

  /** The placements of the first `n` pairs of one row, in order. */
  function RowPlacements(p: seq<int>, n: nat): (r: seq<Placement>)
    requires |p| > 2 * n
    ensures |r| == n
    ensures forall i :: 0 <= i < n ==> r[i] == Placement(p[0] + i, FramePoint(p[2 * i + 1], p[2 * i + 2]))
  {
    if n == 0 then [] else RowPlacements(p, n - 1) + [Placement(p[0] + n - 1, FramePoint(p[2 * n - 1], p[2 * n]))]
  }

  /** The placements of all rows, row after row. */
  function Placements(ts: seq<seq<int>>, n: nat, size: int): (r: seq<Placement>)
    requires forall k :: 0 <= k < |ts| ==> RowOk(ts[k], n, size)
    ensures forall k :: 0 <= k < |r| ==> -size <= r[k].bucket < size
  {
    if ts == [] then []
    else
      var init := ts[..|ts| - 1];
      assert forall k :: 0 <= k < |init| ==> init[k] == ts[k];
      assert RowOk(ts[|ts| - 1], n, size);
      Placements(init, n, size) + RowPlacements(ts[|ts| - 1], n)
  }

  /** Every placement is filed inside an array of `size`. */
  predicate InRange(pl: seq<Placement>, size: int)
  {
    forall k :: 0 <= k < |pl| ==> -size <= pl[k].bucket < size
  }

  /** `frame_points` after the given placements, one append each. */
  function Filled(pl: seq<Placement>, size: int): (b: seq<seq<FramePoint>>)
    requires size >= 0
    requires forall k :: 0 <= k < |pl| ==> -size <= pl[k].bucket < size
    ensures |b| == size
  {
    if pl == [] then seq(size, k => [])
    else
      var prev := Filled(pl[..|pl| - 1], size);
      var last := pl[|pl| - 1];
      var s := Slot(last.bucket, size);
      prev[s := prev[s] + [last.point]]
  }

  /** The points placed under slot `s`, in placement order. */
  function Bucket(pl: seq<Placement>, size: int, s: int): seq<FramePoint>
    requires forall k :: 0 <= k < |pl| ==> -size <= pl[k].bucket < size
  {
    if pl == [] then []
    else
      var last := pl[|pl| - 1];
      Bucket(pl[..|pl| - 1], size, s) + (if Slot(last.bucket, size) == s then [last.point] else [])
  }

  /** The number of pairs each row contributes: `range(l + 1)`. */
  function PairCount(l: int): nat
  {
    if l + 1 > 0 then l + 1 else 0
  }

  /** What `get_points` returns or raises: `a[:, 0]` of no rows or of empty
      rows raises IndexError, `np.array` of ragged rows and `np.empty` of a
      negative size raise ValueError, and a pair read past its row or filed
      outside the array raises IndexError. */
  function Points(ts: seq<seq<int>>, l: int): Result<seq<seq<FramePoint>>>
  {
    if |ts| == 0 then Err(IndexError)
    else if exists k :: 0 <= k < |ts| && |ts[k]| != |ts[0]| then Err(ValueError)
    else if |ts[0]| == 0 then Err(IndexError)
    else
      var size := Max(FirstColumn(ts)) + 16;
      if size < 0 then Err(ValueError)
      else Filing(ts, PairCount(l), size)
  }

  /** The filing loops over an array of `size` empty lists: IndexError as
      soon as a pair is read past its row or filed outside the array. */
  function Filing(ts: seq<seq<int>>, m: nat, size: int): Result<seq<seq<FramePoint>>>
    requires size >= 0
  {
    if exists k :: 0 <= k < |ts| && !RowOk(ts[k], m, size) then Err(IndexError)
    else Ok(Filled(Placements(ts, m, size), size))
  }

  /** `get_points`. */
  method GetPoints(ts: seq<seq<int>>, l: int) returns (r: Result<seq<seq<FramePoint>>>)
    ensures r == Points(ts, l)
  {
    if |ts| == 0 {
      return Err(IndexError);
    }
    if exists k :: 0 <= k < |ts| && |ts[k]| != |ts[0]| {
      return Err(ValueError);
    }
    if |ts[0]| == 0 {
      return Err(IndexError);
    }
    var size := Max(FirstColumn(ts)) + 16;
    if size < 0 {
      return Err(ValueError);
    }
    r := FilePairs(ts, PairCount(l), size);
  }

  /** The filing loops of `get_points` over an array of `size` empty lists. */
  method FilePairs(ts: seq<seq<int>>, m: nat, size: int) returns (r: Result<seq<seq<FramePoint>>>)
    requires size >= 0 && forall k :: 0 <= k < |ts| ==> |ts[k]| > 0
    ensures r == Filing(ts, m, size)
  {
    var framePoints := new seq<FramePoint>[size](k => []);
    assert framePoints[..] == Filled(Placements(ts[..0], m, size), size);
    for n := 0 to |ts|
      invariant forall k :: 0 <= k < n ==> RowOk(ts[k], m, size)
      invariant framePoints[..] == Filled(Placements(ts[..n], m, size), size)
    {
      var p := ts[n];
      ghost var before := Placements(ts[..n], m, size);
      var ok := FileRow(framePoints, p, m, size, before);
      if !ok {
        return Err(IndexError);
      }
      PlacementsStep(ts, n, m, size);
    }
    assert ts[..|ts|] == ts;
    return Ok(framePoints[..]);
  }

  /** Filing one more row appends its placements. */
  lemma PlacementsStep(ts: seq<seq<int>>, n: nat, m: nat, size: int)
    requires n < |ts| && forall k :: 0 <= k <= n ==> RowOk(ts[k], m, size)
    ensures Placements(ts[..n + 1], m, size) == Placements(ts[..n], m, size) + RowPlacements(ts[n], m)
  {
    assert ts[..n + 1][..n] == ts[..n];
  }

  /** The inner loop of `get_points`: the pairs of one row appended to the
      lists of their frames, stopping at the first IndexError. */
  method FileRow(framePoints: array<seq<FramePoint>>, p: seq<int>, m: nat, size: int,
                 ghost before: seq<Placement>)
    returns (ok: bool)
    requires framePoints.Length == size && |p| > 0 && InRange(before, size)
    requires framePoints[..] == Filled(before, size)
    modifies framePoints
    ensures ok == RowOk(p, m, size)
    ensures ok ==> InRange(before + RowPlacements(p, m), size) &&
                   framePoints[..] == Filled(before + RowPlacements(p, m), size)
  {
    assert before + RowPlacements(p, 0) == before;
    ghost var placed := before;
    for i := 0 to m
      invariant RowOk(p, i, size)
      invariant placed == before + RowPlacements(p, i)
      invariant InRange(placed, size)
      invariant framePoints[..] == Filled(placed, size)
    {
      RowOkStep(p, i, m, size);
      if 2 * i + 2 >= |p| {
        return false;
      }
      var point := FramePoint(p[2 * i + 1], p[2 * i + 2]);
      var b := p[0] + i;
      if b < -size || b >= size {
        return false;
      }
      var s := if b < 0 then b + size else b;
      RowStep(before, p, i, size);
      FilledAppend(placed, Placement(b, point), size);
      framePoints[s] := framePoints[s] + [point];
      placed := placed + [Placement(b, point)];
    }
    return true;
  }

  /** The next pair of a row is accepted exactly when it is present and its
      bucket is in range, and a rejected pair rejects every longer prefix. */
  lemma RowOkStep(p: seq<int>, i: nat, m: nat, size: int)
    requires RowOk(p, i, size) && i < m
    ensures RowOk(p, i + 1, size) <==> 2 * i + 2 < |p| && -size <= p[0] + i < size
    ensures RowOk(p, m, size) ==> RowOk(p, i + 1, size)
  {
  }

  /** The next pair of a row extends its placements by one. */
  lemma RowStep(before: seq<Placement>, p: seq<int>, i: nat, size: int)
    requires |p| > 2 * i + 2
    ensures before + RowPlacements(p, i + 1)
            == (before + RowPlacements(p, i)) + [Placement(p[0] + i, FramePoint(p[2 * i + 1], p[2 * i + 2]))]
  {
  }

  /** One more placement appends its point to the list of its slot. */
  lemma FilledAppend(pl: seq<Placement>, x: Placement, size: int)
    requires size >= 0 && InRange(pl, size) && -size <= x.bucket < size
    ensures InRange(pl + [x], size)
    ensures var s := Slot(x.bucket, size);
            Filled(pl + [x], size) == Filled(pl, size)[s := Filled(pl, size)[s] + [x.point]]
  {
    assert (pl + [x])[..|pl|] == pl;
  }

  /** Each frame's list holds exactly the points filed under it, in order. */
  lemma {:induction false} FilledIsBuckets(pl: seq<Placement>, size: int)
    requires size >= 0
    requires forall k :: 0 <= k < |pl| ==> -size <= pl[k].bucket < size
    ensures forall s :: 0 <= s < size ==> Filled(pl, size)[s] == Bucket(pl, size, s)
    decreases |pl|
  {
    if pl != [] {
      FilledIsBuckets(pl[..|pl| - 1], size);
    }
  }

  /** A point filed under a frame is in that frame's list. */
  lemma {:induction false} PlacedIsFilled(pl: seq<Placement>, size: int, k: nat)
    requires size >= 0
    requires forall j :: 0 <= j < |pl| ==> -size <= pl[j].bucket < size
    requires k < |pl|
    ensures pl[k].point in Filled(pl, size)[Slot(pl[k].bucket, size)]
    decreases |pl|
  {
    FilledIsBuckets(pl, size);
    BucketHas(pl, size, k);
  }

  lemma {:induction false} BucketHas(pl: seq<Placement>, size: int, k: nat)
    requires forall j :: 0 <= j < |pl| ==> -size <= pl[j].bucket < size
    requires k < |pl|
    ensures pl[k].point in Bucket(pl, size, Slot(pl[k].bucket, size))
    decreases |pl|
  {
    if k < |pl| - 1 {
      BucketHas(pl[..|pl| - 1], size, k);
    }
  }

  /** Row `r`'s placements sit, in order, inside the placements of all rows. */
  lemma {:induction false} RowInPlacements(ts: seq<seq<int>>, n: nat, size: int, r: nat, i: nat)
    requires forall k :: 0 <= k < |ts| ==> RowOk(ts[k], n, size)
    requires r < |ts| && i < n
    ensures 2 * i + 2 < |ts[r]|
    ensures Placement(ts[r][0] + i, FramePoint(ts[r][2 * i + 1], ts[r][2 * i + 2])) in Placements(ts, n, size)
    decreases |ts|
  {
    assert RowOk(ts[r], n, size);
    var init := ts[..|ts| - 1];
    var last := ts[|ts| - 1];
    assert forall k :: 0 <= k < |init| ==> RowOk(init[k], n, size) by {
      forall k | 0 <= k < |init|
        ensures RowOk(init[k], n, size)
      {
        assert init[k] == ts[k];
      }
    }
    assert RowOk(last, n, size);
    var x := Placement(ts[r][0] + i, FramePoint(ts[r][2 * i + 1], ts[r][2 * i + 2]));
    if r < |ts| - 1 {
      assert init[r] == ts[r];
      RowInPlacements(init, n, size, r, i);
    } else {
      assert RowPlacements(last, n)[i] == x;
    }
  }

  /** On success, pair i of every row is in the list of frame `start + i`
      (counted from the end when negative). */
  lemma PairFiledUnderItsFrame(ts: seq<seq<int>>, l: int, r: nat, i: nat)
    requires Points(ts, l).Ok? && r < |ts| && i < PairCount(l)
    ensures 2 * i + 2 < |ts[r]|
    ensures var size := |Points(ts, l).value|;
            -size <= ts[r][0] + i < size &&
            FramePoint(ts[r][2 * i + 1], ts[r][2 * i + 2]) in Points(ts, l).value[Slot(ts[r][0] + i, size)]
  {
    var size := Max(FirstColumn(ts)) + 16;
    var m := PairCount(l);
    assert RowOk(ts[r], m, size);
    var pl := Placements(ts, m, size);
    RowInPlacements(ts, m, size, r, i);
    var x := Placement(ts[r][0] + i, FramePoint(ts[r][2 * i + 1], ts[r][2 * i + 2]));
    var k :| 0 <= k < |pl| && pl[k] == x;
    PlacedIsFilled(pl, size, k);
  }

  /** Rows of `2l + 3` values with non-negative start frames are filed
      without error if and only if `l` is at most 15: the array ends 16
      frames after the latest start. */
  lemma FitsIffShortTracks(ts: seq<seq<int>>, l: int)
    requires |ts| > 0 && l >= 0
    requires forall k :: 0 <= k < |ts| ==> |ts[k]| == 2 * l + 3 && ts[k][0] >= 0
    ensures Points(ts, l).Ok? <==> l <= 15
  {
    var c := FirstColumn(ts);
    var size := Max(c) + 16;
    if l > 15 {
      var k :| 0 <= k < |c| && c[k] == Max(c);
      assert !RowOk(ts[k], PairCount(l), size) by {
        assert !(ts[k][0] + 16 < size);
      }
    } else {
      forall k | 0 <= k < |ts|
        ensures RowOk(ts[k], PairCount(l), size)
      {
        assert c[k] <= Max(c);
      }
    }
  }

  /** The number of points held by all the lists of `b`. */
  function Total(b: seq<seq<FramePoint>>): nat
  {
    if b == [] then 0 else |b[0]| + Total(b[1..])
  }

  /** Appending to one list adds its growth to the total. */
  lemma {:induction false} TotalUpdate(b: seq<seq<FramePoint>>, s: nat, x: seq<FramePoint>)
    requires s < |b|
    ensures Total(b[s := x]) == Total(b) - |b[s]| + |x|
    decreases |b|
  {
    if s == 0 {
      assert b[s := x][1..] == b[1..];
    } else {
      TotalUpdate(b[1..], s - 1, x);
      assert b[s := x][1..] == b[1..][s - 1 := x];
    }
  }

  lemma {:induction false} TotalEmpty(size: nat)
    ensures Total(seq(size, k => [])) == 0
  {
    if size > 0 {
      var e: seq<seq<FramePoint>> := seq(size, k => []);
      var f: seq<seq<FramePoint>> := seq(size - 1, k => []);
      assert e[1..] == f;
      TotalEmpty(size - 1);
    }
  }

  /** Every placement adds exactly one point to the array. */
  lemma {:induction false} FilledTotal(pl: seq<Placement>, size: int)
    requires size >= 0 && InRange(pl, size)
    ensures Total(Filled(pl, size)) == |pl|
    decreases |pl|
  {
    if pl == [] {
      TotalEmpty(size);
    } else {
      var init := pl[..|pl| - 1];
      FilledTotal(init, size);
      var prev := Filled(init, size);
      var last := pl[|pl| - 1];
      var s := Slot(last.bucket, size);
      TotalUpdate(prev, s, prev[s] + [last.point]);
    }
  }

  /** Every row contributes `n` placements. */
  lemma {:induction false} PlacementsCount(ts: seq<seq<int>>, n: nat, size: int)
    requires forall k :: 0 <= k < |ts| ==> RowOk(ts[k], n, size)
    ensures |Placements(ts, n, size)| == |ts| * n
    decreases |ts|
  {
    if ts != [] {
      var last := |ts| - 1;
      assert ts[..last + 1] == ts;
      PlacementsStep(ts, last, n, size);
      PlacementsCount(ts[..last], n, size);
      MulStep(last, n);
    }
  }

  /** One more row of `n` placements. */
  lemma MulStep(a: nat, n: nat)
    ensures (a + 1) * n == a * n + n
  {
  }

  /** On success `get_points` holds `len(trajectories) * (l + 1)` points in all. */
  lemma PointsTotal(ts: seq<seq<int>>, l: int)
    requires Points(ts, l).Ok?
    ensures Total(Points(ts, l).value) == |ts| * PairCount(l)
  {
    var size := Max(FirstColumn(ts)) + 16;
    var m := PairCount(l);
    PlacementsCount(ts, m, size);
    FilledTotal(Placements(ts, m, size), size);
  }
}
