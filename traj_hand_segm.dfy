/** The window search of TrajHandSegm.h: over the finished tracks of a run,
    count for every candidate frame how many trajectories were finalised in
    the window that frame opens, pick the first frame with the largest count,
    and cut out of each qualifying track the segment of `Step` moves that lies
    in that window. */
module TrajHandSegm {
  import opened DenseTrack

  /** `step`: the number of moves in a segment. */
  const Step: int := 5
  /** The last candidate frame of the scan; the first one is `Step`. */
  const LastWindow: int := 159

  /** A track was finalised in the window opened by frame `f`. */
  predicate Qualifies(t: Track, f: int, length: int)
  {
    f <= t.frameNum <= f + length - Step
  }

  /** The first point of the segment: finalisation happened `shift` frames
      after `f`, and the segment sits that far before the track's end. */
  function StartIndex(t: Track, f: int, length: int): (s: int)
    ensures Qualifies(t, f, length) ==> 0 <= s <= length - Step
  {
    length - (t.frameNum - f) - Step
  }

  /** The reads of ExtractTrajectories on `t` stay inside both of its vectors. */
  predicate InBounds(t: Track, f: int, length: int)
  {
    var s := StartIndex(t, f, length);
    0 <= s && s + Step < |t.point| && s + Step <= |t.trajectory|
  }

  /** Every qualifying track of the list is read in bounds. */
  predicate ReadsInBounds(ts: seq<Track>, f: int, length: int)
  {
    forall i :: 0 <= i < |ts| && Qualifies(ts[i], f, length) ==> InBounds(ts[i], f, length)
  }

  /** The number of qualifying tracks. */
  function Count(ts: seq<Track>, f: int, length: int): (n: nat)
    ensures n <= |ts|
  {
    if ts == [] then 0
    else (if Qualifies(ts[0], f, length) then 1 else 0) + Count(ts[1..], f, length)
  }

  /** The value of a TrackSegm once filled. */
  datatype Segment = Segment(point: seq<Point>, trajectory: seq<Point>, frameNum: int)

  /** The segment of one qualifying track: `Step + 1` points and `Step`
      trajectory points starting at StartIndex, stamped with its frame. */
  function SegmentOf(t: Track, f: int, length: int): (g: Segment)
    requires Qualifies(t, f, length) && InBounds(t, f, length)
    ensures |g.point| == Step + 1 && |g.trajectory| == Step && g.frameNum == t.frameNum
    ensures forall k :: 0 <= k <= Step ==> g.point[k] == t.point[StartIndex(t, f, length) + k]
    ensures forall k :: 0 <= k < Step ==> g.trajectory[k] == t.trajectory[StartIndex(t, f, length) + k]
  {
    var s := StartIndex(t, f, length);
    Segment(t.point[s..s + Step + 1], t.trajectory[s..s + Step], t.frameNum)
  }

  /** The list ExtractTrajectories returns: one segment per qualifying track,
      in list order, or Undefined when a qualifying track is read out of
      bounds. */
  function Extracted(ts: seq<Track>, f: int, length: int): (r: Outcome<seq<Segment>>)
    ensures r.Defined? <==> ReadsInBounds(ts, f, length)
    ensures r.Defined? ==> |r.value| == Count(ts, f, length)
  {
    if ts == [] then Defined([])
    else
      assert forall i :: 1 <= i < |ts| ==> ts[1..][i - 1] == ts[i];
      if !Qualifies(ts[0], f, length) then Extracted(ts[1..], f, length)
      else if !InBounds(ts[0], f, length) then Undefined
      else PrependAll([SegmentOf(ts[0], f, length)], Extracted(ts[1..], f, length))
  }

  /** The choice the scan of ComputeTrajGraphs makes: `m` is the largest count
      over the candidate frames and `idx` the first frame reaching it, or both
      are 0 when every window is empty. */
  predicate WindowChoice(ts: seq<Track>, length: int, m: int, idx: int)
  {
    (forall f :: Step <= f <= LastWindow ==> Count(ts, f, length) <= m) &&
    ((m == 0 && idx == 0) ||
     (m > 0 && Step <= idx <= LastWindow && Count(ts, idx, length) == m &&
      forall f :: Step <= f < idx ==> Count(ts, f, length) < m))
  }

  class TrackSegm {
    var point: seq<Point>
    var trajectory: seq<Point>
    var frameNum: int

    /** The implicit default constructor: both vectors empty, `frame_num`
        left uninitialised. */
    constructor ()
      ensures point == [] && trajectory == []
    {
      point := [];
      trajectory := [];
    }

    function Value(): Segment
      reads this
    {
      Segment(point, trajectory, frameNum)
    }

    method AddPoint(p: Point)
      modifies this`point
      ensures point == old(point) + [p]
    {
      point := point + [p];
    }

    method AddTrajectory(p: Point)
      modifies this`trajectory
      ensures trajectory == old(trajectory) + [p]
    {
      trajectory := trajectory + [p];
    }

    method SetFrameNum(frame: int)
      modifies this`frameNum
      ensures frameNum == frame
    {
      frameNum := frame;
    }
  }

  /** The counting loop of CountTraj. */
  method CountTraj(ts: seq<Track>, f: int, length: int) returns (sum: int)
    ensures sum == Count(ts, f, length)
  {
    sum := 0;
    var n := 0;
    while n < |ts|
      invariant 0 <= n <= |ts|
      invariant sum + Count(ts[n..], f, length) == Count(ts, f, length)
    {
      assert ts[n..][1..] == ts[n + 1..];
      if f <= ts[n].frameNum && ts[n].frameNum <= f + length - Step {
        sum := sum + 1;
      }
      n := n + 1;
    }
    assert ts[n..] == [];
  }

  /** The body of ExtractTrajectories for one qualifying track
      (TrajHandSegm.h:53-66): a TrackSegm stamped with the track's frame
      and filled from `index = length - shift - step` on. */
  method SegmentFor(t: Track, f: int, length: int) returns (g: Segment)
    requires Qualifies(t, f, length) && InBounds(t, f, length)
    ensures g == SegmentOf(t, f, length)
  {
    var track := new TrackSegm();
    track.SetFrameNum(t.frameNum);
    var shift := t.frameNum - f;
    var index := length - shift - Step;
    for i := index to index + Step
      invariant track.point == t.point[index..i]
      invariant track.trajectory == t.trajectory[index..i]
      invariant track.frameNum == t.frameNum
    {
      track.AddPoint(t.point[i]);
      track.AddTrajectory(t.trajectory[i]);
    }
    track.AddPoint(t.point[index + Step]);
    g := track.Value();
  }

  /** ExtractTrajectories: the segment of every qualifying track, copied
      into the result list in order. */
  method ExtractTrajectories(ts: seq<Track>, f: int, length: int) returns (r: Outcome<seq<Segment>>)
    ensures r == Extracted(ts, f, length)
  {
    var segs: seq<Segment> := [];
    var n := 0;
    PrependNothing(Extracted(ts, f, length));
    while n < |ts|
      invariant 0 <= n <= |ts|
      invariant Extracted(ts, f, length) == PrependAll(segs, Extracted(ts[n..], f, length))
    {
      var t := ts[n];
      assert ts[n..][0] == t && ts[n..][1..] == ts[n + 1..];
      if f <= t.frameNum && t.frameNum <= f + length - Step {
        // reading `point` or `trajectory` past its end is undefined behaviour
        var index := length - (t.frameNum - f) - Step;
        if !(index + Step < |t.point| && index + Step <= |t.trajectory|) {
          return Undefined;
        }
        var g := SegmentFor(t, f, length);
        PrependStep(segs, g, Extracted(ts[n + 1..], f, length));
        segs := segs + [g];
      }
      n := n + 1;
    }
    assert ts[n..] == [] && segs + [] == segs;
    return Defined(segs);
  }

  /** ComputeTrajGraphs without its printing: the scan over the candidate
      frames `Step`..`LastWindow` with a strict comparison, then the
      extraction at the frame found. */
  method ComputeTrajGraphs(ts: seq<Track>, length: int)
    returns (maxnum: int, indexOfMax: int, segs: Outcome<seq<Segment>>)
    ensures WindowChoice(ts, length, maxnum, indexOfMax)
    ensures segs == Extracted(ts, indexOfMax, length)
  {
    maxnum := 0;
    indexOfMax := 0;
    for i := Step to LastWindow + 1
      invariant forall g :: Step <= g < i ==> Count(ts, g, length) <= maxnum
      invariant (maxnum == 0 && indexOfMax == 0) ||
                (maxnum > 0 && Step <= indexOfMax < i && Count(ts, indexOfMax, length) == maxnum &&
                 forall g :: Step <= g < indexOfMax ==> Count(ts, g, length) < maxnum)
    {
      var num := CountTraj(ts, i, length);
      if maxnum < num {
        maxnum := num;
        indexOfMax := i;
      }
    }
    segs := ExtractTrajectories(ts, indexOfMax, length);
  }

  /** The scan's choice is determined by the list: there is one answer. */
  lemma WindowChoiceUnique(ts: seq<Track>, length: int, m1: int, i1: int, m2: int, i2: int)
    requires WindowChoice(ts, length, m1, i1) && WindowChoice(ts, length, m2, i2)
    ensures m1 == m2 && i1 == i2
  {
    if m1 > 0 {
      assert Count(ts, i1, length) <= m2;
    }
    if m2 > 0 {
      assert Count(ts, i2, length) <= m1;
    }
    if m1 > 0 && m2 > 0 {
      assert i1 < i2 ==> Count(ts, i1, length) < m2;
      assert i2 < i1 ==> Count(ts, i2, length) < m1;
    }
  }

  /** With tracks shorter than a segment no window holds a trajectory. */
  lemma {:induction false} ShortTracksCountNothing(ts: seq<Track>, f: int, length: int)
    requires length < Step
    ensures Count(ts, f, length) == 0
    decreases |ts|
  {
    if ts != [] {
      ShortTracksCountNothing(ts[1..], f, length);
    }
  }

  /** A finished, well-formed track whose stored vector covers `length`
      entries is read in bounds at any window it qualifies for: its segment
      ends no later than point `length` and vector entry `length - 1`. */
  lemma FinishedSegment(t: Track, f: int, length: nat)
    requires WellFormed(t, length) && Covers(t, length) && !t.tracking && Qualifies(t, f, length)
    ensures InBounds(t, f, length)
    ensures StartIndex(t, f, length) + Step <= length
  {
  }

  /** Live tracks carry frame 0, so from frame 1 on every track of a
      well-formed list whose finished tracks cover `length` entries is read
      in bounds and the extraction is defined. */
  lemma ExtractedDefined(ts: seq<Track>, f: int, length: nat)
    requires AllWellFormed(ts, length) && AllCover(ts, length) && f >= 1
    ensures Extracted(ts, f, length).Defined?
  {
    forall i | 0 <= i < |ts| && Qualifies(ts[i], f, length)
      ensures InBounds(ts[i], f, length)
    {
      FinishedSegment(ts[i], f, length);
    }
  }

  /** The list of a run that left no window empty yields as many segments as
      the largest window count. */
  lemma ChosenWindowExtracted(ts: seq<Track>, length: nat, m: int, idx: int)
    requires AllWellFormed(ts, length) && AllCover(ts, length) && WindowChoice(ts, length, m, idx) && m > 0
    ensures Extracted(ts, idx, length).Defined?
    ensures |Extracted(ts, idx, length).value| == m
  {
    ExtractedDefined(ts, idx, length);
  }

  /** When every window is empty the extraction runs at frame 0, where a live
      track left in the list is read past its empty trajectory. */
  lemma EmptyWindowsReadLiveTrack(p: Point, length: nat)
    requires length >= Step
    ensures WindowChoice([NewTrack(p)], length, 0, 0)
    ensures Extracted([NewTrack(p)], 0, length) == Undefined
  {
    var ts := [NewTrack(p)];
    forall f | Step <= f <= LastWindow
      ensures Count(ts, f, length) <= 0
    {
      assert ts[1..] == [];
    }
    assert !InBounds(ts[0], 0, length);
  }

  /** The cleanup loop as written can leave a live track: of two fresh tracks
      it erases the first and steps over the second, which the extraction at
      frame 0 then reads past its empty vector. */
  lemma CleanupLeavesLiveTrack(p: Point, q: Point, length: nat)
    requires length >= Step
    ensures Cleaned([NewTrack(p), NewTrack(q)]) == Defined([NewTrack(q)])
    ensures WindowChoice([NewTrack(q)], length, 0, 0)
    ensures Extracted([NewTrack(q)], 0, length) == Undefined
  {
    var ts := [NewTrack(p), NewTrack(q)];
    assert ts[0].tracking && |ts| == 2 && ts[1] == NewTrack(q) && ts[2..] == [];
    assert Cleaned(ts) == PrependAll([ts[1]], Cleaned(ts[2..]));
    assert [NewTrack(q)] + [] == [NewTrack(q)];
    EmptyWindowsReadLiveTrack(q, length);
  }
}
