/** The per-frame trajectory tracker of DenseTrack.cpp: a list of tracks, each
    advanced by the optical flow sampled at its nearest clamped pixel, erased
    when it leaves the frame, finalised when it reaches the target length, and
    re-seeded every `gap` frames. The optical flow, the feature sampler and the
    validity classifier are opaque inputs (the `Env` record). */
module DenseTrack {

  /** OpenCV's Point2f; float arithmetic is taken as exact real arithmetic. */
  datatype Point = Point(x: real, y: real)

  function Plus(p: Point, d: Point): Point
  {
    Point(p.x + d.x, p.y + d.y)
  }

  /** One element of `xyTracks`. The list holds Track values, so an element is
      a datatype and an update in place is an update of the list. `index` is
      derived: addPoint appends one point and increments it, so it always names
      the newest point. `trajectory` is the vector stored on finalisation:
      what IsValid left in the copy of the first `length + 1` points. */
  datatype Track = Track(
    point: seq<Point>,
    tracking: bool,
    frameNum: int,
    meanX: real,
    meanY: real,
    trajectory: seq<Point>)
  {
    function Index(): int
    {
      |point| - 1
    }
  }

  /** `Track(points[i])`: a fresh, live track holding one point. */
  function NewTrack(p: Point): Track
  {
    Track([p], true, 0, 0.0, 0.0, [])
  }

  function NewTracks(ps: seq<Point>): seq<Track>
  {
    seq(|ps|, i requires 0 <= i < |ps| => NewTrack(ps[i]))
  }

  /** The most points a live track holds: `length`, or 1 when `length` is 0,
      since a track is first checked after its first advance. */
  function MaxLive(length: nat): (n: nat)
    ensures n >= 1 && n >= length
    ensures length >= 1 ==> n == length
  {
    if length >= 1 then length else 1
  }

  /** What every track of the list satisfies: a live track has between one
      and `MaxLive(length)` points, has not been stamped with a frame and has
      no stored vector; a finished track has exactly one point more, which is
      `length + 1` whenever `length >= 1`. */
  predicate WellFormed(t: Track, length: nat)
  {
    |t.point| >= 1 &&
    (t.tracking ==> t.frameNum == 0 && t.trajectory == [] && |t.point| <= MaxLive(length)) &&
    (!t.tracking ==> |t.point| == MaxLive(length) + 1)
  }

  predicate AllWellFormed(ts: seq<Track>, length: nat)
  {
    forall i :: 0 <= i < |ts| ==> WellFormed(ts[i], length)
  }

  /** A finished track's stored vector has at least `length` entries, enough
      for every segment the window search cuts out of it. */
  predicate Covers(t: Track, length: nat)
  {
    !t.tracking ==> |t.trajectory| >= length
  }

  predicate AllCover(ts: seq<Track>, length: nat)
  {
    forall i :: 0 <= i < |ts| ==> Covers(ts[i], length)
  }

  /** What the tracking loop needs: every live track has a newest point. */
  predicate LiveHavePoints(ts: seq<Track>)
  {
    forall i :: 0 <= i < |ts| ==> (ts[i].tracking ==> |ts[i].point| >= 1)
  }

  /** `var_threshold` of Constants.h. */
  const VarThreshold: real := 12.0

  /** What the (not shown) IsValid hands back: its verdict, the statistics it
      computes, and `vector`, the content of the vector it was passed by
      reference once it returns. */
  datatype Validity = Validity(valid: bool, meanX: real, meanY: real, varX: real, varY: real,
                               vector: seq<Point>)

  type Validator = seq<Point> -> Validity

  /** The foreground decision: IsValid holds and one variance exceeds 12. */
  predicate Accepted(v: Validity)
  {
    v.valid && (v.varX > VarThreshold || v.varY > VarThreshold)
  }

  /** What IsValid is taken to leave in its vector when it accepts a
      trajectory of `length + 1` points: at least `length` entries (one per
      displacement between consecutive points, say). */
  ghost predicate LeavesLength(isValid: Validator, length: nat)
  {
    forall s: seq<Point> :: |s| == length + 1 && Accepted(isValid(s)) ==> |isValid(s).vector| >= length
  }

  /** cvRound, taken as rounding half up. */
  function Round(v: real): int
  {
    (v + 0.5).Floor
  }

  /** std::min<int>(std::max<int>(v, 0), hi), with std::max and std::min as
      the standard library defines them. */
  function Clamp(v: int, hi: int): int
  {
    var m := if v < 0 then 0 else v;
    if hi < m then hi else m
  }

  /** The pixel whose flow moves point `p`: its nearest pixel, clamped into the image. */
  function SamplePixel(p: Point, width: int, height: int): (px: (int, int))
    requires width >= 1 && height >= 1
    ensures 0 <= px.0 <= width - 1 && 0 <= px.1 <= height - 1
    ensures 0 <= Round(p.x) <= width - 1 ==> px.0 == Round(p.x)
    ensures 0 <= Round(p.y) <= height - 1 ==> px.1 == Round(p.y)
  {
    (Clamp(Round(p.x), width - 1), Clamp(Round(p.y), height - 1))
  }

  /** One frame's dense displacement field: `flow(x, y)` is the pair of floats
      stored at column x, row y of the flow matrix. */
  datatype Frame = Frame(width: int, height: int, flow: (int, int) -> Point)

  predicate ValidFrame(fr: Frame)
  {
    fr.width >= 1 && fr.height >= 1
  }

  /** The candidate new position of a track whose newest point is `p`. */
  function Advected(p: Point, fr: Frame): Point
    requires ValidFrame(fr)
  {
    var px := SamplePixel(p, fr.width, fr.height);
    Plus(p, fr.flow(px.0, px.1))
  }

  /** Strictly inside the open box (0, width) x (0, height). */
  predicate Inside(p: Point, width: int, height: int)
  {
    !(p.x <= 0.0 || p.x >= width as real || p.y <= 0.0 || p.y >= height as real)
  }

  /** What the body of the tracking loop does to one list element. */
  datatype Visit = Keep(track: Track) | Erase

  /** Finalisation of a track that reached the target length. */
  function Finalised(t: Track, length: nat, frameNum: int, isValid: Validator): (r: Visit)
    requires |t.point| >= length + 1
    ensures r.Keep? <==> Accepted(isValid(t.point[..length + 1]))
    ensures r.Keep? ==> !r.track.tracking && r.track.frameNum == frameNum
    ensures r.Keep? ==> r.track.point == t.point && r.track.trajectory == isValid(t.point[..length + 1]).vector
    ensures r.Keep? && LeavesLength(isValid, length) ==> |r.track.trajectory| >= length
    ensures r.Keep? ==> r.track.meanX == isValid(t.point[..length + 1]).meanX
                        && r.track.meanY == isValid(t.point[..length + 1]).meanY
  {
    var trajectory := t.point[..length + 1];
    var v := isValid(trajectory);
    if Accepted(v) then
      Keep(t.(tracking := false, frameNum := frameNum, meanX := v.meanX, meanY := v.meanY,
              trajectory := v.vector))
    else
      Erase
  }

  /** The effect of one frame on one track, as the source's loop body has it. */
  function Advanced(t: Track, fr: Frame, length: nat, frameNum: int, isValid: Validator): (r: Visit)
    requires ValidFrame(fr)
    requires t.tracking ==> |t.point| >= 1
    // a finished track is never touched
    ensures !t.tracking ==> r == Keep(t)
    // a live track whose advected point leaves the open box is erased
    ensures t.tracking && !Inside(Advected(t.point[|t.point| - 1], fr), fr.width, fr.height) ==> r == Erase
    // a kept live track received exactly the advected point, nothing else changed
    ensures t.tracking && r.Keep? ==>
              r.track.point == t.point + [Advected(t.point[|t.point| - 1], fr)]
    ensures t.tracking && r.Keep? && r.track.tracking ==> r.track == t.(point := r.track.point)
    // it is still live exactly when it has not yet reached the target length
    ensures t.tracking && r.Keep? ==> (r.track.tracking <==> |t.point| < length)
    // reaching the target length, it survives iff the classifier accepts it
    ensures t.tracking && Inside(Advected(t.point[|t.point| - 1], fr), fr.width, fr.height)
            && |t.point| >= length ==>
              (r.Keep? <==> Accepted(isValid((t.point + [Advected(t.point[|t.point| - 1], fr)])[..length + 1])))
    ensures WellFormed(t, length) && r.Keep? ==> WellFormed(r.track, length)
    ensures Covers(t, length) && r.Keep? && LeavesLength(isValid, length) ==> Covers(r.track, length)
    ensures r.Keep? && !r.track.tracking && t.tracking ==> r.track.frameNum == frameNum
  {
    if !t.tracking then Keep(t)
    else
      var p := Advected(t.point[|t.point| - 1], fr);
      if !Inside(p, fr.width, fr.height) then Erase
      else
        var grown := t.(point := t.point + [p]);
        if grown.Index() >= length then Finalised(grown, length, frameNum, isValid)
        else Keep(grown)
  }

  lemma PrependNothing<T>(o: Outcome<seq<T>>)
    ensures PrependAll([], o) == o
  {
    if o.Defined? {
      assert [] + o.value == o.value;
    }
  }

  lemma PrependStep<T>(pre: seq<T>, t: T, o: Outcome<seq<T>>)
    ensures PrependAll(pre + [t], o) == PrependAll(pre, PrependAll([t], o))
  {
    if o.Defined? {
      assert (pre + [t]) + o.value == pre + ([t] + o.value);
    }
  }

  lemma EraseFirst(done: seq<Track>, rest: seq<Track>)
    requires |rest| > 0
    ensures (done + rest)[..|done|] + (done + rest)[|done| + 1..] == done + rest[1..]
  {
    assert (done + rest)[..|done|] == done;
    assert (done + rest)[|done| + 1..] == rest[1..];
  }

  lemma KeepFirst(done: seq<Track>, rest: seq<Track>)
    requires |rest| > 0
    ensures done + rest == (done + [rest[0]]) + rest[1..]
  {
    assert rest == [rest[0]] + rest[1..];
  }

  lemma ReplaceFirst(done: seq<Track>, rest: seq<Track>, t: Track)
    requires |rest| > 0
    ensures (done + rest)[|done| := t] == (done + [t]) + rest[1..]
  {
  }

  /** Undefined stands for the undefined behaviour of incrementing `end()`. */
  datatype Outcome<T> = Defined(value: T) | Undefined

  function PrependAll<T>(pre: seq<T>, o: Outcome<seq<T>>): Outcome<seq<T>>
  {
    match o
    case Defined(rest) => Defined(pre + rest)
    case Undefined => Undefined
  }

  /** The list after the tracking loop (DenseTrack.cpp:108-167) as written:
      `erase` returns the next element and the loop's `++iTrack` then steps
      over it, so the element after an erased one is left as it is; erasing
      the last element increments `end()`. */
  function AdvancedTracks(ts: seq<Track>, fr: Frame, length: nat, frameNum: int, isValid: Validator)
    : (r: Outcome<seq<Track>>)
    requires ValidFrame(fr)
    requires LiveHavePoints(ts)
    ensures r.Defined? ==> |r.value| <= |ts|
    ensures r.Defined? && AllWellFormed(ts, length) ==> AllWellFormed(r.value, length)
    ensures r.Defined? && AllCover(ts, length) && LeavesLength(isValid, length) ==> AllCover(r.value, length)
    decreases |ts|
  {
    if ts == [] then Defined([])
    else
      match Advanced(ts[0], fr, length, frameNum, isValid)
      case Keep(t) => PrependAll([t], AdvancedTracks(ts[1..], fr, length, frameNum, isValid))
      case Erase =>
        if |ts| == 1 then Undefined
        else PrependAll([ts[1]], AdvancedTracks(ts[2..], fr, length, frameNum, isValid))
  }

  /** One kept track moves from the unvisited rest to the visited prefix. */
  lemma AdvancedKeeps(done: seq<Track>, rest: seq<Track>, t: Track, fr: Frame, length: nat, frameNum: int,
                      isValid: Validator)
    requires ValidFrame(fr) && LiveHavePoints(rest) && |rest| > 0
    requires Advanced(rest[0], fr, length, frameNum, isValid) == Keep(t)
    ensures LiveHavePoints(rest[1..])
    ensures PrependAll(done, AdvancedTracks(rest, fr, length, frameNum, isValid))
            == PrependAll(done + [t], AdvancedTracks(rest[1..], fr, length, frameNum, isValid))
  {
    PrependStep(done, t, AdvancedTracks(rest[1..], fr, length, frameNum, isValid));
  }

  /** An erased track takes its successor with it into the visited prefix, unchanged. */
  lemma AdvancedErases(done: seq<Track>, rest: seq<Track>, fr: Frame, length: nat, frameNum: int,
                       isValid: Validator)
    requires ValidFrame(fr) && LiveHavePoints(rest) && |rest| > 1
    requires Advanced(rest[0], fr, length, frameNum, isValid) == Erase
    ensures LiveHavePoints(rest[2..])
    ensures PrependAll(done, AdvancedTracks(rest, fr, length, frameNum, isValid))
            == PrependAll(done + [rest[1]], AdvancedTracks(rest[2..], fr, length, frameNum, isValid))
  {
    PrependStep(done, rest[1], AdvancedTracks(rest[2..], fr, length, frameNum, isValid));
  }

  /** The newest point of a live track. */
  function Tip(t: Track): Point
    requires |t.point| >= 1
  {
    t.point[|t.point| - 1]
  }

  /** The tips of the live tracks, in list order (DenseTrack.cpp:174-176). */
  function Tips(ts: seq<Track>): (r: seq<Point>)
    requires LiveHavePoints(ts)
    ensures |r| <= |ts|
  {
    if ts == [] then []
    else (if ts[0].tracking then [Tip(ts[0])] else []) + Tips(ts[1..])
  }

  /** The exclusion list holds the newest point of every live track and
      nothing else. */
  lemma {:induction false} TipsAreLiveTips(ts: seq<Track>)
    requires LiveHavePoints(ts)
    ensures forall x :: x in Tips(ts) ==> exists i :: 0 <= i < |ts| && ts[i].tracking && x == Tip(ts[i])
    ensures forall i :: 0 <= i < |ts| && ts[i].tracking ==> Tip(ts[i]) in Tips(ts)
    decreases |ts|
  {
    if ts != [] {
      var tail := ts[1..];
      assert LiveHavePoints(tail) by {
        forall i | 0 <= i < |tail| ensures tail[i].tracking ==> |tail[i].point| >= 1 {
          assert tail[i] == ts[i + 1];
        }
      }
      TipsAreLiveTips(tail);
      var head := if ts[0].tracking then [Tip(ts[0])] else [];
      assert Tips(ts) == head + Tips(tail);
      forall x | x in Tips(ts)
        ensures exists i :: 0 <= i < |ts| && ts[i].tracking && x == Tip(ts[i])
      {
        if x !in head {
          var i :| 0 <= i < |tail| && tail[i].tracking && x == Tip(tail[i]);
          assert ts[i + 1] == tail[i];
        }
      }
      forall i | 0 <= i < |ts| && ts[i].tracking
        ensures Tip(ts[i]) in Tips(ts)
      {
        if i > 0 {
          assert ts[i] == tail[i - 1];
        }
      }
    }
  }

  /** The list after the final cleanup loop (DenseTrack.cpp:205-207) as
      written: it has the same erase-then-increment pattern. */
  function Cleaned(ts: seq<Track>): (r: Outcome<seq<Track>>)
    ensures r.Defined? ==> forall i :: 0 <= i < |r.value| ==> r.value[i] in ts
  {
    if ts == [] then Defined([])
    else if ts[0].tracking then
      if |ts| == 1 then Undefined else PrependAll([ts[1]], Cleaned(ts[2..]))
    else PrependAll([ts[0]], Cleaned(ts[1..]))
  }

  /** The finished tracks of a list, in order. */
  function Completed(ts: seq<Track>): (r: seq<Track>)
    ensures forall i :: 0 <= i < |r| ==> !r[i].tracking && r[i] in ts
  {
    if ts == [] then []
    else (if ts[0].tracking then [] else [ts[0]]) + Completed(ts[1..])
  }

  /** `a` is `b` with some elements deleted. */
  predicate IsSubseq(a: seq<Track>, b: seq<Track>)
    decreases |b|
  {
    a == [] || (b != [] && ((a[0] == b[0] && IsSubseq(a[1..], b[1..])) || IsSubseq(a, b[1..])))
  }

  /** A list the cleanup loop clears completely: every live track is followed
      by a finished one, which the increment after the erase steps over. */
  predicate SafeForCleanup(ts: seq<Track>)
  {
    forall i :: 0 <= i < |ts| && ts[i].tracking ==> i + 1 < |ts| && !ts[i + 1].tracking
  }

  /** The cleanup loop removes exactly the live tracks, and keeps the order of
      the others, if and only if no live track is last or followed by another
      live one. */
  lemma {:induction false} CleanedIsCompletedIff(ts: seq<Track>)
    ensures Cleaned(ts) == Defined(Completed(ts)) <==> SafeForCleanup(ts)
    decreases |ts|
  {
    if ts == [] {
    } else if ts[0].tracking {
      if |ts| == 1 {
        assert !SafeForCleanup(ts);
      } else {
        CleanedIsCompletedIff(ts[2..]);
        if ts[1].tracking {
          LiveThenLive(ts);
        } else {
          LiveThenFinished(ts);
        }
      }
    } else {
      CleanedIsCompletedIff(ts[1..]);
      FinishedFirst(ts);
    }
  }

  /** Two live tracks in a row: the cleanup keeps the second, so it does not
      remove exactly the live tracks, and the list is not safe. */
  lemma LiveThenLive(ts: seq<Track>)
    requires |ts| >= 2 && ts[0].tracking && ts[1].tracking
    ensures Cleaned(ts) != Defined(Completed(ts)) && !SafeForCleanup(ts)
  {
    assert !SafeForCleanup(ts);
    var o := Cleaned(ts[2..]);
    if o.Defined? {
      assert Cleaned(ts) == Defined([ts[1]] + o.value);
      assert ([ts[1]] + o.value)[0].tracking;
    }
  }

  /** A live track followed by a finished one: the cleanup erases the first,
      steps over the second and goes on with the rest. */
  lemma LiveThenFinished(ts: seq<Track>)
    requires |ts| >= 2 && ts[0].tracking && !ts[1].tracking
    requires Cleaned(ts[2..]) == Defined(Completed(ts[2..])) <==> SafeForCleanup(ts[2..])
    ensures Cleaned(ts) == Defined(Completed(ts)) <==> SafeForCleanup(ts)
  {
    assert ts[1..][1..] == ts[2..];
    assert Completed(ts) == [ts[1]] + Completed(ts[2..]);
    var o := Cleaned(ts[2..]);
    if o.Defined? {
      assert ([ts[1]] + o.value)[1..] == o.value;
      assert ([ts[1]] + Completed(ts[2..]))[1..] == Completed(ts[2..]);
    }
    SafeShift(ts, 2);
  }

  /** A prefix that is safe by itself does not change whether the list is. */
  lemma SafeShift(ts: seq<Track>, k: nat)
    requires k <= |ts|
    requires forall i :: 0 <= i < k && ts[i].tracking ==> i + 1 < k && !ts[i + 1].tracking
    ensures SafeForCleanup(ts) <==> SafeForCleanup(ts[k..])
  {
    if SafeForCleanup(ts[k..]) {
      forall i | 0 <= i < |ts| && ts[i].tracking
        ensures i + 1 < |ts| && !ts[i + 1].tracking
      {
        if i >= k {
          assert ts[k..][i - k] == ts[i];
        }
      }
    }
    if SafeForCleanup(ts) {
      forall i | 0 <= i < |ts[k..]| && ts[k..][i].tracking
        ensures i + 1 < |ts[k..]| && !ts[k..][i + 1].tracking
      {
        assert ts[k..][i] == ts[i + k];
      }
    }
  }

  /** A finished track first: the cleanup keeps it and goes on with the rest. */
  lemma FinishedFirst(ts: seq<Track>)
    requires ts != [] && !ts[0].tracking
    requires Cleaned(ts[1..]) == Defined(Completed(ts[1..])) <==> SafeForCleanup(ts[1..])
    ensures Cleaned(ts) == Defined(Completed(ts)) <==> SafeForCleanup(ts)
  {
    var o := Cleaned(ts[1..]);
    if o.Defined? {
      assert ([ts[0]] + o.value)[1..] == o.value;
      assert ([ts[0]] + Completed(ts[1..]))[1..] == Completed(ts[1..]);
    }
    SafeShift(ts, 1);
  }

  /** Whatever the cleanup loop leaves, it keeps every finished track, in order. */
  lemma {:induction false} CleanedKeepsCompleted(ts: seq<Track>)
    ensures Cleaned(ts).Defined? ==> Completed(Cleaned(ts).value) == Completed(ts)
    decreases |ts|
  {
    if ts == [] {
    } else if ts[0].tracking {
      if |ts| > 1 {
        CleanedKeepsCompleted(ts[2..]);
        assert ts[1..][1..] == ts[2..];
        var o := Cleaned(ts[2..]);
        if o.Defined? {
          assert ([ts[1]] + o.value)[1..] == o.value;
        }
      }
    } else {
      CleanedKeepsCompleted(ts[1..]);
      var o := Cleaned(ts[1..]);
      if o.Defined? {
        assert ([ts[0]] + o.value)[1..] == o.value;
      }
    }
  }

  /** No track is erased by the frame's flow or by the classifier. */
  predicate NoneErased(ts: seq<Track>, fr: Frame, length: nat, frameNum: int, isValid: Validator)
    requires ValidFrame(fr) && LiveHavePoints(ts)
  {
    forall i :: 0 <= i < |ts| ==> Advanced(ts[i], fr, length, frameNum, isValid).Keep?
  }

  /** The intended effect of the tracking loop: every track advanced once, in place. */
  function Stepped(ts: seq<Track>, fr: Frame, length: nat, frameNum: int, isValid: Validator): (r: seq<Track>)
    requires ValidFrame(fr) && LiveHavePoints(ts)
    requires NoneErased(ts, fr, length, frameNum, isValid)
    ensures |r| == |ts|
  {
    seq(|ts|, i requires 0 <= i < |ts| => Advanced(ts[i], fr, length, frameNum, isValid).track)
  }

  /** A kept first track in front of a list that loses none: the whole list
      loses none, and its intended effect starts with that track. */
  lemma SteppedFirst(ts: seq<Track>, fr: Frame, length: nat, frameNum: int, isValid: Validator)
    requires ValidFrame(fr) && LiveHavePoints(ts) && ts != []
    requires LiveHavePoints(ts[1..]) && NoneErased(ts[1..], fr, length, frameNum, isValid)
    requires Advanced(ts[0], fr, length, frameNum, isValid).Keep?
    ensures NoneErased(ts, fr, length, frameNum, isValid)
    ensures Stepped(ts, fr, length, frameNum, isValid)
            == [Advanced(ts[0], fr, length, frameNum, isValid).track] + Stepped(ts[1..], fr, length, frameNum, isValid)
  {
    var tail := ts[1..];
    assert NoneErased(ts, fr, length, frameNum, isValid) by {
      forall i | 0 <= i < |ts| ensures Advanced(ts[i], fr, length, frameNum, isValid).Keep? {
        if i > 0 {
          assert ts[i] == tail[i - 1];
        }
      }
    }
  }

  /** The tracking loop as written advances every track exactly once if and
      only if it erases none; after an erasure the next track is stepped over. */
  lemma {:induction false} AdvancedTracksIsSteppedIff(ts: seq<Track>, fr: Frame, length: nat, frameNum: int,
                                                      isValid: Validator)
    requires ValidFrame(fr) && LiveHavePoints(ts)
    ensures NoneErased(ts, fr, length, frameNum, isValid) <==>
            AdvancedTracks(ts, fr, length, frameNum, isValid).Defined?
            && |AdvancedTracks(ts, fr, length, frameNum, isValid).value| == |ts|
    ensures NoneErased(ts, fr, length, frameNum, isValid) ==>
            AdvancedTracks(ts, fr, length, frameNum, isValid) == Defined(Stepped(ts, fr, length, frameNum, isValid))
    decreases |ts|
  {
    if ts != [] {
      var tail := ts[1..];
      assert LiveHavePoints(tail) by {
        forall i | 0 <= i < |tail| ensures tail[i].tracking ==> |tail[i].point| >= 1 {
          assert tail[i] == ts[i + 1];
        }
      }
      AdvancedTracksIsSteppedIff(tail, fr, length, frameNum, isValid);
      var v := Advanced(ts[0], fr, length, frameNum, isValid);
      if v.Keep? {
        var o := AdvancedTracks(tail, fr, length, frameNum, isValid);
        if NoneErased(tail, fr, length, frameNum, isValid) {
          SteppedFirst(ts, fr, length, frameNum, isValid);
        } else {
          var k :| 0 <= k < |tail| && !Advanced(tail[k], fr, length, frameNum, isValid).Keep?;
          assert ts[k + 1] == tail[k];
        }
      } else {
        assert !NoneErased(ts, fr, length, frameNum, isValid);
      }
    }
  }

  /** A track that has finished is neither changed nor erased by the tracking
      loop: the finished tracks reappear in the result, in order. */
  lemma {:induction false} AdvancedTracksKeepCompleted(ts: seq<Track>, fr: Frame, length: nat, frameNum: int,
                                                       isValid: Validator)
    requires ValidFrame(fr) && LiveHavePoints(ts)
    ensures AdvancedTracks(ts, fr, length, frameNum, isValid).Defined? ==>
            IsSubseq(Completed(ts), AdvancedTracks(ts, fr, length, frameNum, isValid).value)
    decreases |ts|
  {
    if ts != [] {
      var r := AdvancedTracks(ts, fr, length, frameNum, isValid);
      match Advanced(ts[0], fr, length, frameNum, isValid)
      case Keep(t) =>
        AdvancedKeeps([], ts, t, fr, length, frameNum, isValid);
        AdvancedTracksKeepCompleted(ts[1..], fr, length, frameNum, isValid);
        var o := AdvancedTracks(ts[1..], fr, length, frameNum, isValid);
        if o.Defined? {
          assert r.value == [t] + o.value;
          assert r.value[1..] == o.value;
          if !ts[0].tracking {
            assert Completed(ts) == [t] + Completed(ts[1..]);
            assert Completed(ts)[1..] == Completed(ts[1..]);
          } else {
            assert Completed(ts) == Completed(ts[1..]);
          }
        }
      case Erase =>
        if |ts| > 1 {
          AdvancedErases([], ts, fr, length, frameNum, isValid);
          AdvancedTracksKeepCompleted(ts[2..], fr, length, frameNum, isValid);
          var o := AdvancedTracks(ts[2..], fr, length, frameNum, isValid);
          if o.Defined? {
            assert r.value == [ts[1]] + o.value;
            assert r.value[1..] == o.value;
            assert ts[1..][1..] == ts[2..];
            assert Completed(ts) == Completed(ts[1..]);
            if !ts[1].tracking {
              assert Completed(ts) == [ts[1]] + Completed(ts[2..]);
              assert Completed(ts)[1..] == Completed(ts[2..]);
            } else {
              assert Completed(ts) == Completed(ts[2..]);
            }
          }
        }
    }
  }

  /** The external collaborators of one run: the optical flow from the
      polynomial expansion of frame `ref` to frame `cur` at pixel (x, y), the
      feature sampler DenseSample on frame `cur` given the excluded points
      (its result is the content of `points` after the call), and IsValid. */
  datatype Env = Env(
    flow: (nat, nat, int, int) -> Point,
    sample: (nat, seq<Point>) -> seq<Point>,
    isValid: Validator)

  function FlowFrame(env: Env, width: int, height: int, ref: nat, cur: nat): Frame
  {
    Frame(width, height, (x: int, y: int) => env.flow(ref, cur, x, y))
  }

  /** One new track per point, in order: `Track(points[i])` for every i. */
  method TracksFor(points: seq<Point>) returns (ts: seq<Track>)
    ensures |ts| == |points|
    ensures forall i :: 0 <= i < |points| ==> ts[i] == NewTrack(points[i])
    ensures AllWellFormed(ts, 0)
  {
    ts := [];
    for i := 0 to |points|
      invariant |ts| == i
      invariant forall k :: 0 <= k < i ==> ts[k] == NewTrack(points[k])
    {
      ts := ts + [NewTrack(points[i])];
    }
  }

  /** The body of the tracking loop for one live track (DenseTrack.cpp:112-161). */
  method AdvanceTrack(t: Track, fr: Frame, length: nat, frameNum: int, isValid: Validator)
    returns (r: Visit)
    requires ValidFrame(fr) && t.tracking && |t.point| >= 1
    ensures r == Advanced(t, fr, length, frameNum, isValid)
  {
    var prevPoint := t.point[|t.point| - 1];
    var x := Clamp(Round(prevPoint.x), fr.width - 1);
    var y := Clamp(Round(prevPoint.y), fr.height - 1);
    var point := Plus(prevPoint, fr.flow(x, y));
    if point.x <= 0.0 || point.x >= fr.width as real || point.y <= 0.0 || point.y >= fr.height as real {
      return Erase;
    }
    var track := t.(point := t.point + [point]);
    if track.Index() >= length {
      var trajectory: seq<Point> := [];
      for i := 0 to length + 1
        invariant trajectory == track.point[..i]
      {
        trajectory := trajectory + [track.point[i]];
      }
      var v := isValid(trajectory);
      if v.valid {
        if v.varX > VarThreshold || v.varY > VarThreshold {
          track := track.(tracking := false, frameNum := frameNum, meanX := v.meanX, meanY := v.meanY,
                          trajectory := v.vector);
        }
      }
      if track.tracking {
        return Erase;
      }
    }
    return Keep(track);
  }

  /** The tip points of the live tracks, gathered as the exclusion list of the
      re-seeding step (DenseTrack.cpp:173-176). */
  method TrackingTips(ts: seq<Track>) returns (points: seq<Point>)
    requires LiveHavePoints(ts)
    ensures points == Tips(ts)
  {
    points := [];
    var n := 0;
    while n < |ts|
      invariant 0 <= n <= |ts|
      invariant points + Tips(ts[n..]) == Tips(ts)
    {
      assert ts[n..][1..] == ts[n + 1..];
      if ts[n].tracking {
        points := points + [ts[n].point[|ts[n].point| - 1]];
      }
      n := n + 1;
    }
    assert ts[n..] == [];
  }

  /** The state `main` keeps across frames. */
  class Tracker {
    const length: nat       // trackInfo.length
    const gap: int          // trackInfo.gap
    const width: int
    const height: int
    const startFrame: int
    const endFrame: int
    var tracks: seq<Track>  // xyTracks
    var frameNum: int       // frame_num
    var initCounter: int    // init_counter
    var refFrame: nat       // the frame whose polynomial expansion prev_poly holds

    ghost predicate Valid()
      reads this
    {
      width >= 1 && height >= 1 && AllWellFormed(tracks, length)
    }

    constructor (length: nat, gap: int, width: int, height: int, startFrame: int, endFrame: int)
      requires width >= 1 && height >= 1
      ensures Valid()
      ensures this.length == length && this.gap == gap && this.width == width && this.height == height
      ensures this.startFrame == startFrame && this.endFrame == endFrame
      ensures tracks == [] && frameNum == 0 && initCounter == 0 && refFrame == 0
    {
      this.length, this.gap, this.width, this.height := length, gap, width, height;
      this.startFrame, this.endFrame := startFrame, endFrame;
      tracks, frameNum, initCounter, refFrame := [], 0, 0, 0;
    }

    /** `xyTracks.push_back(Track(points[i]))` for every sampled point. */
    method PushTracks(points: seq<Point>)
      requires Valid()
      modifies this`tracks
      ensures Valid()
      ensures tracks == old(tracks) + NewTracks(points)
    {
      var added := TracksFor(points);
      assert added == NewTracks(points);
      forall i | 0 <= i < |tracks + added|
        ensures WellFormed((tracks + added)[i], length)
      {
        if i >= |tracks| {
          assert (tracks + added)[i] == NewTrack(points[i - |tracks|]);
        }
      }
      tracks := tracks + added;
    }

    /** The tracking loop (DenseTrack.cpp:108-167), iterating as written. */
    method TrackFeaturePoints(fr: Frame, isValid: Validator) returns (undefined: bool)
      requires Valid() && ValidFrame(fr)
      modifies this`tracks
      ensures !undefined ==> Valid()
      ensures undefined == AdvancedTracks(old(tracks), fr, length, frameNum, isValid).Undefined?
      ensures !undefined ==> tracks == AdvancedTracks(old(tracks), fr, length, frameNum, isValid).value
    {
      ghost var done: seq<Track> := [];
      ghost var rest := tracks;
      var i := 0;
      PrependNothing(AdvancedTracks(rest, fr, length, frameNum, isValid));
      while i < |tracks|
        invariant i == |done|
        invariant tracks == done + rest
        invariant LiveHavePoints(rest)
        invariant AdvancedTracks(old(tracks), fr, length, frameNum, isValid)
                  == PrependAll(done, AdvancedTracks(rest, fr, length, frameNum, isValid))
        decreases |rest|
      {
        assert tracks[i] == rest[0];
        if tracks[i].tracking {
          var v := AdvanceTrack(tracks[i], fr, length, frameNum, isValid);
          if v.Erase? {
            EraseFirst(done, rest);
            tracks := tracks[..i] + tracks[i + 1..];
            if i == |tracks| {
              assert |rest| == 1;
              return true;
            }
            AdvancedErases(done, rest, fr, length, frameNum, isValid);
            KeepFirst(done, rest[1..]);
            done, rest := done + [rest[1]], rest[2..];
            i := i + 1;
            continue;
          }
          AdvancedKeeps(done, rest, v.track, fr, length, frameNum, isValid);
          ReplaceFirst(done, rest, v.track);
          tracks := tracks[i := v.track];
        } else {
          AdvancedKeeps(done, rest, rest[0], fr, length, frameNum, isValid);
          KeepFirst(done, rest);
        }
        done, rest := done + [tracks[i]], rest[1..];
        i := i + 1;
      }
      undefined := false;
    }

    /** The final cleanup loop (DenseTrack.cpp:205-207), iterating as written. */
    method RemoveUnfinished() returns (undefined: bool)
      requires Valid()
      modifies this`tracks
      ensures !undefined ==> Valid()
      ensures undefined == Cleaned(old(tracks)).Undefined?
      ensures !undefined ==> tracks == Cleaned(old(tracks)).value
    {
      ghost var done: seq<Track> := [];
      ghost var rest := tracks;
      var i := 0;
      PrependNothing(Cleaned(rest));
      while i < |tracks|
        invariant i == |done|
        invariant tracks == done + rest
        invariant Cleaned(old(tracks)) == PrependAll(done, Cleaned(rest))
        decreases |rest|
      {
        assert tracks[i] == rest[0];
        if tracks[i].tracking {
          EraseFirst(done, rest);
          tracks := tracks[..i] + tracks[i + 1..];
          if i == |tracks| {
            assert |rest| == 1;
            return true;
          }
          KeepFirst(done, rest[1..]);
          PrependStep(done, rest[1], Cleaned(rest[2..]));
          done, rest := done + [rest[1]], rest[2..];
        } else {
          KeepFirst(done, rest);
          PrependStep(done, rest[0], Cleaned(rest[1..]));
          done, rest := done + [rest[0]], rest[1..];
        }
        i := i + 1;
      }
      undefined := false;
    }

    /** One pass of the `while(true)` loop of `main` for the frame at position
        `pos` of the video (DenseTrack.cpp:60-191, without the I/O). */
    method NextFrame(env: Env, pos: nat) returns (undefined: bool)
      requires Valid()
      modifies this`tracks, this`frameNum, this`initCounter, this`refFrame
      ensures !undefined ==> Valid()
      // finished tracks keep vectors long enough for the window search
      ensures !undefined && AllCover(old(tracks), length) && LeavesLength(env.isValid, length) ==>
                AllCover(tracks, length)
      // frames outside [start_frame, end_frame] only advance the counter
      ensures (old(frameNum) < startFrame || old(frameNum) > endFrame) ==>
                !undefined && frameNum == old(frameNum) + 1 && tracks == old(tracks)
                && initCounter == old(initCounter) && refFrame == old(refFrame)
      // the start frame seeds the first tracks and becomes the flow reference
      ensures old(frameNum) == startFrame && !(startFrame > endFrame) ==>
                !undefined && frameNum == old(frameNum) + 1
                && tracks == old(tracks) + NewTracks(env.sample(pos, []))
                && initCounter == old(initCounter) && refFrame == pos
      // any other frame advances the tracks by the flow from the reference frame
      ensures startFrame < old(frameNum) <= endFrame ==>
                var o := AdvancedTracks(old(tracks), FlowFrame(env, width, height, old(refFrame), pos),
                                        length, old(frameNum), env.isValid);
                undefined == o.Undefined? &&
                (!undefined && old(initCounter) + 1 != gap ==>
                   tracks == o.value && frameNum == old(frameNum)
                   && initCounter == old(initCounter) + 1 && refFrame == old(refFrame)) &&
                (!undefined && old(initCounter) + 1 == gap ==>
                   tracks == o.value + NewTracks(env.sample(pos, Tips(o.value)))
                   && frameNum == old(frameNum) + 1 && initCounter == 0 && refFrame == pos)
    {
      if frameNum < startFrame || frameNum > endFrame {
        frameNum := frameNum + 1;
        return false;
      }
      if frameNum == startFrame {
        var points := env.sample(pos, []);
        PushTracks(points);
        refFrame := pos;
        frameNum := frameNum + 1;
        return false;
      }
      initCounter := initCounter + 1;
      var fr := FlowFrame(env, width, height, refFrame, pos);
      undefined := TrackFeaturePoints(fr, env.isValid);
      if undefined {
        return;
      }
      assert AllWellFormed(tracks, length);
      if initCounter != gap {
        return;
      }
      var points := TrackingTips(tracks);
      points := env.sample(pos, points);
      PushTracks(points);
      initCounter := 0;
      refFrame := pos;
      frameNum := frameNum + 1;
    }
  }

  /** `main` from the first frame to the final cleanup, over a video of
      `frameCount` frames; the result is the list handed to ComputeTrajGraphs,
      or Undefined when a loop increments `end()`. */
  method Run(env: Env, length: nat, gap: int, width: int, height: int, startFrame: int, endFrame: int,
             frameCount: nat)
    returns (r: Outcome<seq<Track>>)
    requires width >= 1 && height >= 1
    ensures r.Defined? ==> AllWellFormed(r.value, length)
    // a completed trajectory holds exactly `length + 1` points
    ensures r.Defined? && length >= 1 ==>
              forall i :: 0 <= i < |r.value| && !r.value[i].tracking ==> |r.value[i].point| == length + 1
    ensures r.Defined? && LeavesLength(env.isValid, length) ==> AllCover(r.value, length)
  {
    var tracker := new Tracker(length, gap, width, height, startFrame, endFrame);
    for pos := 0 to frameCount
      invariant tracker.Valid() && tracker.length == length
      invariant LeavesLength(env.isValid, length) ==> AllCover(tracker.tracks, length)
    {
      var undefined := tracker.NextFrame(env, pos);
      if undefined {
        return Undefined;
      }
    }
    ghost var before := tracker.tracks;
    var undefined := tracker.RemoveUnfinished();
    if undefined {
      return Undefined;
    }
    assert forall i :: 0 <= i < |tracker.tracks| ==> tracker.tracks[i] in before;
    return Defined(tracker.tracks);
  }
}
