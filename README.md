# Dense trajectories of hands: a Dafny model

This project models the bookkeeping core of a dense-trajectory hand segmenter
and proves properties of it. The segmenter has three parts:

- **The tracker** (`DenseTrack.cpp`, module `DenseTrack`, file
  `dense_track.dfy`). `main` keeps a list of tracks across the frames of a
  video.
  - On the start frame it seeds one live track per sampled feature point.
  - On every later frame in range it advances each live track by the optical
    flow at its nearest pixel, clamped into the image. A track whose new point
    leaves the open box `(0, width) x (0, height)` is erased.
  - A track that reaches `length + 1` points is finalised. A copy of its first
    `length + 1` points is handed to the classifier `IsValid` by reference.
    The track passes only when the classifier accepts it and one of its
    variances exceeds 12. It then stops tracking and stores the frame number,
    the means and whatever `IsValid` left in the copy. Otherwise it is erased.
    A finished track therefore holds exactly `length + 1` points. When
    `length` is 0 it holds 2, because a track is first checked after its
    first advance.
  - Every `gap` frames the tracker re-seeds a new track at each sampled point,
    excluding the tips of the live tracks.
  - At the end a cleanup loop removes the tracks still live.

  Both erasing loops are modelled as written. `erase` returns the next
  element, and the loop's increment then steps over it. The element after an
  erased track is therefore left untouched. Erasing the last element
  increments `end()`, which is undefined behaviour; the model represents it
  as the outcome `Undefined`. The frame counter is modelled as written too: it
  is incremented on frames out of range, on the start frame and on re-seeding
  frames, but not on the other tracked frames (`DenseTrack.cpp:169-170`
  continues before `frame_num++`).
  - `DenseTrack.Tracker` is a class with the list of tracks as a `seq` field.
  - Its methods are proved against functions of the old state:
    - `AdvancedTracks` for the tracking loop;
    - `Cleaned` for the cleanup loop;
    - `NewTracks` and `Tips` for the re-seeding step.
  - `IsValid` is an opaque parameter, so what it leaves in its vector is
    part of its result (`Validity.vector`). The window search needs every
    finished track to store at least `length` entries. The tracker preserves
    that whenever the classifier leaves at least `length` entries in an
    accepted vector (`LeavesLength`).
  - Lemmas about those functions characterise the skipping. The tracking loop
    advances every track exactly once if and only if it erases none. The
    cleanup loop removes exactly the live tracks if and only if every live
    track is followed by a finished one. Two fresh tracks in a row show the
    other case: the second one survives the cleanup. If every window is then
    empty, the extraction at frame 0 reads past its empty vector
    (`CleanupLeavesLiveTrack`).
- **The window search** (`TrajHandSegm.h`, module `TrajHandSegm`, file
  `traj_hand_segm.dfy`).
  - `CountTraj` counts the tracks finalised in the window
    `[f, f + length - 5]`.
  - `ComputeTrajGraphs` scans the candidate frames 5..159 and keeps the first
    frame of largest count, with a strict comparison.
  - `ExtractTrajectories` cuts a `TrackSegm` of 6 points and 5 trajectory
    points out of each qualifying track.
  - `TrackSegm` is a class whose methods append to its two vectors and set its
    frame.
- **The variance filter** of the two viewer scripts (`python/kmean.py` and
  `python/otsu_thresholding.py`, module `OtsuThresholding`, file
  `otsu_thresholding.dfy`).
  - `mhist` builds the histogram of the per-track variance products.
    numpy's negative indexing and its errors are modelled.
  - `otsu_thresholding` chooses a threshold, using Python 2's flooring
    integer division for the class means.
  - The filter keeps the trajectories whose product reaches the threshold.
  - The two scripts carry textually identical copies of this code:
    `kmean.py:144-187` repeats `otsu_thresholding.py:76-119`, and
    `kmean.py:229-233` repeats `otsu_thresholding.py:151-155`. One model
    serves both. The table below cites whichever copy the row's lines are
    taken from.
- **`get_points`** of `python/kmean.py` (module `KMean`, file `kmean.dfy`)
  files pair `i` of every trajectory row under frame `start + i`. The
  per-frame array has `max(start) + 16` entries. Every numpy and Python error
  on that path is an `Err` result. Rows of `2l + 3` values with non-negative
  starts are filed without error exactly when `l <= 15`. On success the
  array holds `len(trajectories) * (l + 1)` points in all.

Collaborators whose code is not part of this model are parameters:
- the optical flow;
- the feature sampler `DenseSample`;
- the classifier `IsValid`.

The `Env` record bundles them. `Run` drives the tracker over a video of a
given number of frames. Floats are exact real numbers.

## Model

| member | source | states |
|---|---|---|
| `DenseTrack.SamplePixel` | DenseTrack.cpp:114-116 | the sampled pixel lies inside the image and is the rounded point whenever that is inside |
| `DenseTrack.Finalised` | DenseTrack.cpp:141-164 | a track reaching the target length is kept iff IsValid accepts its first `length + 1` points and a variance exceeds the threshold; a kept one is finished, stamped with the frame and the means, keeps its points, and stores the vector IsValid left (at least `length` entries when IsValid leaves that many) |
| `DenseTrack.Advanced` | DenseTrack.cpp:110-165 | a finished track is untouched; a live one whose advected point leaves the open box is erased; a kept live one gained exactly the advected point; it stays live iff it is still short; at full length it survives iff accepted; well-formedness (a live track holds at most `length` points, a finished one exactly `length + 1`, for `length >= 1`) is preserved, and so is a long enough stored vector when IsValid leaves one |
| `DenseTrack.AdvancedTracks` | DenseTrack.cpp:108-167 | the loop as written (erase skips the next element, erasing the last is Undefined) never lengthens the list, preserves well-formedness of every track, and keeps stored vectors long enough when IsValid leaves them so |
| `DenseTrack.AdvancedKeeps` | DenseTrack.cpp:108-131 | a kept track moves from the unvisited rest to the visited prefix and the loop continues with the next element |
| `DenseTrack.AdvancedErases` | DenseTrack.cpp:125-128 | after an erase, the following element is passed over unchanged and the loop continues two elements on |
| `DenseTrack.Stepped` | DenseTrack.cpp:108-167 | the intended effect of the loop, every track advanced once, has the list's length |
| `DenseTrack.AdvancedTracksIsSteppedIff` | DenseTrack.cpp:108-167 | the loop as written advances every track exactly once, keeping the length, if and only if no track is erased; then its result is the intended one |
| `DenseTrack.AdvancedTracksKeepCompleted` | DenseTrack.cpp:108-110 | the finished tracks reappear unchanged and in order in the list after the tracking loop |
| `DenseTrack.Cleaned` | DenseTrack.cpp:205-207 | the cleanup loop as written keeps only tracks of its input |
| `DenseTrack.Completed` | DenseTrack.cpp:204-207 | the finished tracks of a list, in order, each one from the list |
| `DenseTrack.CleanedIsCompletedIff` | DenseTrack.cpp:204-207 | the cleanup loop removes exactly the unfinished tracks, in order, if and only if every live track is followed by a finished one |
| `DenseTrack.LiveThenLive` | DenseTrack.cpp:205-207 | after erasing a live track the cleanup steps over the live track behind it, so it does not remove exactly the live tracks |
| `DenseTrack.CleanedKeepsCompleted` | DenseTrack.cpp:205-207 | whenever the cleanup is defined, it keeps every finished track in order |
| `DenseTrack.TracksFor` | DenseTrack.cpp:181-182 | one fresh live track per sampled point, in order |
| `DenseTrack.AdvanceTrack` | DenseTrack.cpp:112-165 | the loop body on one live track computes `Advanced` |
| `DenseTrack.Tips` | DenseTrack.cpp:174-176 | the exclusion list has at most one point per track |
| `DenseTrack.TipsAreLiveTips` | DenseTrack.cpp:174-176 | the exclusion list holds the newest point of every live track and nothing else |
| `DenseTrack.TrackingTips` | DenseTrack.cpp:173-176 | the exclusion loop computes `Tips`: the newest point of every live track, in list order |
| `DenseTrack.Tracker.constructor` | DenseTrack.cpp:27-47 | an empty track list, counters at 0, the run's parameters stored |
| `DenseTrack.Tracker.PushTracks` | DenseTrack.cpp:82-83 | the sampled points are appended as fresh tracks after the existing ones |
| `DenseTrack.Tracker.TrackFeaturePoints` | DenseTrack.cpp:108-167 | the in-place loop leaves exactly `AdvancedTracks` of the old list, and reports Undefined exactly when that does; a defined result keeps the tracker's invariant |
| `DenseTrack.Tracker.RemoveUnfinished` | DenseTrack.cpp:205-207 | the in-place loop leaves exactly `Cleaned` of the old list, and reports Undefined exactly when that does; a defined result keeps the tracker's invariant |
| `DenseTrack.Tracker.NextFrame` | DenseTrack.cpp:60-191 | frames out of range only advance the counter; the start frame seeds tracks; other frames advance the tracks by the flow from the reference frame, and every `gap`-th such frame also re-seeds excluding the live tips, resets the counter and advances `frame_num`; long enough stored vectors stay so when IsValid leaves them so |
| `DenseTrack.Run` | DenseTrack.cpp:51-207 | when defined, the list handed to the window search is well formed, every finished track in it holds exactly `length + 1` points (for `length >= 1`), and its finished tracks store at least `length` entries when IsValid leaves that many |
| `TrajHandSegm.StartIndex` | TrajHandSegm.h:56-57 | for a qualifying track the segment starts between 0 and `length - step` |
| `TrajHandSegm.Count` | TrajHandSegm.h:80-82 | the number of qualifying tracks never exceeds the list length |
| `TrajHandSegm.SegmentOf` | TrajHandSegm.h:53-66 | a segment has `step + 1` points and `step` trajectory points copied from the start index, and the track's frame |
| `TrajHandSegm.Extracted` | TrajHandSegm.h:45-73 | the extraction is defined iff every qualifying track is read within bounds, and then yields one segment per qualifying track |
| `TrajHandSegm.TrackSegm.constructor` | TrajHandSegm.h:11-19 | both vectors start empty |
| `TrajHandSegm.TrackSegm.AddPoint` | TrajHandSegm.h:28-32 | appends the point |
| `TrajHandSegm.TrackSegm.AddTrajectory` | TrajHandSegm.h:34-37 | appends the trajectory point |
| `TrajHandSegm.TrackSegm.SetFrameNum` | TrajHandSegm.h:39-42 | sets the frame |
| `TrajHandSegm.CountTraj` | TrajHandSegm.h:76-85 | the loop computes `Count` |
| `TrajHandSegm.SegmentFor` | TrajHandSegm.h:53-66 | filling a TrackSegm step by step yields `SegmentOf` |
| `TrajHandSegm.ExtractTrajectories` | TrajHandSegm.h:45-73 | the loop computes `Extracted`, stopping as Undefined at the first out-of-bounds read |
| `TrajHandSegm.ComputeTrajGraphs` | TrajHandSegm.h:87-108 | the maximum is the largest count over frames 5..159 and the index is the first frame reaching it (both 0 when all are empty); the segments are extracted at that index |
| `TrajHandSegm.WindowChoiceUnique` | TrajHandSegm.h:94-104 | the scan's maximum and index are determined by the list |
| `TrajHandSegm.ShortTracksCountNothing` | TrajHandSegm.h:81 | with `length < step` no window holds a track |
| `TrajHandSegm.FinishedSegment` | TrajHandSegm.h:56-66 | a finished well-formed track storing at least `length` entries is read in bounds at any window it qualifies for; its segment ends by point `length` |
| `TrajHandSegm.ExtractedDefined` | TrajHandSegm.h:45-73 | from frame 1 on, the extraction over a well-formed list whose finished tracks store at least `length` entries is defined |
| `TrajHandSegm.ChosenWindowExtracted` | TrajHandSegm.h:106-109 | when some window is non-empty, the list extracted has as many segments as the maximum count |
| `TrajHandSegm.EmptyWindowsReadLiveTrack` | TrajHandSegm.h:91-108 | when every window is empty the extraction runs at frame 0, where a live track is read out of bounds |
| `TrajHandSegm.CleanupLeavesLiveTrack` | DenseTrack.cpp:205-207 | the cleanup of two fresh tracks erases the first and steps over the second, which then has every window empty and is read out of bounds at frame 0 |
| `OtsuThresholding.Max` | python/otsu_thresholding.py:77 | `np.amax` is an upper bound of the values and one of them |
| `OtsuThresholding.Histogram` | python/otsu_thresholding.py:77-83 | the histogram has `amax + 1` bins |
| `OtsuThresholding.Mhist` | python/otsu_thresholding.py:76-83 | the array loop computes `Histogrammed`: ValueError on an empty list or a negative size, IndexError on a value below `-size`, otherwise the bins counting each value and, by negative indexing, each value minus the size |
| `OtsuThresholding.HistogramStep` | python/kmean.py:148-149 | one more value increments exactly the bin it indexes |
| `OtsuThresholding.FloorDiv` | python/kmean.py:179-180 | Python 2 integer division rounds toward negative infinity |
| `OtsuThresholding.OtsuThreshold` | python/otsu_thresholding.py:86-119 | the threshold is the first bin of largest positive between-class variance among the bins the scan reaches with both classes non-empty, or 0 when none is positive |
| `OtsuThresholding.OtsuThresholdUnique` | python/otsu_thresholding.py:101-117 | the threshold is determined by the histogram and the total |
| `OtsuThresholding.HistogramPrefix` | python/otsu_thresholding.py:80-81 | for non-negative values the first `n` bins hold exactly the values below `n` |
| `OtsuThresholding.HistogramTotal` | python/kmean.py:144-151 | `mhist` of non-negative values succeeds and its bins add up to the number of values |
| `OtsuThresholding.CandidateSplits` | python/otsu_thresholding.py:102-108 | every split the scan weighs over `mhist` of non-negative values leaves values on both sides |
| `OtsuThresholding.ThresholdBelowSomeValue` | python/otsu_thresholding.py:142-155 | the threshold is 0 or below some value, and is 0 when all values are equal |
| `OtsuThresholding.ThresholdFilter` | python/kmean.py:229-233 | the loop computes `Filtered`: the items whose value reaches the threshold, in order, or IndexError when such a value has no item |
| `OtsuThresholding.KeptExactly` | python/otsu_thresholding.py:151-155 | an item is kept iff its value reaches the threshold |
| `OtsuThresholding.KeptAll` | python/otsu_thresholding.py:153-155 | when every value reaches the threshold, every item is kept, in order |
| `OtsuThresholding.SelectTrajectories` | python/otsu_thresholding.py:138-155 | the script's flow ends with Otsu's threshold and the filtered items, or with the error of `mhist` or of the filter; on non-negative products, one per trajectory, it keeps at least one trajectory |
| `OtsuThresholding.TieKeepsFirstSplit` | python/kmean.py:183-185 | with equal best variances after bins 1 and 5, the strict comparison keeps bin 1 |
| `OtsuThresholding.TieValuesHistogram` | python/otsu_thresholding.py:76-83 | `mhist` of 1, 5 and 9, three of each, has three in bins 1, 5 and 9 and none elsewhere |
| `OtsuThresholding.TieKeepsAllNine` | python/kmean.py:206-233 | on those nine values the script's flow chooses threshold 1 and keeps all nine trajectories |
| `KMean.Slot` | python/kmean.py:53 | a negative index counts from the end and lands inside the array |
| `KMean.RowPlacements` | python/kmean.py:51-53 | pair `i` of a row is filed under frame `start + i` |
| `KMean.Placements` | python/kmean.py:50-53 | the placements of all rows, row after row, all inside the array |
| `KMean.Filled` | python/kmean.py:46-48 | the per-frame array has `size` lists |
| `KMean.GetPoints` | python/kmean.py:42-55 | computes `Points`: IndexError for no rows or empty rows, ValueError for ragged rows or a negative size, IndexError for a pair read past its row or filed outside the array, otherwise the filled lists |
| `KMean.FilePairs` | python/kmean.py:50-53 | the outer loop fills the array with the placements of all rows, or stops at the first IndexError |
| `KMean.FileRow` | python/kmean.py:51-53 | the inner loop succeeds exactly when every pair of the row is present and filed in range, and then appends them in order |
| `KMean.RowOkStep` | python/kmean.py:52-53 | the next pair is accepted iff it is present and in range; a rejected pair rejects the whole row |
| `KMean.RowStep` | python/kmean.py:51-53 | the next pair extends the row's placements by one |
| `KMean.FilledAppend` | python/kmean.py:53 | one more placement appends its point to the list of its slot, leaving the others |
| `KMean.FilledIsBuckets` | python/kmean.py:46-53 | every frame's list holds exactly the points filed under it, in order |
| `KMean.PlacedIsFilled` | python/kmean.py:53 | a point filed under a frame is in that frame's list |
| `KMean.BucketHas` | python/kmean.py:53 | a placement's point is among the points of its slot |
| `KMean.RowInPlacements` | python/kmean.py:50-53 | every pair of every row is among the placements |
| `KMean.PairFiledUnderItsFrame` | python/kmean.py:42-55 | on success, pair `i` of row `r` is in the list of frame `start + i` |
| `KMean.FitsIffShortTracks` | python/kmean.py:44-53 | rows of `2l + 3` values with non-negative starts are filed without error iff `l <= 15` |
| `KMean.TotalUpdate` | python/kmean.py:53 | appending to one list changes the number of points by that list's growth |
| `KMean.FilledTotal` | python/kmean.py:46-53 | every placement adds exactly one point to the array |
| `KMean.PlacementsCount` | python/kmean.py:50-51 | every row contributes `l + 1` placements |
| `KMean.PointsTotal` | python/kmean.py:42-55 | on success the lists hold `len(trajectories) * (l + 1)` points in all |

## Left out

- Video capture, windows, drawing, `show_track` and the ESC key (`DenseTrack.cpp:38-42`, `56-58`, `138-139`, `193-201`): I/O. `Run` takes the number of frames as a parameter.
- `FarnebackPolyExp2` and `calcOpticalFlowFarneback2`: foreign image code. The flow is the parameter `Env.flow` from a reference frame to the current frame.
- `DenseSample` and `IsValid`: their code is not part of this model. They are the parameters `Env.sample` and `Env.isValid`. IsValid's verdict and statistics are the `Validity` record.
- The Track constructor and `Track::addPoint`: `DenseTrack.h` is not part of this model. A new track is taken to hold its one point, be live, have frame 0 and zero means, and an empty trajectory. `addPoint` is taken to append the point and increment `index`, so that `index` always names the newest point.
- The image size: `DenseTrack.cpp:104-105` reads `grey.cols` and `grey.rows` on every frame. The model fixes `width` and `height` for the whole run, because every frame of one video has the same size.
- What `IsValid` does to its vector: the model does not know it. Any vector is allowed, and the stored lengths the window search needs are proved only under `LeavesLength`, which says an accepted vector keeps at least `length` entries.
- `SaveTrackPoints`, `ClearTrackPoints` and the rest of `Trajectories.h`, `arg_parse`, `InitTrackInfo` and `InitSeqInfo`: file output and argument parsing.
- `printf` in `ComputeTrajGraphs`, including the loop that prints the segments (`TrajHandSegm.h:89`, `106`, `109`, `112-120`). The method returns the values it prints instead.
- The call `ComputeTrajGraphs(xyTracks, trackInfo.length, &seqInfo)` at `DenseTrack.cpp:209` passes three arguments to a function declared with two (`TrajHandSegm.h:87`). The two are not composed in one method. `ExtractedDefined` and `ChosenWindowExtracted` state what a well-formed result of `Run` gives the window search.
- `TrajHandSegm.TrackSegm.constructor`: `frame_num` is left uninitialised by the implicit constructor, so the contract says nothing about it.
- `DenseTrack.Round`: cvRound is taken as rounding half up; its behaviour on exact ties is not modelled.
- Floating point: `Point2f` coordinates, the flow and the variances are exact reals, with no float rounding.
- Integer widths: the C++ `int` counters and numpy's `int64` products in `otsu_thresholding` are unbounded here; overflow is not modelled.
- `readFile`, `draw_trajectories`, `draw_points`, `calc_dis`, `cv2.kmeans`, argparse and the matplotlib plots of both scripts, and `track_debug.py`: file and video I/O, plotting and foreign clustering. The variance products and trajectory rows are inputs.
- `TrajHandSegm.FinishedSegment`: says nothing about the values of a segment's trajectory entries. They are what IsValid left in its vector, which is not modelled.
