/** The structural-similarity scene detector of
    src/ytsum/scene_detection/ssim.py with the result records of
    src/ytsum/scene_detection/common.py.

    Every `interval`-th frame is compared with the previous SAMPLE (not the
    previous scene start); a sample that differs, or the very first sample,
    closes the current scene when the scene is at least `minLen` frames
    long. The similarity test is a predicate passed in, and frame positions
    are whole milliseconds. The loop keeps each closed scene's times in
    milliseconds (`Boundary`) and the result writes them with `FormatTime`,
    as the loop does when it records a scene.
 */
module SceneDetection {
  import opened Wrappers
  import opened Text
  import opened Timestamps
  import opened Sampling

  /** A decoded frame and the stream position reported with it. */
  datatype DecodedFrame<F> = DecodedFrame(image: F, posMs: nat)

  /** `SceneInfo`. */
  datatype SceneInfo = SceneInfo(index: int, startTime: string, endTime: string, startFrame: int, endFrame: int)

  /** `SceneDetectionResult`, without the processing-time fields. */
  datatype SceneDetectionResult = SceneDetectionResult(
    videoFilePath: string,
    sceneCount: int,
    frameRateSecs: real,
    minSceneLengthSecs: int,
    minSceneLengthFrames: int,
    adaptiveThreshold: real,
    scenes: seq<SceneInfo>,
    minContentVal: int)

  /** A scene as the loop closes it, its times still in milliseconds. */
  datatype Boundary = Boundary(index: int, startMs: nat, endMs: nat, startFrame: int, endFrame: int)

  /** The `SceneInfo` recorded for a closed scene, its times written by
      `fmt` (`FormatTime` in the detector). */
  function Shown(b: Boundary, fmt: nat -> string): SceneInfo {
    SceneInfo(b.index, fmt(b.startMs), fmt(b.endMs), b.startFrame, b.endFrame)
  }

  function ShownAll(bs: seq<Boundary>, fmt: nat -> string): (r: seq<SceneInfo>)
    ensures |r| == |bs| && forall k :: 0 <= k < |bs| ==> r[k] == Shown(bs[k], fmt)
  {
    seq(|bs|, k requires 0 <= k < |bs| => Shown(bs[k], fmt))
  }

  lemma ShownAppend(bs: seq<Boundary>, b: Boundary, fmt: nat -> string)
    ensures ShownAll(bs + [b], fmt) == ShownAll(bs, fmt) + [Shown(b, fmt)]
  {
    var l, r := ShownAll(bs + [b], fmt), ShownAll(bs, fmt) + [Shown(b, fmt)];
    assert |l| == |r|;
    forall k | 0 <= k < |l|
      ensures l[k] == r[k]
    {
      if k < |bs| {
        assert (bs + [b])[k] == bs[k];
      } else {
        assert (bs + [b])[k] == b;
      }
    }
  }

  /** The loop variables of `_detect_scenes_using_ssim`. */
  datatype Detector<F> = Detector(scenes: seq<Boundary>, prev: Option<F>, frameCount: nat,
                                  sceneStartFrame: nat, sceneStartMs: nat)

  function Start<F>(): Detector<F> {
    Detector([], None, 0, 0, 0)
  }

  /** One iteration of the read loop. */
  function Step<F>(st: Detector<F>, frame: DecodedFrame<F>, interval: int, minLen: int,
                   differ: (F, F) -> bool): Detector<F>
    requires interval != 0
  {
    var count := st.frameCount + 1;
    if !Sampled(count, interval) then st.(frameCount := count)
    else if (st.prev.None? || differ(st.prev.value, frame.image)) && count - st.sceneStartFrame >= minLen then
      var scene := Boundary(|st.scenes|, st.sceneStartMs, frame.posMs, st.sceneStartFrame, count);
      Detector(st.scenes + [scene], Some(frame.image), count, count, frame.posMs)
    else st.(prev := Some(frame.image), frameCount := count)
  }

  /** The loop variables after reading `frames`. */
  function After<F>(frames: seq<DecodedFrame<F>>, interval: int, minLen: int, differ: (F, F) -> bool): Detector<F>
    requires interval != 0
  {
    if |frames| == 0 then Start()
    else
      var n := |frames| - 1;
      Step(After(frames[..n], interval, minLen, differ), frames[n], interval, minLen, differ)
  }

  /** The scenes found in `frames`; an interval of 0 makes the first
      `frame_count % frame_interval` raise. */
  function Detect<F>(frames: seq<DecodedFrame<F>>, interval: int, minLen: int, differ: (F, F) -> bool)
    : Result<seq<SceneInfo>>
  {
    if interval == 0 then (if |frames| == 0 then Ok([]) else Err(ZeroDivision))
    else Ok(ShownAll(After(frames, interval, minLen, differ).scenes, FormatTime))
  }

  /** `_detect_scenes_using_ssim`: the read loop. */
  method DetectScenes<F>(frames: seq<DecodedFrame<F>>, interval: int, minLen: int, differ: (F, F) -> bool)
    returns (r: Result<seq<SceneInfo>>)
    ensures r == Detect(frames, interval, minLen, differ)
  {
    var scenes: seq<SceneInfo> := [];
    ghost var closed: seq<Boundary> := [];
    var prev: Option<F> := None;
    var frameCount: nat := 0;
    var sceneStartFrame: nat := 0;
    var sceneStartMs: nat := 0;
    while frameCount < |frames|
      invariant frameCount <= |frames|
      invariant interval == 0 ==> frameCount == 0 && scenes == []
      invariant scenes == ShownAll(closed, FormatTime)
      invariant interval != 0 ==>
        After(frames[..frameCount], interval, minLen, differ)
          == Detector(closed, prev, frameCount, sceneStartFrame, sceneStartMs)
    {
      var frame := frames[frameCount];
      if interval == 0 {
        return Err(ZeroDivision);
      }
      assert frames[..frameCount + 1][..frameCount] == frames[..frameCount];
      frameCount := frameCount + 1;
      if frameCount % interval == 0 {
        if prev.None? || differ(prev.value, frame.image) {
          if frameCount - sceneStartFrame >= minLen {
            ShownAppend(closed, Boundary(|closed|, sceneStartMs, frame.posMs, sceneStartFrame, frameCount), FormatTime);
            closed := closed + [Boundary(|closed|, sceneStartMs, frame.posMs, sceneStartFrame, frameCount)];
            scenes := scenes + [SceneInfo(|scenes|, FormatTime(sceneStartMs), FormatTime(frame.posMs),
                                          sceneStartFrame, frameCount)];
            sceneStartFrame := frameCount;
            sceneStartMs := frame.posMs;
          }
        }
        prev := Some(frame.image);
      }
    }
    assert frames[..frameCount] == frames;
    return Ok(scenes);
  }

  /** `StructuralSimilaritySceneDetector.run`: the video must open; the
      result reports the scenes, their number and the settings, with the
      frame-based minimum and the content value fixed at 0. */
  function Run<F>(isOpened: bool, videoFilePath: string, frames: seq<DecodedFrame<F>>, fps: real,
                  interval: int, minLenSecs: int, minLen: int, threshold: real,
                  differ: (F, F) -> bool): (r: Result<SceneDetectionResult>)
    ensures !isOpened ==> r == Err(ValueError("Error opening video file"))
    ensures isOpened ==> (r.Ok? <==> Detect(frames, interval, minLen, differ).Ok?)
    ensures r.Ok? ==>
      && r.value.scenes == Detect(frames, interval, minLen, differ).value
      && r.value.sceneCount == |r.value.scenes|
      && r.value.videoFilePath == videoFilePath
      && r.value.frameRateSecs == fps
      && r.value.minSceneLengthSecs == minLenSecs
      && r.value.adaptiveThreshold == threshold
      && r.value.minSceneLengthFrames == 0
      && r.value.minContentVal == 0
  {
    if !isOpened then Err(ValueError("Error opening video file"))
    else
      var scenes :- Detect(frames, interval, minLen, differ);
      Ok(SceneDetectionResult(videoFilePath, |scenes|, fps, minLenSecs, 0, threshold, scenes, 0))
  }

  // ---------------------------------------------------------------- invariant

  /** `"00:00:00.000"`, the start time of the first scene. */
  lemma FormatZero(t: nat)
    requires t == 0
    ensures FormatTime(t) == "00:00:00.000"
  {
    assert DigitChar(0) == '0';
    assert Decimal(0) == "0";
    assert Zeros(1) == "0";
    assert Zeros(2) == "00";
    assert ZeroPad(0, 2) == "00";
    assert ZeroPad(0, 3) == "000";
    assert FormatTime(0) == Clock("00", "00", "00", "000");
  }

  /** Time of the frame with 1-based count c, or 0 before the first frame. */
  function TimeAt<F>(frames: seq<DecodedFrame<F>>, c: nat): nat
    requires c <= |frames|
  {
    if c == 0 then 0 else frames[c - 1].posMs
  }

  /** What an emitted scene satisfies, frame side: it ends on a sampled
      frame that is the first sample or differs from the sample `d` frames
      before it, and it is at least `minLen` frames long. */
  ghost predicate GoodFrames<F>(sc: Boundary, frames: seq<DecodedFrame<F>>, d: nat, minLen: int, differ: (F, F) -> bool)
    requires d > 0
  {
    && 0 <= sc.startFrame < sc.endFrame <= |frames|
    && sc.endFrame % d == 0
    && sc.endFrame - sc.startFrame >= minLen
    && (sc.endFrame == d || (sc.endFrame > d && differ(frames[sc.endFrame - d - 1].image, frames[sc.endFrame - 1].image)))
  }

  /** ... and time side: its times are those of its first and last frames,
      0 for a scene starting before the first frame. */
  ghost predicate GoodTimes<F>(sc: Boundary, frames: seq<DecodedFrame<F>>)
  {
    && 0 <= sc.startFrame < sc.endFrame <= |frames|
    && sc.startMs == TimeAt(frames, sc.startFrame)
    && sc.endMs == frames[sc.endFrame - 1].posMs
  }

  /** The scenes are numbered from 0, the first starts at frame 0 and each
      later one starts where the one before ended; the current scene starts
      where the last one ended. */
  ghost predicate Chained<F>(st: Detector<F>, frames: seq<DecodedFrame<F>>)
  {
    && st.sceneStartFrame <= |frames|
    && st.sceneStartMs == TimeAt(frames, st.sceneStartFrame)
    && Linked(st.scenes, st.sceneStartFrame)
  }

  /** Scene numbering and frame chaining, with `open` where the scene still
      open starts. */
  ghost predicate Linked(scs: seq<Boundary>, open: int) {
    && (forall k :: 0 <= k < |scs| ==> scs[k].index == k)
    && (|scs| == 0 ==> open == 0)
    && (|scs| > 0 ==> scs[0].startFrame == 0 && open == scs[|scs| - 1].endFrame)
    && (forall k :: 0 < k < |scs| ==> scs[k].startFrame == scs[k - 1].endFrame)
  }

  /** Closing the open scene keeps the chain. */
  lemma LinkedAppend(scs: seq<Boundary>, open: int, sc: Boundary)
    requires Linked(scs, open) && sc.index == |scs| && sc.startFrame == open
    ensures Linked(scs + [sc], sc.endFrame)
  {
    var s2 := scs + [sc];
    assert s2[|scs|] == sc;
    forall k | 0 <= k < |scs|
      ensures s2[k] == scs[k]
    {
    }
  }

  /** The comparison reference is the latest sampled frame. */
  ghost predicate PrevIsLastSample<F>(st: Detector<F>, frames: seq<DecodedFrame<F>>, d: nat)
    requires d > 0
  {
    var c := LastSample(|frames|, d);
    && (st.prev.Some? <==> c > 0)
    && (c > 0 ==> st.prev == Some(frames[c - 1].image))
  }

  ghost predicate Inv<F>(st: Detector<F>, frames: seq<DecodedFrame<F>>, d: nat, minLen: int, differ: (F, F) -> bool)
    requires d > 0
  {
    && st.frameCount == |frames|
    && PrevIsLastSample(st, frames, d)
    && Chained(st, frames)
    && AllFrames(st.scenes, frames, d, minLen, differ)
    && AllTimes(st.scenes, frames)
  }

  ghost predicate AllFrames<F>(scs: seq<Boundary>, frames: seq<DecodedFrame<F>>, d: nat, minLen: int,
                               differ: (F, F) -> bool)
    requires d > 0
  {
    forall k :: 0 <= k < |scs| ==> GoodFrames(scs[k], frames, d, minLen, differ)
  }

  ghost predicate AllTimes<F>(scs: seq<Boundary>, frames: seq<DecodedFrame<F>>) {
    forall k :: 0 <= k < |scs| ==> GoodTimes(scs[k], frames)
  }

  lemma FramesAppend<F>(scs: seq<Boundary>, sc: Boundary, frames: seq<DecodedFrame<F>>, d: nat, minLen: int,
                        differ: (F, F) -> bool)
    requires d > 0 && AllFrames(scs, frames, d, minLen, differ) && GoodFrames(sc, frames, d, minLen, differ)
    ensures AllFrames(scs + [sc], frames, d, minLen, differ)
  {
    var s2 := scs + [sc];
    assert s2[|scs|] == sc;
    forall k | 0 <= k < |scs|
      ensures s2[k] == scs[k]
    {
    }
  }

  lemma TimesAppend<F>(scs: seq<Boundary>, sc: Boundary, frames: seq<DecodedFrame<F>>)
    requires AllTimes(scs, frames) && GoodTimes(sc, frames)
    ensures AllTimes(scs + [sc], frames)
  {
    var s2 := scs + [sc];
    assert s2[|scs|] == sc;
    forall k | 0 <= k < |scs|
      ensures s2[k] == scs[k]
    {
    }
  }

  lemma FramesExtend<F>(scs: seq<Boundary>, frames: seq<DecodedFrame<F>>, x: DecodedFrame<F>, d: nat, minLen: int,
                        differ: (F, F) -> bool)
    requires d > 0 && AllFrames(scs, frames, d, minLen, differ)
    ensures AllFrames(scs, frames + [x], d, minLen, differ)
  {
    forall k | 0 <= k < |scs|
      ensures GoodFrames(scs[k], frames + [x], d, minLen, differ)
    {
      GoodFramesExtend(scs[k], frames, x, d, minLen, differ);
    }
  }

  lemma TimesExtend<F>(scs: seq<Boundary>, frames: seq<DecodedFrame<F>>, x: DecodedFrame<F>)
    requires AllTimes(scs, frames)
    ensures AllTimes(scs, frames + [x])
  {
    forall k | 0 <= k < |scs|
      ensures GoodTimes(scs[k], frames + [x])
    {
      GoodTimesExtend(scs[k], frames, x);
    }
  }

  lemma GoodFramesExtend<F>(sc: Boundary, frames: seq<DecodedFrame<F>>, x: DecodedFrame<F>, d: nat, minLen: int,
                            differ: (F, F) -> bool)
    requires d > 0 && GoodFrames(sc, frames, d, minLen, differ)
    ensures GoodFrames(sc, frames + [x], d, minLen, differ)
  {
    var fs := frames + [x];
    assert fs[sc.endFrame - 1] == frames[sc.endFrame - 1];
    if sc.endFrame > d {
      assert fs[sc.endFrame - d - 1] == frames[sc.endFrame - d - 1];
    }
  }

  lemma GoodTimesExtend<F>(sc: Boundary, frames: seq<DecodedFrame<F>>, x: DecodedFrame<F>)
    requires GoodTimes(sc, frames)
    ensures GoodTimes(sc, frames + [x])
  {
    var fs := frames + [x];
    assert fs[sc.endFrame - 1] == frames[sc.endFrame - 1];
    assert TimeAt(fs, sc.startFrame) == TimeAt(frames, sc.startFrame);
  }

  lemma StepPrev<F>(st: Detector<F>, frames: seq<DecodedFrame<F>>, x: DecodedFrame<F>, d: nat, minLen: int,
                    differ: (F, F) -> bool)
    requires d > 0 && st.frameCount == |frames| && PrevIsLastSample(st, frames, d)
    ensures PrevIsLastSample(Step(st, x, d, minLen, differ), frames + [x], d)
  {
    var fs := frames + [x];
    var n := |frames|;
    LastSampleStep(n, d);
    if (n + 1) % d == 0 {
      assert fs[n] == x;
    } else if LastSample(n, d) > 0 {
      assert fs[LastSample(n, d) - 1] == frames[LastSample(n, d) - 1];
    }
  }

  lemma StepChained<F>(st: Detector<F>, frames: seq<DecodedFrame<F>>, x: DecodedFrame<F>, d: nat, minLen: int,
                       differ: (F, F) -> bool)
    requires d > 0 && st.frameCount == |frames| && Chained(st, frames)
    ensures Chained(Step(st, x, d, minLen, differ), frames + [x])
  {
    var fs := frames + [x];
    var next := Step(st, x, d, minLen, differ);
    assert TimeAt(fs, st.sceneStartFrame) == TimeAt(frames, st.sceneStartFrame);
    if |next.scenes| > |st.scenes| {
      assert TimeAt(fs, |frames| + 1) == x.posMs;
      LinkedAppend(st.scenes, st.sceneStartFrame, next.scenes[|st.scenes|]);
    }
  }

  /** A scene closed at the frame just read is a good one. */
  lemma NewSceneFrames<F>(st: Detector<F>, frames: seq<DecodedFrame<F>>, x: DecodedFrame<F>, d: nat, minLen: int,
                          differ: (F, F) -> bool, startMs: nat, endMs: nat)
    requires d > 0 && st.frameCount == |frames| && PrevIsLastSample(st, frames, d)
    requires st.sceneStartFrame <= |frames|
    requires (|frames| + 1) % d == 0 && |frames| + 1 - st.sceneStartFrame >= minLen
    requires st.prev.None? || differ(st.prev.value, x.image)
    ensures GoodFrames(Boundary(|st.scenes|, startMs, endMs, st.sceneStartFrame, |frames| + 1),
                       frames + [x], d, minLen, differ)
  {
    var fs := frames + [x];
    var n := |frames|;
    LastSampleStep(n, d);
    assert fs[n] == x;
    if n + 1 > d {
      assert fs[n - d] == frames[LastSample(n, d) - 1];
    } else {
      assert LastSample(n, d) == 0;
    }
  }

  lemma NewSceneTimes<F>(st: Detector<F>, frames: seq<DecodedFrame<F>>, x: DecodedFrame<F>)
    requires st.sceneStartFrame <= |frames| && st.sceneStartMs == TimeAt(frames, st.sceneStartFrame)
    ensures GoodTimes(Boundary(|st.scenes|, st.sceneStartMs, x.posMs, st.sceneStartFrame, |frames| + 1),
                      frames + [x])
  {
    var fs := frames + [x];
    assert fs[|frames|] == x;
    assert TimeAt(fs, st.sceneStartFrame) == TimeAt(frames, st.sceneStartFrame);
  }

  /** One pass keeps every scene well formed, frame side and time side. */
  lemma StepGood<F>(st: Detector<F>, frames: seq<DecodedFrame<F>>, x: DecodedFrame<F>, d: nat, minLen: int,
                    differ: (F, F) -> bool)
    requires d > 0 && Inv(st, frames, d, minLen, differ)
    ensures AllFrames(Step(st, x, d, minLen, differ).scenes, frames + [x], d, minLen, differ)
    ensures AllTimes(Step(st, x, d, minLen, differ).scenes, frames + [x])
  {
    StepFrames(st, frames, x, d, minLen, differ);
    StepTimes(st, frames, x, d, minLen, differ);
  }

  lemma StepFrames<F>(st: Detector<F>, frames: seq<DecodedFrame<F>>, x: DecodedFrame<F>, d: nat, minLen: int,
                      differ: (F, F) -> bool)
    requires d > 0 && st.frameCount == |frames| && st.sceneStartFrame <= |frames|
    requires PrevIsLastSample(st, frames, d) && AllFrames(st.scenes, frames, d, minLen, differ)
    ensures AllFrames(Step(st, x, d, minLen, differ).scenes, frames + [x], d, minLen, differ)
  {
    var next := Step(st, x, d, minLen, differ);
    FramesExtend(st.scenes, frames, x, d, minLen, differ);
    if |next.scenes| > |st.scenes| {
      var sc := next.scenes[|st.scenes|];
      assert next.scenes == st.scenes + [sc];
      NewSceneFrames(st, frames, x, d, minLen, differ, sc.startMs, sc.endMs);
      FramesAppend(st.scenes, sc, frames + [x], d, minLen, differ);
    }
  }

  lemma StepTimes<F>(st: Detector<F>, frames: seq<DecodedFrame<F>>, x: DecodedFrame<F>, d: nat, minLen: int,
                     differ: (F, F) -> bool)
    requires d > 0 && st.sceneStartFrame <= |frames| && st.sceneStartMs == TimeAt(frames, st.sceneStartFrame)
    requires st.frameCount == |frames| && AllTimes(st.scenes, frames)
    ensures AllTimes(Step(st, x, d, minLen, differ).scenes, frames + [x])
  {
    TimesExtend(st.scenes, frames, x);
    EmitTimes(st, frames, x);
  }

  /** The scene closed at frame `x` keeps the times right. */
  lemma EmitTimes<F>(st: Detector<F>, frames: seq<DecodedFrame<F>>, x: DecodedFrame<F>)
    requires st.sceneStartFrame <= |frames| && st.sceneStartMs == TimeAt(frames, st.sceneStartFrame)
    requires AllTimes(st.scenes, frames + [x])
    ensures AllTimes(st.scenes + [Boundary(|st.scenes|, st.sceneStartMs, x.posMs, st.sceneStartFrame, |frames| + 1)],
                     frames + [x])
  {
    NewSceneTimes(st, frames, x);
    TimesAppend(st.scenes, Boundary(|st.scenes|, st.sceneStartMs, x.posMs, st.sceneStartFrame, |frames| + 1),
                frames + [x]);
  }

  lemma StepInv<F>(st: Detector<F>, frames: seq<DecodedFrame<F>>, x: DecodedFrame<F>, d: nat, minLen: int,
                   differ: (F, F) -> bool)
    requires d > 0 && Inv(st, frames, d, minLen, differ)
    ensures Inv(Step(st, x, d, minLen, differ), frames + [x], d, minLen, differ)
  {
    StepPrev(st, frames, x, d, minLen, differ);
    StepChained(st, frames, x, d, minLen, differ);
    StepGood(st, frames, x, d, minLen, differ);
  }

  lemma {:induction false} AfterInv<F>(frames: seq<DecodedFrame<F>>, d: nat, minLen: int, differ: (F, F) -> bool)
    requires d > 0
    ensures Inv(After(frames, d, minLen, differ), frames, d, minLen, differ)
  {
    if |frames| > 0 {
      var n := |frames| - 1;
      AfterInv(frames[..n], d, minLen, differ);
      assert frames[..n] + [frames[n]] == frames;
      StepInv(After(frames[..n], d, minLen, differ), frames[..n], frames[n], d, minLen, differ);
    } else {
      assert LastSample(0, d) == 0;
    }
  }

  // ---------------------------------------------------------------- properties

  /** Scenes are numbered 0, 1, 2, ... in the order they are emitted. */
  lemma ScenesIndexed<F>(frames: seq<DecodedFrame<F>>, d: nat, minLen: int, differ: (F, F) -> bool)
    requires d > 0
    ensures var scs := Detect(frames, d, minLen, differ).value;
            forall k :: 0 <= k < |scs| ==> scs[k].index == k
  {
    AfterInv(frames, d, minLen, differ);
  }

  /** The first scene starts at frame 0 and time "00:00:00.000", and each
      later one starts at the frame and time where the one before ended. */
  lemma ScenesChained<F>(frames: seq<DecodedFrame<F>>, d: nat, minLen: int, differ: (F, F) -> bool)
    requires d > 0
    ensures var scs := Detect(frames, d, minLen, differ).value;
            && (|scs| > 0 ==> scs[0].startFrame == 0 && scs[0].startTime == "00:00:00.000")
            && (forall k :: 0 < k < |scs| ==>
                  scs[k].startFrame == scs[k - 1].endFrame && scs[k].startTime == scs[k - 1].endTime)
  {
    var bs := After(frames, d, minLen, differ).scenes;
    var scs := ShownAll(bs, FormatTime);
    AfterInv(frames, d, minLen, differ);
    if |scs| > 0 {
      assert GoodTimes(bs[0], frames);
      FormatZero(bs[0].startMs);
    }
    forall k | 0 < k < |scs|
      ensures scs[k].startFrame == scs[k - 1].endFrame && scs[k].startTime == scs[k - 1].endTime
    {
      TimesMeet(bs[k - 1], bs[k], frames);
    }
  }

  /** A scene starting at the frame where another ended starts at the time
      that one ended. */
  lemma TimesMeet<F>(a: Boundary, b: Boundary, frames: seq<DecodedFrame<F>>)
    requires GoodTimes(a, frames) && GoodTimes(b, frames) && b.startFrame == a.endFrame
    ensures b.startMs == a.endMs
  {
  }

  /** No frame after the last emitted end belongs to any scene: every scene
      ends at or before the start of the scene still open, which is where
      the last one ended. */
  lemma TailNotEmitted<F>(frames: seq<DecodedFrame<F>>, d: nat, minLen: int, differ: (F, F) -> bool)
    requires d > 0
    ensures var st := After(frames, d, minLen, differ);
            var scs := Detect(frames, d, minLen, differ).value;
            && st.sceneStartFrame == (if |scs| == 0 then 0 else scs[|scs| - 1].endFrame)
            && (forall k :: 0 <= k < |scs| ==> scs[k].startFrame < scs[k].endFrame <= st.sceneStartFrame)
  {
    var st := After(frames, d, minLen, differ);
    var bs := st.scenes;
    BoundariesBeforeOpen(frames, d, minLen, differ);
    ShownFrames(bs, FormatTime);
    var scs := ShownAll(bs, FormatTime);
    assert Detect(frames, d, minLen, differ).value == scs;
    if |bs| > 0 {
      assert scs[|scs| - 1].endFrame == bs[|bs| - 1].endFrame;
    }
    forall k | 0 <= k < |scs|
      ensures scs[k].startFrame < scs[k].endFrame <= st.sceneStartFrame
    {
    }
  }

  /** `TailNotEmitted` for the closed scenes before their times are written. */
  lemma BoundariesBeforeOpen<F>(frames: seq<DecodedFrame<F>>, d: nat, minLen: int, differ: (F, F) -> bool)
    requires d > 0
    ensures After(frames, d, minLen, differ).sceneStartFrame
            == (if |After(frames, d, minLen, differ).scenes| == 0 then 0
                else After(frames, d, minLen, differ).scenes[|After(frames, d, minLen, differ).scenes| - 1].endFrame)
    ensures forall k :: 0 <= k < |After(frames, d, minLen, differ).scenes| ==>
              After(frames, d, minLen, differ).scenes[k].startFrame < After(frames, d, minLen, differ).scenes[k].endFrame
                <= After(frames, d, minLen, differ).sceneStartFrame
  {
    var st := After(frames, d, minLen, differ);
    var bs := st.scenes;
    AfterInv(frames, d, minLen, differ);
    forall k | 0 <= k < |bs|
      ensures bs[k].startFrame < bs[k].endFrame
    {
      assert GoodFrames(bs[k], frames, d, minLen, differ);
    }
    EndsBelowStart(bs, st.sceneStartFrame);
  }

  /** Writing the times leaves the numbering and the frames alone. */
  lemma ShownFrames(bs: seq<Boundary>, fmt: nat -> string)
    ensures forall k :: 0 <= k < |bs| ==>
              && ShownAll(bs, fmt)[k].index == bs[k].index
              && ShownAll(bs, fmt)[k].startFrame == bs[k].startFrame
              && ShownAll(bs, fmt)[k].endFrame == bs[k].endFrame
  {
  }

  lemma {:induction false} EndsBelowStart(scs: seq<Boundary>, start: int)
    requires forall k :: 0 <= k < |scs| ==> scs[k].startFrame < scs[k].endFrame
    requires forall k :: 0 < k < |scs| ==> scs[k].startFrame == scs[k - 1].endFrame
    requires |scs| > 0 ==> start == scs[|scs| - 1].endFrame
    ensures forall k :: 0 <= k < |scs| ==> scs[k].endFrame <= start
  {
    if |scs| > 1 {
      var n := |scs| - 1;
      EndsBelowStart(scs[..n], scs[n - 1].endFrame);
    }
  }

  /** Every scene is at least `minLen` frames long and ends on a sampled
      frame: a positive multiple of the interval within the video. */
  lemma ScenesLongEnough<F>(frames: seq<DecodedFrame<F>>, d: nat, minLen: int, differ: (F, F) -> bool)
    requires d > 0
    ensures var scs := Detect(frames, d, minLen, differ).value;
            forall k :: 0 <= k < |scs| ==>
              && scs[k].endFrame - scs[k].startFrame >= minLen
              && 0 < scs[k].endFrame <= |frames|
              && scs[k].endFrame % d == 0
  {
    var bs := After(frames, d, minLen, differ).scenes;
    AfterInv(frames, d, minLen, differ);
    forall k | 0 <= k < |bs|
      ensures bs[k].endFrame - bs[k].startFrame >= minLen && 0 < bs[k].endFrame <= |frames| && bs[k].endFrame % d == 0
    {
      assert GoodFrames(bs[k], frames, d, minLen, differ);
    }
  }

  /** A scene ends at the first sample or at a sample that differs from the
      sample taken `d` frames before: the reference is the previous sample,
      whether or not it closed a scene. Its end time is that frame's time. */
  lemma ScenesEndAtChanges<F>(frames: seq<DecodedFrame<F>>, d: nat, minLen: int, differ: (F, F) -> bool)
    requires d > 0
    ensures var scs := Detect(frames, d, minLen, differ).value;
            forall k :: 0 <= k < |scs| ==>
              && 0 < scs[k].endFrame <= |frames|
              && scs[k].endTime == FormatTime(frames[scs[k].endFrame - 1].posMs)
              && (scs[k].endFrame == d
                  || (scs[k].endFrame > d && differ(frames[scs[k].endFrame - d - 1].image, frames[scs[k].endFrame - 1].image)))
  {
    var bs := After(frames, d, minLen, differ).scenes;
    BoundariesEndAtChanges(frames, d, minLen, differ);
    ShownEndAtChanges(bs, frames, d, differ, FormatTime);
    var scs := ShownAll(bs, FormatTime);
    assert Detect(frames, d, minLen, differ).value == scs;
    forall k | 0 <= k < |scs|
      ensures ShownEndsAtChange(scs[k], frames, d, differ, FormatTime)
    {
    }
  }

  /** A closed scene ends at the first sample or at a sample that differs
      from the one before it, at that frame's time. */
  ghost predicate EndsAtChange<F>(b: Boundary, frames: seq<DecodedFrame<F>>, d: nat, differ: (F, F) -> bool) {
    && 0 < b.endFrame <= |frames|
    && b.endMs == frames[b.endFrame - 1].posMs
    && (b.endFrame == d || (b.endFrame > d && differ(frames[b.endFrame - d - 1].image, frames[b.endFrame - 1].image)))
  }

  ghost predicate ShownEndsAtChange<F>(sc: SceneInfo, frames: seq<DecodedFrame<F>>, d: nat, differ: (F, F) -> bool,
                                       fmt: nat -> string) {
    && 0 < sc.endFrame <= |frames|
    && sc.endTime == fmt(frames[sc.endFrame - 1].posMs)
    && (sc.endFrame == d || (sc.endFrame > d && differ(frames[sc.endFrame - d - 1].image, frames[sc.endFrame - 1].image)))
  }

  lemma ShownEndAtChanges<F>(bs: seq<Boundary>, frames: seq<DecodedFrame<F>>, d: nat, differ: (F, F) -> bool,
                             fmt: nat -> string)
    requires forall k :: 0 <= k < |bs| ==> EndsAtChange(bs[k], frames, d, differ)
    ensures forall k :: 0 <= k < |bs| ==> ShownEndsAtChange(ShownAll(bs, fmt)[k], frames, d, differ, fmt)
  {
    var scs := ShownAll(bs, fmt);
    forall k | 0 <= k < |scs|
      ensures 0 < scs[k].endFrame <= |frames|
      ensures scs[k].endTime == fmt(frames[scs[k].endFrame - 1].posMs)
      ensures scs[k].endFrame == d
              || (scs[k].endFrame > d && differ(frames[scs[k].endFrame - d - 1].image, frames[scs[k].endFrame - 1].image))
    {
      assert EndsAtChange(bs[k], frames, d, differ);
    }
  }

  /** `ScenesEndAtChanges` with the times in milliseconds. */
  lemma BoundariesEndAtChanges<F>(frames: seq<DecodedFrame<F>>, d: nat, minLen: int, differ: (F, F) -> bool)
    requires d > 0
    ensures forall k :: 0 <= k < |After(frames, d, minLen, differ).scenes| ==>
              EndsAtChange(After(frames, d, minLen, differ).scenes[k], frames, d, differ)
  {
    var bs := After(frames, d, minLen, differ).scenes;
    AfterInv(frames, d, minLen, differ);
    forall k | 0 <= k < |bs|
      ensures 0 < bs[k].endFrame <= |frames| && bs[k].endMs == frames[bs[k].endFrame - 1].posMs
      ensures bs[k].endFrame == d
              || (bs[k].endFrame > d && differ(frames[bs[k].endFrame - d - 1].image, frames[bs[k].endFrame - 1].image))
    {
      assert GoodFrames(bs[k], frames, d, minLen, differ);
      assert GoodTimes(bs[k], frames);
    }
  }

  /** After any number of frames the comparison reference is the latest
      sampled frame, and there is none before the first sample. */
  lemma ReferenceIsLastSample<F>(frames: seq<DecodedFrame<F>>, d: nat, minLen: int, differ: (F, F) -> bool)
    requires d > 0
    ensures var st := After(frames, d, minLen, differ);
            var c := LastSample(|frames|, d);
            && (st.prev.None? <==> |frames| < d)
            && (c > 0 ==> st.prev == Some(frames[c - 1].image))
  {
    AfterInv(frames, d, minLen, differ);
  }

  /** Reading more frames only appends scenes. */
  lemma {:induction false} AfterPrefix<F>(frames: seq<DecodedFrame<F>>, m: nat, d: nat, minLen: int, differ: (F, F) -> bool)
    requires d > 0 && m <= |frames|
    ensures var before := After(frames[..m], d, minLen, differ).scenes;
            var after := After(frames, d, minLen, differ).scenes;
            |before| <= |after| && after[..|before|] == before
  {
    if m < |frames| {
      var n := |frames| - 1;
      AfterPrefix(frames[..n], m, d, minLen, differ);
      assert frames[..n][..m] == frames[..m];
      var mid := After(frames[..n], d, minLen, differ).scenes;
      var after := After(frames, d, minLen, differ).scenes;
      assert after[..|mid|] == mid;
    } else {
      assert frames[..m] == frames;
    }
  }

  /** A sampled frame that is the first sample or differs from the previous
      sample closes a scene exactly when the open scene is at least `minLen`
      frames long by then; a frame that is not sampled never does. */
  lemma BoundaryEmitted<F>(frames: seq<DecodedFrame<F>>, c: nat, d: nat, minLen: int, differ: (F, F) -> bool)
    requires d > 0 && 0 < c <= |frames|
    ensures var st := After(frames[..c - 1], d, minLen, differ);
            var closes := c % d == 0 && (st.prev.None? || differ(st.prev.value, frames[c - 1].image))
                          && c - st.sceneStartFrame >= minLen;
            var now := After(frames[..c], d, minLen, differ).scenes;
            && (closes ==> |now| == |st.scenes| + 1 && now[|st.scenes|].endFrame == c
                           && now[|st.scenes|].startFrame == st.sceneStartFrame)
            && (!closes ==> now == st.scenes)
  {
    var st := After(frames[..c - 1], d, minLen, differ);
    AfterInv(frames[..c - 1], d, minLen, differ);
    assert frames[..c][..c - 1] == frames[..c - 1];
    assert frames[..c][c - 1] == frames[c - 1];
  }

  /** With a minimum no longer than the interval, the first sample always
      closes the first scene. */
  lemma FirstSampleCloses<F>(frames: seq<DecodedFrame<F>>, d: nat, minLen: int, differ: (F, F) -> bool)
    requires d > 0 && |frames| >= d && minLen <= d
    ensures var scs := Detect(frames, d, minLen, differ).value;
            |scs| > 0 && scs[0].startFrame == 0 && scs[0].endFrame == d
  {
    var st := After(frames[..d - 1], d, minLen, differ);
    AfterInv(frames[..d - 1], d, minLen, differ);
    ModOf(0, d, d - 1);
    assert LastSample(d - 1, d) == 0;
    assert st.scenes == [];
    ModOf(1, d, 0);
    BoundaryEmitted(frames, d, d, minLen, differ);
    AfterPrefix(frames, d, d, minLen, differ);
  }
}
