/** `VideoImageExtractor.run` (src/ytsum/video.py): of the sampled frames,
    keep the first and then every frame that differs from the last frame
    KEPT, and save them as `frame-0000.jpg`, `frame-0001.jpg`, ...

    Decoding and the mean-squared-error test are outside the model: a frame
    is a value of an opaque type and "differs" is a predicate passed in.
 */
module Extraction {
  import opened Wrappers
  import opened Text
  import opened Sampling

  /** A saved image: its file name and the frame written to it. */
  datatype SavedImage<F> = SavedImage(name: string, frame: F)

  /** The positions, among `s`, of the frames kept: the first one, then each
      one that differs from the last one kept. */
  function Kept<F>(s: seq<F>, differ: (F, F) -> bool): (idx: seq<nat>)
    ensures forall k :: 0 <= k < |idx| ==> idx[k] < |s|
    ensures |s| > 0 ==> |idx| > 0 && idx[0] == 0
  {
    if |s| == 0 then []
    else
      var n := |s| - 1;
      var idx := Kept(s[..n], differ);
      if |idx| == 0 || differ(s[idx[|idx| - 1]], s[n]) then idx + [n] else idx
  }

  /** Looking at one more frame appends its position or nothing. */
  lemma KeptGrows<F>(s: seq<F>, differ: (F, F) -> bool)
    requires |s| > 0
    ensures var prefix := Kept(s[..|s| - 1], differ);
            Kept(s, differ) == prefix + (if |prefix| == 0 || differ(s[prefix[|prefix| - 1]], s[|s| - 1]) then [|s| - 1] else [])
  {
  }

  /** Each kept frame differs from the one kept before it. */
  lemma {:induction false} KeptDiffer<F>(s: seq<F>, differ: (F, F) -> bool)
    ensures var idx := Kept(s, differ);
            forall k :: 0 < k < |idx| ==> differ(s[idx[k - 1]], s[idx[k]])
  {
    if |s| > 0 {
      var n := |s| - 1;
      KeptDiffer(s[..n], differ);
      KeptGrows(s, differ);
      var prefix := Kept(s[..n], differ);
      assert forall k :: 0 <= k < |prefix| ==> s[..n][prefix[k]] == s[prefix[k]];
    }
  }

  /** Positions are kept in increasing order. */
  lemma {:induction false} KeptIncreasing<F>(s: seq<F>, differ: (F, F) -> bool)
    ensures var idx := Kept(s, differ);
            forall k, l :: 0 <= k < l < |idx| ==> idx[k] < idx[l]
  {
    if |s| > 0 {
      KeptIncreasing(s[..|s| - 1], differ);
      KeptGrows(s, differ);
    }
  }

  lemma KeptExtends<F>(s: seq<F>, differ: (F, F) -> bool)
    requires |s| > 0
    ensures var prefix := Kept(s[..|s| - 1], differ);
            Kept(s, differ) == prefix || Kept(s, differ) == prefix + [|s| - 1]
  {
  }

  /** What was kept among the first m frames stays kept, at the front, when
      more frames are looked at; later saves are at positions m or beyond. */
  lemma {:induction false} KeptPrefix<F>(s: seq<F>, differ: (F, F) -> bool, m: nat)
    requires m <= |s|
    ensures var before := Kept(s[..m], differ);
            var idx := Kept(s, differ);
            && |before| <= |idx|
            && idx[..|before|] == before
            && forall k :: |before| <= k < |idx| ==> idx[k] >= m
  {
    if m < |s| {
      var n := |s| - 1;
      KeptPrefix(s[..n], differ, m);
      assert s[..n][..m] == s[..m];
      KeptExtends(s, differ);
      var before, shorter, idx := Kept(s[..m], differ), Kept(s[..n], differ), Kept(s, differ);
      assert idx[..|shorter|] == shorter;
      forall k | |before| <= k < |idx|
        ensures idx[k] >= m
      {
        if k < |shorter| {
          assert idx[k] == shorter[k];
        } else {
          assert |idx| != |shorter|;
          assert idx == shorter + [n];
          assert k == |shorter|;
        }
      }
    } else {
      assert s[..m] == s;
    }
  }

  /** Every frame left out resembles the last frame kept before it: the
      comparison reference moves only on a save. */
  lemma SkippedResembleLastKept<F>(s: seq<F>, differ: (F, F) -> bool, i: nat)
    requires i < |s| && i !in Kept(s, differ)
    ensures var before := Kept(s[..i], differ);
            |before| > 0 && !differ(s[before[|before| - 1]], s[i])
  {
    var u := s[..i + 1];
    KeptPrefix(s, differ, i + 1);
    KeptGrows(u, differ);
    assert u[..i] == s[..i];
    var before := Kept(s[..i], differ);
    var now := Kept(u, differ);
    assert i !in now;
    assert now == before;
  }

  /** The frames kept, in order. */
  function Keep<F>(s: seq<F>, differ: (F, F) -> bool): (r: seq<F>)
    ensures |r| == |Kept(s, differ)|
    ensures forall k :: 0 <= k < |r| ==> r[k] == s[Kept(s, differ)[k]]
  {
    var idx := Kept(s, differ);
    seq(|idx|, k requires 0 <= k < |idx| => s[idx[k]])
  }

  /** `f"frame-{count:04d}.{image_format}"` */
  function ImageName(count: nat, ext: string): string {
    "frame-" + ZeroPad(count, 4) + "." + ext
  }

  /** The kept frames under consecutive names. */
  function Named<F>(frames: seq<F>, ext: string): (r: seq<SavedImage<F>>)
    ensures |r| == |frames|
    ensures forall k :: 0 <= k < |r| ==> r[k] == SavedImage(ImageName(k, ext), frames[k])
  {
    seq(|frames|, k requires 0 <= k < |frames| => SavedImage(ImageName(k, ext), frames[k]))
  }

  /** What `run` saves, as a function of its inputs: nothing if the video
      cannot be opened, a division by zero on the first frame if the interval
      is 0, otherwise the kept samples under consecutive names. */
  function Extracted<F>(isOpened: bool, frames: seq<F>, interval: int, ext: string,
                        differ: (F, F) -> bool): Result<seq<SavedImage<F>>>
  {
    if !isOpened then Err(ValueError("Error opening video file"))
    else if interval == 0 then (if |frames| == 0 then Ok([]) else Err(ZeroDivision))
    else Ok(Named(Keep(Samples(frames, interval), differ), ext))
  }

  /** `VideoImageExtractor.run`: the read loop with its counters. */
  method Run<F>(isOpened: bool, frames: seq<F>, interval: int, ext: string, differ: (F, F) -> bool)
    returns (r: Result<seq<SavedImage<F>>>)
    ensures r == Extracted(isOpened, frames, interval, ext, differ)
  {
    if !isOpened {
      return Err(ValueError("Error opening video file"));
    }
    var prev: Option<F> := None;
    var saved: seq<SavedImage<F>> := [];
    var frameCount := 0;
    ghost var kept: seq<F> := [];
    while frameCount < |frames|
      invariant 0 <= frameCount <= |frames|
      invariant interval == 0 ==> frameCount == 0 && saved == []
      invariant interval != 0 ==> Tracks(frames, interval, differ, ext, frameCount, kept, saved, prev)
    {
      var frame := frames[frameCount];
      if interval == 0 {
        return Err(ZeroDivision);
      }
      frameCount := frameCount + 1;
      var save := frameCount % interval == 0 && (prev.None? || differ(prev.value, frame));
      SaveStep(frames, frameCount, interval, differ, ext, kept, saved, prev, save);
      if save {
        saved := saved + [SavedImage(ImageName(|saved|, ext), frame)];
        prev := Some(frame);
        kept := kept + [frame];
      }
    }
    assert frames[..frameCount] == frames;
    return Ok(saved);
  }

  /** The loop invariant of `run`: after `count` frames the images saved
      are the kept samples under consecutive names, and the reference is
      the last sample kept. */
  ghost predicate Tracks<F>(frames: seq<F>, interval: int, differ: (F, F) -> bool, ext: string, count: nat,
                            kept: seq<F>, saved: seq<SavedImage<F>>, prev: Option<F>)
  {
    && interval != 0 && count <= |frames|
    && kept == Keep(Samples(frames[..count], interval), differ)
    && saved == Named(kept, ext)
    && prev == LastOf(kept)
  }

  /** The last element, if any. */
  function LastOf<T>(s: seq<T>): (r: Option<T>)
    ensures r.None? <==> |s| == 0
  {
    if |s| == 0 then None else Some(s[|s| - 1])
  }

  /** One more frame read: the kept samples grow by that frame exactly when
      it is sampled and differs from the last kept one (or none was kept). */
  lemma SampleStep<F>(frames: seq<F>, count: nat, interval: int, differ: (F, F) -> bool,
                      kept: seq<F>, save: bool)
    requires interval != 0 && 0 < count <= |frames|
    requires kept == Keep(Samples(frames[..count - 1], interval), differ)
    requires var prev := LastOf(kept);
             save == (count % interval == 0 && (prev.None? || differ(prev.value, frames[count - 1])))
    ensures Keep(Samples(frames[..count], interval), differ) == kept + (if save then [frames[count - 1]] else [])
  {
    var b := Samples(frames[..count - 1], interval);
    assert frames[..count][..count - 1] == frames[..count - 1];
    if count % interval == 0 {
      assert Samples(frames[..count], interval) == b + [frames[count - 1]];
      KeepSnoc(b, frames[count - 1], differ);
    } else {
      assert Samples(frames[..count], interval) == b;
    }
  }

  /** One pass of `run`'s loop keeps the invariant. */
  lemma SaveStep<F>(frames: seq<F>, count: nat, interval: int, differ: (F, F) -> bool, ext: string,
                    kept: seq<F>, saved: seq<SavedImage<F>>, prev: Option<F>, save: bool)
    requires 0 < count <= |frames| && Tracks(frames, interval, differ, ext, count - 1, kept, saved, prev)
    requires save == (count % interval == 0 && (prev.None? || differ(prev.value, frames[count - 1])))
    ensures save ==> Tracks(frames, interval, differ, ext, count, kept + [frames[count - 1]],
                            saved + [SavedImage(ImageName(|saved|, ext), frames[count - 1])], Some(frames[count - 1]))
    ensures !save ==> Tracks(frames, interval, differ, ext, count, kept, saved, prev)
  {
    SampleStep(frames, count, interval, differ, kept, save);
    NamedSnoc(kept, frames[count - 1], ext);
  }

  lemma NamedSnoc<F>(kept: seq<F>, x: F, ext: string)
    ensures Named(kept + [x], ext) == Named(kept, ext) + [SavedImage(ImageName(|kept|, ext), x)]
  {
  }

  /** Looking at one more sample keeps it exactly when nothing was kept yet
      or it differs from the last frame kept. */
  lemma KeepSnoc<F>(s: seq<F>, x: F, differ: (F, F) -> bool)
    ensures var before := Keep(s, differ);
            Keep(s + [x], differ)
              == before + (if |before| == 0 || differ(before[|before| - 1], x) then [x] else [])
  {
    var t := s + [x];
    assert t[..|s|] == s;
    var idx := Kept(s, differ);
    assert forall k :: 0 <= k < |idx| ==> t[idx[k]] == s[idx[k]];
  }

  // ---------------------------------------------------------------- properties

  /** The first sample is always saved, as `frame-0000`. */
  lemma FirstSampleSaved<F>(frames: seq<F>, interval: nat, ext: string, differ: (F, F) -> bool)
    requires interval > 0 && |frames| >= interval
    ensures var r := Extracted(true, frames, interval, ext, differ);
            r.Ok? && |r.value| > 0 && r.value[0] == SavedImage(ImageName(0, ext), frames[interval - 1])
  {
    SomeSample(frames, interval);
    SamplesAre(frames, interval);
    assert SampleAt(frames, interval, Samples(frames, interval), 0);
    assert Mult(1, interval) == interval;
  }

  /** Something is saved exactly when the video has at least `interval`
      frames. */
  lemma SavesIffLongEnough<F>(frames: seq<F>, interval: nat, ext: string, differ: (F, F) -> bool)
    requires interval > 0
    ensures |Extracted(true, frames, interval, ext, differ).value| > 0 <==> |frames| >= interval
  {
    SomeSample(frames, interval);
  }

  /** The saved frames are sampled frames in their original order, and each
      differs from the one saved before it. */
  lemma SavedAreOrderedSamples<F>(frames: seq<F>, interval: nat, ext: string, differ: (F, F) -> bool)
    requires interval > 0
    ensures var r := Extracted(true, frames, interval, ext, differ).value;
            var samples := Samples(frames, interval);
            var idx := Kept(samples, differ);
            && |r| == |idx|
            && (forall k :: 0 <= k < |r| ==> r[k].frame == samples[idx[k]])
            && (forall k, l :: 0 <= k < l < |idx| ==> idx[k] < idx[l])
            && (forall k :: 0 < k < |r| ==> differ(r[k - 1].frame, r[k].frame))
  {
    KeptDiffer(Samples(frames, interval), differ);
    KeptIncreasing(Samples(frames, interval), differ);
  }

  /** Length of the run of digits at the start of `s`. */
  function DigitRun(s: string): (n: nat)
    ensures n <= |s|
  {
    if |s| == 0 || !IsDigit(s[0]) then 0 else 1 + DigitRun(s[1..])
  }

  lemma {:induction false} DigitRunPrefix(p: string, rest: string)
    requires AllDigits(p) && |rest| > 0 && !IsDigit(rest[0])
    ensures DigitRun(p + rest) == |p|
  {
    if |p| > 0 {
      assert (p + rest)[1..] == p[1..] + rest;
      DigitRunPrefix(p[1..], rest);
    } else {
      assert p + rest == rest;
    }
  }

  /** After "frame-" a saved image's name holds exactly its padded count as
      digits. */
  lemma NameDigits(count: nat, ext: string)
    ensures var name := ImageName(count, ext);
            var pad := ZeroPad(count, 4);
            && |name| > 6 + |pad|
            && name[6..6 + |pad|] == pad
            && DigitRun(name[6..]) == |pad|
  {
    var name := ImageName(count, ext);
    var pad := ZeroPad(count, 4);
    assert name[6..] == pad + ("." + ext);
    DigitRunPrefix(pad, "." + ext);
  }

  /** Different counts give different file names, so no image overwrites
      another. */
  lemma NamesDistinct(i: nat, j: nat, ext: string)
    ensures ImageName(i, ext) == ImageName(j, ext) <==> i == j
  {
    if ImageName(i, ext) == ImageName(j, ext) {
      var name := ImageName(i, ext);
      NameDigits(i, ext);
      NameDigits(j, ext);
      var a, b := ZeroPad(i, 4), ZeroPad(j, 4);
      assert |a| == |b|;
      assert a == name[6..6 + |a|] == b;
      ZeroPadParses(i, 4);
      ZeroPadParses(j, 4);
    }
  }
}
