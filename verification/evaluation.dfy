/** Scoring a scene detector against hand annotations:
    `SceneDetectionEvaluator` of src/ytsum/scene_detection/eval.py and its
    copy `run_eval` in tools/detect_scenes.py.

    `datetime.strptime(s, "%H:%M:%S.%f")` is an oracle from the time text to
    seconds past midnight (or no value when the text does not parse), and
    `Path(a) != Path(b)` is an oracle on the two path strings. The metrics
    are exact rationals.
 */
module Evaluation {
  import opened Wrappers
  import opened SceneDetection

  datatype AnnotatedScene = AnnotatedScene(startTime: string, endTime: string)

  datatype VideoSceneAnnotation = VideoSceneAnnotation(videoFilePath: string, frameRateSecs: real,
                                                       scenes: seq<AnnotatedScene>)

  datatype EvaluationResult = EvaluationResult(
    videoFilePath: string,
    minSceneLengthSecs: int,
    adaptiveThreshold: real,
    minContentVal: int,
    accuracy: real,
    precision: real,
    recall: real,
    f1Score: real)

  /** The four metrics printed by `run_eval`. */
  datatype Metrics = Metrics(accuracy: real, precision: real, recall: real, f1Score: real)

  /** `parse_time`: the parsed time, or a ValueError naming the text and
      the expected format. */
  function ParseTime(s: string, strptime: string -> Option<real>): (r: Result<real>)
    ensures r.Ok? <==> strptime(s).Some?
    ensures r.Ok? ==> r.value == strptime(s).value
    ensures r.Err? ==> r.error == ValueError("Invalid time format: " + s + ". Expected format: HH:MM:SS.mmm")
  {
    match strptime(s)
    case Some(t) => Ok(t)
    case None => Err(ValueError("Invalid time format: " + s + ". Expected format: HH:MM:SS.mmm"))
  }

  function Abs(x: real): real {
    if x < 0.0 then -x else x
  }

  /** `time_difference_seconds`: the first time is parsed first. */
  function TimeDifference(t1: string, t2: string, strptime: string -> Option<real>): (r: Result<real>)
    ensures r.Ok? <==> strptime(t1).Some? && strptime(t2).Some?
    ensures r.Ok? ==> r.value >= 0.0
    ensures r.Ok? ==> r.value == strptime(t2).value - strptime(t1).value
                      || r.value == strptime(t1).value - strptime(t2).value
    ensures r.Err? ==> r == Err(ParseTime(if strptime(t1).None? then t1 else t2, strptime).error)
  {
    var a :- ParseTime(t1, strptime);
    var b :- ParseTime(t2, strptime);
    Ok(Abs(b - a))
  }

  /** `_is_scene_match`: both boundaries within the tolerance, inclusive. */
  function IsSceneMatch(a: AnnotatedScene, d: SceneInfo, tolerance: real, strptime: string -> Option<real>)
    : (r: Result<bool>)
    ensures r.Ok? <==> TimeDifference(a.startTime, d.startTime, strptime).Ok?
                       && TimeDifference(a.endTime, d.endTime, strptime).Ok?
    ensures r.Ok? ==> (r.value <==> TimeDifference(a.startTime, d.startTime, strptime).value <= tolerance
                                     && TimeDifference(a.endTime, d.endTime, strptime).value <= tolerance)
  {
    var startDiff :- TimeDifference(a.startTime, d.startTime, strptime);
    var endDiff :- TimeDifference(a.endTime, d.endTime, strptime);
    Ok(startDiff <= tolerance && endDiff <= tolerance)
  }

  /** The inner loop: the detected scenes are tried in order until one
      matches (then `break`); a time that does not parse raises. */
  function AnyMatch(a: AnnotatedScene, ds: seq<SceneInfo>, tolerance: real, strptime: string -> Option<real>)
    : (r: Result<bool>)
  {
    if |ds| == 0 then Ok(false)
    else
      var m :- IsSceneMatch(a, ds[0], tolerance, strptime);
      if m then Ok(true) else AnyMatch(a, ds[1..], tolerance, strptime)
  }

  /** The outer loop: the number of annotated scenes with a match. */
  function CountMatches(annotated: seq<AnnotatedScene>, ds: seq<SceneInfo>, tolerance: real,
                        strptime: string -> Option<real>): (r: Result<nat>)
    ensures r.Ok? ==> r.value <= |annotated|
  {
    if |annotated| == 0 then Ok(0)
    else
      var m :- AnyMatch(annotated[0], ds, tolerance, strptime);
      var rest :- CountMatches(annotated[1..], ds, tolerance, strptime);
      Ok((if m then 1 else 0) + rest)
  }

  /** accuracy, precision, recall and F1 from the match count. */
  function Score(correct: nat, total: nat, detected: nat): (m: Metrics)
  {
    var accuracy := if total > 0 then correct as real / total as real * 100.0 else 0.0;
    var precision := if detected > 0 then correct as real / detected as real else 0.0;
    var recall := if total > 0 then correct as real / total as real else 0.0;
    var f1 := if precision + recall > 0.0 then 2.0 * (precision * recall) / (precision + recall) else 0.0;
    Metrics(accuracy, precision, recall, f1)
  }

  /** `SceneDetectionEvaluator.run`. */
  function Evaluate(annotation: VideoSceneAnnotation, result: SceneDetectionResult, tolerance: real,
                    samePath: (string, string) -> bool, strptime: string -> Option<real>)
    : (r: Result<EvaluationResult>)
    ensures !samePath(annotation.videoFilePath, result.videoFilePath) ==>
              r == Err(ValueError("Video file paths in annotation and result do not match."))
    ensures r.Ok? ==>
      && r.value.videoFilePath == annotation.videoFilePath
      && r.value.minSceneLengthSecs == result.minSceneLengthSecs
      && r.value.adaptiveThreshold == result.adaptiveThreshold
      && r.value.minContentVal == result.minContentVal
  {
    if !samePath(annotation.videoFilePath, result.videoFilePath) then
      Err(ValueError("Video file paths in annotation and result do not match."))
    else
      var correct :- CountMatches(annotation.scenes, result.scenes, tolerance, strptime);
      var m := Score(correct, |annotation.scenes|, |result.scenes|);
      Ok(EvaluationResult(annotation.videoFilePath, result.minSceneLengthSecs, result.adaptiveThreshold,
                          result.minContentVal, m.accuracy, m.precision, m.recall, m.f1Score))
  }

  /** `run_eval` of tools/detect_scenes.py: the same check and count, with
      the metrics printed rather than returned. */
  function RunEval(annotation: VideoSceneAnnotation, result: SceneDetectionResult, tolerance: real,
                   samePath: (string, string) -> bool, strptime: string -> Option<real>): Result<Metrics>
  {
    if !samePath(annotation.videoFilePath, result.videoFilePath) then
      Err(ValueError("Video file paths in annotation and result do not match."))
    else
      var correct :- CountMatches(annotation.scenes, result.scenes, tolerance, strptime);
      Ok(Score(correct, |annotation.scenes|, |result.scenes|))
  }

  // ---------------------------------------------------------------- properties

  /** An annotated scene has a match, when every time parses. */
  ghost predicate HasMatch(a: AnnotatedScene, ds: seq<SceneInfo>, tolerance: real, strptime: string -> Option<real>)
    requires forall d :: d in ds ==> strptime(d.startTime).Some? && strptime(d.endTime).Some?
    requires strptime(a.startTime).Some? && strptime(a.endTime).Some?
  {
    exists j :: 0 <= j < |ds| && IsSceneMatch(a, ds[j], tolerance, strptime).value
  }

  ghost predicate AllParse(annotated: seq<AnnotatedScene>, ds: seq<SceneInfo>, strptime: string -> Option<real>) {
    && (forall d :: d in ds ==> strptime(d.startTime).Some? && strptime(d.endTime).Some?)
    && (forall a :: a in annotated ==> strptime(a.startTime).Some? && strptime(a.endTime).Some?)
  }

  /** The number of annotated scenes that have a match. */
  ghost function Matched(annotated: seq<AnnotatedScene>, ds: seq<SceneInfo>, tolerance: real,
                         strptime: string -> Option<real>): nat
    requires AllParse(annotated, ds, strptime)
  {
    if |annotated| == 0 then 0
    else (if HasMatch(annotated[0], ds, tolerance, strptime) then 1 else 0) + Matched(annotated[1..], ds, tolerance, strptime)
  }

  /** The inner loop finds a match exactly when there is one. */
  lemma {:induction false} AnyMatchExact(a: AnnotatedScene, ds: seq<SceneInfo>, tolerance: real,
                                         strptime: string -> Option<real>)
    requires AllParse([a], ds, strptime)
    ensures AnyMatch(a, ds, tolerance, strptime) == Ok(HasMatch(a, ds, tolerance, strptime))
  {
    assert a in [a];
    if |ds| > 0 {
      assert forall d :: d in ds[1..] ==> d in ds;
      AnyMatchExact(a, ds[1..], tolerance, strptime);
      if !IsSceneMatch(a, ds[0], tolerance, strptime).value && HasMatch(a, ds, tolerance, strptime) {
        var j :| 0 <= j < |ds| && IsSceneMatch(a, ds[j], tolerance, strptime).value;
        assert ds[1..][j - 1] == ds[j];
      }
    }
  }

  /** When every time parses, the greedy count (first match, then break)
      is the number of annotated scenes that have some match: each annotated
      scene counts at most once. */
  lemma {:induction false} CountIsMatched(annotated: seq<AnnotatedScene>, ds: seq<SceneInfo>, tolerance: real,
                                          strptime: string -> Option<real>)
    requires AllParse(annotated, ds, strptime)
    ensures CountMatches(annotated, ds, tolerance, strptime) == Ok(Matched(annotated, ds, tolerance, strptime))
  {
    if |annotated| > 0 {
      assert annotated[0] in annotated;
      assert forall a :: a in annotated[1..] ==> a in annotated;
      AnyMatchExact(annotated[0], ds, tolerance, strptime);
      CountIsMatched(annotated[1..], ds, tolerance, strptime);
    }
  }

  /** Accuracy lies in [0, 100] and recall in [0, 1]; precision is never
      negative and F1 is 0 exactly when precision and recall are both 0. */
  lemma MetricBounds(correct: nat, total: nat, detected: nat)
    requires correct <= total
    ensures var m := Score(correct, total, detected);
            && 0.0 <= m.accuracy <= 100.0
            && 0.0 <= m.recall <= 1.0
            && m.precision >= 0.0
            && m.f1Score >= 0.0
            && (m.f1Score == 0.0 <==> m.precision == 0.0 || m.recall == 0.0)
  {
    var m := Score(correct, total, detected);
    if total > 0 {
      assert correct as real / total as real <= 1.0;
    }
    if m.precision + m.recall > 0.0 {
      assert m.precision * m.recall >= 0.0;
      if m.precision > 0.0 && m.recall > 0.0 {
        assert m.precision * m.recall > 0.0;
      } else {
        assert m.precision * m.recall == 0.0;
      }
    }
  }

  /** Precision can exceed 1: one detected scene may match several
      annotated ones. */
  lemma PrecisionAboveOne()
    ensures var a := AnnotatedScene("t", "t");
            var d := SceneInfo(0, "t", "t", 0, 1);
            var strptime := (s: string) => Some(0.0);
            var r := CountMatches([a, a], [d], 0.0, strptime);
            r == Ok(2) && Score(r.value, 2, 1).precision == 2.0
  {
    var a := AnnotatedScene("t", "t");
    var d := SceneInfo(0, "t", "t", 0, 1);
    var strptime := (s: string) => Some(0.0);
    assert IsSceneMatch(a, d, 0.0, strptime) == Ok(true);
    assert AnyMatch(a, [d], 0.0, strptime) == Ok(true);
    assert [a, a][1..] == [a];
    assert [a][1..] == [];
    assert CountMatches([a], [d], 0.0, strptime) == Ok(1);
  }

  /** `run_eval` refuses the same path mismatch and computes the same metrics
      as the evaluator. */
  lemma RunEvalAgrees(annotation: VideoSceneAnnotation, result: SceneDetectionResult, tolerance: real,
                      samePath: (string, string) -> bool, strptime: string -> Option<real>)
    ensures var e := Evaluate(annotation, result, tolerance, samePath, strptime);
            var r := RunEval(annotation, result, tolerance, samePath, strptime);
            && (e.Ok? <==> r.Ok?)
            && (e.Err? ==> r.error == e.error)
            && (e.Ok? ==> r.value == Metrics(e.value.accuracy, e.value.precision, e.value.recall, e.value.f1Score))
  {
  }
}
