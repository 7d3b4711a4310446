/** Transcribed phrases and the transcription queries of
    src/ytsum/models.py (repeated in src/ytsum/alignment.py).

    Two phrase shapes occur in the source: the caption parser produces a
    phrase with its start already in milliseconds, while the aligner keeps
    the raw timestamp string and converts it every time `starts_at_ms` is
    read, which can fail.
 */
module Transcript {
  import opened Wrappers
  import opened Timestamps

  /** A phrase with its start time in milliseconds. */
  datatype Phrase = Phrase(text: string, startMs: nat)

  /** `TranscribedPhrase(text, starts_at)`: the start is kept as written. */
  datatype StampedPhrase = StampedPhrase(text: string, startsAt: string)

  /** `starts_at_ms`: the stored timestamp read by `convert_timestamp_to_ms`. */
  function StartsAtMs(p: StampedPhrase): Result<int> {
    ConvertTimestampToMs(p.startsAt)
  }

  /** Every element read in order; the first element that fails to read
      gives the error. */
  function ReadAll<T>(xs: seq<T>, read: T -> Result<int>): (r: Result<seq<int>>)
    ensures r.Ok? <==> forall i :: 0 <= i < |xs| ==> read(xs[i]).Ok?
    ensures r.Ok? ==> |r.value| == |xs| && forall i :: 0 <= i < |xs| ==> read(xs[i]) == Ok(r.value[i])
    ensures r.Err? ==> exists i :: 0 <= i < |xs| && read(xs[i]) == Err(r.error)
                                   && forall j :: 0 <= j < i ==> read(xs[j]).Ok?
  {
    if |xs| == 0 then Ok([])
    else
      var t :- read(xs[0]);
      var rest :- ReadAll(xs[1..], read);
      assert forall i :: 1 <= i < |xs| ==> xs[i] == xs[1..][i - 1];
      Ok([t] + rest)
  }

  /** The texts of the phrases, in order. */
  function Texts(ps: seq<Phrase>): (ts: seq<string>)
    ensures |ts| == |ps| && forall i :: 0 <= i < |ps| ==> ts[i] == ps[i].text
  {
    seq(|ps|, i requires 0 <= i < |ps| => ps[i].text)
  }

  function StampedTexts(ps: seq<StampedPhrase>): (ts: seq<string>)
    ensures |ts| == |ps| && forall i :: 0 <= i < |ps| ==> ts[i] == ps[i].text
  {
    seq(|ps|, i requires 0 <= i < |ps| => ps[i].text)
  }

  /** The start of every phrase, in order. */
  function StartTimes(ps: seq<StampedPhrase>): Result<seq<int>> {
    ReadAll(ps, StartsAtMs)
  }

  /** The starts are read one by one and the first unreadable timestamp is
      the error. */
  lemma StartTimesRead(ps: seq<StampedPhrase>)
    ensures StartTimes(ps).Ok? <==> forall i :: 0 <= i < |ps| ==> StartsAtMs(ps[i]).Ok?
    ensures StartTimes(ps).Ok? ==>
              |StartTimes(ps).value| == |ps| && forall i :: 0 <= i < |ps| ==> StartsAtMs(ps[i]) == Ok(StartTimes(ps).value[i])
    ensures StartTimes(ps).Err? ==>
              exists i :: 0 <= i < |ps| && StartsAtMs(ps[i]) == Err(StartTimes(ps).error)
                          && forall j :: 0 <= j < i ==> StartsAtMs(ps[j]).Ok?
  {
  }

  // ---------------------------------------------------------------- windows

  /** The elements whose time lies in the half-open window [a, b), kept in
      their original order. */
  function Select<T>(xs: seq<T>, ts: seq<int>, a: int, b: int): (r: seq<T>)
    requires |xs| == |ts|
    ensures |r| <= |xs|
  {
    if |xs| == 0 then []
    else
      var n := |xs| - 1;
      Select(xs[..n], ts[..n], a, b) + (if a <= ts[n] < b then [xs[n]] else [])
  }

  /** The positions whose time lies in [a, b), ascending. */
  function Positions(ts: seq<int>, a: int, b: int): (idx: seq<nat>)
    ensures forall k :: 0 <= k < |idx| ==> idx[k] < |ts|
    ensures forall k, l :: 0 <= k < l < |idx| ==> idx[k] < idx[l]
    ensures forall i :: 0 <= i < |ts| ==> (i in idx <==> a <= ts[i] < b)
  {
    if |ts| == 0 then []
    else
      var n := |ts| - 1;
      var rest := Positions(ts[..n], a, b);
      assert forall i :: 0 <= i < n ==> ts[..n][i] == ts[i];
      rest + (if a <= ts[n] < b then [n] else [])
  }

  /** The selection is exactly the elements at the positions in the window,
      in ascending position order. */
  lemma {:induction false} SelectPositions<T>(xs: seq<T>, ts: seq<int>, a: int, b: int)
    requires |xs| == |ts|
    ensures |Select(xs, ts, a, b)| == |Positions(ts, a, b)|
    ensures forall k :: 0 <= k < |Positions(ts, a, b)| ==>
              Select(xs, ts, a, b)[k] == xs[Positions(ts, a, b)[k]]
  {
    if |xs| > 0 {
      var n := |xs| - 1;
      SelectPositions(xs[..n], ts[..n], a, b);
    }
  }

  /** An empty or inverted window selects nothing. */
  lemma {:induction false} SelectEmpty<T>(xs: seq<T>, ts: seq<int>, a: int, b: int)
    requires |xs| == |ts| && a >= b
    ensures Select(xs, ts, a, b) == []
  {
    if |xs| > 0 {
      SelectEmpty(xs[..|xs| - 1], ts[..|xs| - 1], a, b);
    }
  }

  /** Adjacent windows [a, b) and [b, c) split [a, c): no position is in
      both, and together they select the same multiset of elements. */
  lemma {:induction false} SelectSplit<T>(xs: seq<T>, ts: seq<int>, a: int, b: int, c: int)
    requires |xs| == |ts| && a <= b <= c
    ensures forall i :: !(i in Positions(ts, a, b) && i in Positions(ts, b, c))
    ensures multiset(Select(xs, ts, a, b)) + multiset(Select(xs, ts, b, c)) == multiset(Select(xs, ts, a, c))
  {
    if |xs| > 0 {
      var n := |xs| - 1;
      SelectSplit(xs[..n], ts[..n], a, b, c);
    }
  }

  /** Every selected element comes from the input at a position whose time
      lies in the window. */
  lemma SelectSound<T>(xs: seq<T>, ts: seq<int>, a: int, b: int, k: nat)
    requires |xs| == |ts| && k < |Select(xs, ts, a, b)|
    ensures exists i :: 0 <= i < |xs| && a <= ts[i] < b && Select(xs, ts, a, b)[k] == xs[i]
  {
    SelectPositions(xs, ts, a, b);
    var i := Positions(ts, a, b)[k];
    assert i in Positions(ts, a, b);
  }

  // ---------------------------------------------------------------- queries

  /** `get_phrases_in_range(start_ms, end_ms)`: every phrase's start is read
      (the first unreadable one raises) and those in [start_ms, end_ms) are
      kept in order. */
  function PhrasesInRange(ps: seq<StampedPhrase>, startMs: int, endMs: int): (r: Result<seq<StampedPhrase>>)
    ensures r.Ok? <==> StartTimes(ps).Ok?
    ensures r.Err? ==> r.error == StartTimes(ps).error
  {
    var ts :- StartTimes(ps);
    Ok(Select(ps, ts, startMs, endMs))
  }

  /** A phrase is in the window's result exactly when its start lies in
      [startMs, endMs); the result keeps the input order. */
  lemma PhrasesInRangeExact(ps: seq<StampedPhrase>, startMs: int, endMs: int)
    requires PhrasesInRange(ps, startMs, endMs).Ok?
    ensures var r := PhrasesInRange(ps, startMs, endMs).value;
            var ts := StartTimes(ps).value;
            var idx := Positions(ts, startMs, endMs);
            && |ts| == |ps|
            && |r| == |idx|
            && (forall k :: 0 <= k < |idx| ==> r[k] == ps[idx[k]])
            && (forall i :: 0 <= i < |ps| ==> (i in idx <==> startMs <= ts[i] < endMs))
  {
    SelectPositions(ps, StartTimes(ps).value, startMs, endMs);
  }

  /** Largest element. */
  function Max(ts: seq<int>): (m: int)
    requires |ts| > 0
    ensures m in ts
    ensures forall i :: 0 <= i < |ts| ==> ts[i] <= m
  {
    if |ts| == 1 then ts[0]
    else
      var rest := Max(ts[1..]);
      assert forall i :: 1 <= i < |ts| ==> ts[i] == ts[1..][i - 1];
      if ts[0] >= rest then ts[0] else rest
  }

  /** One second past the latest time; there is no latest of no times. */
  function Latest(ts: seq<int>): (r: Result<int>)
    ensures r.Ok? <==> |ts| > 0
    ensures r.Err? ==> r.error == EmptyMax
    ensures r.Ok? ==> forall i :: 0 <= i < |ts| ==> ts[i] + 1000 <= r.value
    ensures r.Ok? ==> exists i :: 0 <= i < |ts| && r.value == ts[i] + 1000
  {
    if |ts| == 0 then Err(EmptyMax)
    else
      var m := Max(ts);
      ghost var i :| 0 <= i < |ts| && ts[i] == m;
      Ok(m + 1000)
  }

  /** `get_end_time`: one second past the latest phrase start. `max()` of
      no phrases raises. */
  function EndTime(ps: seq<StampedPhrase>): Result<int> {
    var ts :- StartTimes(ps);
    Latest(ts)
  }

  /** The end time exists exactly for a non-empty transcription whose starts
      all read; it exceeds every start by at least a second and some start
      by exactly a second. */
  lemma EndTimeBounds(ps: seq<StampedPhrase>)
    ensures |ps| == 0 ==> EndTime(ps) == Err(EmptyMax)
    ensures EndTime(ps).Ok? <==> |ps| > 0 && StartTimes(ps).Ok?
    ensures EndTime(ps).Ok? ==> forall i :: 0 <= i < |ps| ==> StartTimes(ps).value[i] + 1000 <= EndTime(ps).value
    ensures EndTime(ps).Ok? ==> exists i :: 0 <= i < |ps| && EndTime(ps).value == StartTimes(ps).value[i] + 1000
  {
  }

  /** The window from some start up to one second past the latest time
      holds every element whose time is at or after that start. */
  lemma LatestCoversTail<T>(xs: seq<T>, ts: seq<int>, startMs: int, i: nat)
    requires |xs| == |ts| && i < |ts| && ts[i] >= startMs
    ensures Latest(ts).Ok?
    ensures xs[i] in Select(xs, ts, startMs, Latest(ts).value)
  {
    var e := Latest(ts).value;
    SelectPositions(xs, ts, startMs, e);
    var idx := Positions(ts, startMs, e);
    assert i in idx;
    var k :| 0 <= k < |idx| && idx[k] == i;
    assert Select(xs, ts, startMs, e)[k] == xs[i];
  }
}
