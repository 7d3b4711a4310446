/** Phrase extraction from WebVTT captions: `parse_vtt_file`
    (src/ytsum/transcription/parsers.py) and its twin in the aligner,
    `parse_subtitle_line` with `_get_transcription` (src/ytsum/alignment.py).

    Both scan a caption line, prefixed with the caption's own start time as a
    tag, with the pattern `<(\d{2}:\d{2}:\d{2}\.\d{3})>(?:<c>)?([^<]+)(?:</c>)?`;
    here the pattern is a hand-written left-to-right scanner with the same
    backtracking outcome. Reading the WebVTT file is outside the model: a
    caption is its start string and its raw text, and the library's "line has
    cue tags" test is a predicate passed in.
 */
module Captions {
  import opened Wrappers
  import opened Text
  import opened Timestamps
  import opened Transcript

  /** One `findall` result: the captured timestamp and the captured text. */
  datatype Match = Match(stamp: string, text: string)

  /** `<DD:DD:DD.DDD>` starts at position p. */
  predicate TagAt(s: string, p: nat) {
    p + 14 <= |s| && s[p] == '<' && IsStamp(s[p + 1..p + 13]) && s[p + 13] == '>'
  }

  /** Where the text group starts after the timestamp tag ends at q: the
      optional `<c>` is taken only when a text character follows it, since
      otherwise the pattern backtracks and `[^<]+` fails on its '<' anyway. */
  function TextStart(s: string, q: nat): (t: nat)
    requires q <= |s|
    ensures q <= t <= |s|
  {
    if q + 4 <= |s| && s[q..q + 3] == "<c>" && s[q + 3] != '<' then q + 3 else q
  }

  /** End of the longest run of non-'<' characters from t. */
  function TextEnd(s: string, t: nat): (e: nat)
    requires t <= |s|
    ensures t <= e <= |s|
    ensures forall k :: t <= k < e ==> s[k] != '<'
    ensures e == |s| || s[e] == '<'
    decreases |s| - t
  {
    if t == |s| || s[t] == '<' then t else TextEnd(s, t + 1)
  }

  /** End of the match: the optional `</c>` after the text is consumed. */
  function MatchEnd(s: string, e: nat): (n: nat)
    requires e <= |s|
    ensures e <= n <= |s|
  {
    if e + 4 <= |s| && s[e..e + 4] == "</c>" then e + 4 else e
  }

  /** The pattern tried at position p: the match and where scanning resumes. */
  function MatchAt(s: string, p: nat): (r: Option<(Match, nat)>)
    ensures r.Some? ==> p < r.value.1 <= |s|
    ensures r.Some? ==> IsStamp(r.value.0.stamp) && |r.value.0.text| > 0 && '<' !in r.value.0.text
  {
    if !TagAt(s, p) then None
    else
      var t := TextStart(s, p + 14);
      if t < |s| && s[t] != '<' then
        var e := TextEnd(s, t);
        Some((Match(s[p + 1..p + 13], s[t..e]), MatchEnd(s, e)))
      else None
  }

  /** `PHRASE_PATTERN.findall(s[p..])`: non-overlapping matches, left to
      right. */
  function FindAll(s: string, p: nat): (ms: seq<Match>)
    requires p <= |s|
    ensures forall k :: 0 <= k < |ms| ==> IsStamp(ms[k].stamp) && |ms[k].text| > 0 && '<' !in ms[k].text
    decreases |s| - p
  {
    if p == |s| then []
    else
      match MatchAt(s, p)
      case Some((m, next)) => [m] + FindAll(s, next)
      case None => FindAll(s, p + 1)
  }

  /** A stretch without '<' holds no match. */
  lemma {:induction false} NoTagNoMatch(s: string, p: nat)
    requires p <= |s| && forall k :: p <= k < |s| ==> s[k] != '<'
    ensures FindAll(s, p) == []
    decreases |s| - p
  {
    if p < |s| {
      NoTagNoMatch(s, p + 1);
    }
  }

  /** The line a caption contributes, with the caption's start prepended as
      a timestamp tag. */
  function Tagged(start: string, line: string): string {
    "<" + start + ">" + line
  }

  /** A line that opens with text (possibly inside `<c>`) starts its first
      match at the prepended tag, so its first phrase carries the caption's
      start time. */
  lemma FirstMatchIsCueStart(start: string, line: string)
    requires IsStamp(start)
    requires (|line| > 0 && line[0] != '<') || (|line| > 3 && line[..3] == "<c>" && line[3] != '<')
    ensures |FindAll(Tagged(start, line), 0)| > 0
    ensures FindAll(Tagged(start, line), 0)[0].stamp == start
  {
    var s := Tagged(start, line);
    assert s[1..13] == start;
    assert s[14..] == line;
    if line[0] == '<' {
      assert s[14..17] == line[..3];
    }
    assert MatchAt(s, 0).Some?;
  }

  /** A plain line (no '<' in it) yields exactly one match: the prepended
      start time with the whole line as text. */
  lemma PlainLineOneMatch(start: string, line: string)
    requires IsStamp(start) && |line| > 0 && '<' !in line
    ensures FindAll(Tagged(start, line), 0) == [Match(start, line)]
  {
    var s := Tagged(start, line);
    assert s[1..13] == start;
    assert s[14..] == line;
    assert forall k :: 14 <= k < |s| ==> s[k] == line[k - 14];
    assert s[14] == line[0];
    assert TextStart(s, 14) == 14;
    assert TextEnd(s, 14) == |s| by {
      TextEndPlain(s, 14);
    }
    assert s[0] == '<' && s[13] == '>';
    assert TagAt(s, 0);
    assert s[14..|s|] == line;
    assert MatchEnd(s, |s|) == |s|;
    assert MatchAt(s, 0) == Some((Match(start, line), |s|));
  }

  lemma {:induction false} TextEndPlain(s: string, t: nat)
    requires t <= |s| && forall k :: t <= k < |s| ==> s[k] != '<'
    ensures TextEnd(s, t) == |s|
    decreases |s| - t
  {
    if t < |s| {
      TextEndPlain(s, t + 1);
    }
  }

  // ---------------------------------------------------------------- phrases

  /** Milliseconds of a captured "DD:DD:DD.DDD". */
  function StampMs(stamp: string): (ms: nat)
    requires IsStamp(stamp)
    ensures ConvertTimestampToMs(stamp) == Ok(ms)
  {
    StampConverts(stamp);
    ConvertTimestampToMs(stamp).value
  }

  /** A captured timestamp always converts, to a non-negative number. */
  lemma StampConverts(stamp: string)
    requires IsStamp(stamp)
    ensures ConvertTimestampToMs(stamp).Ok? && ConvertTimestampToMs(stamp).value >= 0
  {
    assert stamp == Fields(stamp[..2], stamp[3..5], stamp[6..8], stamp[9..], ':', ':', '.');
    DigitFieldsConvert(stamp[..2], stamp[3..5], stamp[6..8], stamp[9..], ':', ':', '.');
  }

  /** The phrase `parse_vtt_file` builds from one match. */
  function ToPhrase(m: Match): (p: Phrase)
    requires IsStamp(m.stamp)
    ensures ConvertTimestampToMs(m.stamp) == Ok(p.startMs)
    ensures p.text == Strip(m.text)
  {
    Phrase(Strip(m.text), StampMs(m.stamp))
  }

  /** The phrase `parse_subtitle_line` builds from one match: raw timestamp,
      unstripped text. */
  function ToStamped(m: Match): StampedPhrase {
    StampedPhrase(m.text, m.stamp)
  }

  /** The phrases of one caption line: none unless the line has cue tags. */
  function LinePhrases(start: string, line: string, hasCueTags: string -> bool): (ps: seq<Phrase>)
    ensures !hasCueTags(line) ==> ps == []
    ensures forall k :: 0 <= k < |ps| ==> '<' !in ps[k].text && Strip(ps[k].text) == ps[k].text
  {
    if !hasCueTags(line) then []
    else
      var ms := FindAll(Tagged(start, line), 0);
      seq(|ms|, k requires 0 <= k < |ms| => StrippedClean(ms[k].text); ToPhrase(ms[k]))
  }

  /** Stripping keeps "no '<'" and is idempotent. */
  lemma StrippedClean(text: string)
    requires '<' !in text
    ensures '<' !in Strip(text) && Strip(Strip(text)) == Strip(text)
  {
    if '<' in Strip(text) {
      StripChars(text, '<');
    }
    StripNoSpace(Strip(text));
  }

  /** Concatenation of the phrases of each line, in line order. */
  function LinesPhrases(start: string, lines: seq<string>, hasCueTags: string -> bool): (ps: seq<Phrase>)
    ensures (forall i :: 0 <= i < |lines| ==> !hasCueTags(lines[i])) ==> ps == []
    ensures forall k :: 0 <= k < |ps| ==> '<' !in ps[k].text && Strip(ps[k].text) == ps[k].text
  {
    if |lines| == 0 then []
    else LinePhrases(start, lines[0], hasCueTags) + LinesPhrases(start, lines[1..], hasCueTags)
  }

  /** A caption as the WebVTT reader delivers it. */
  datatype Caption = Caption(start: string, rawText: string)

  /** The phrases of one caption: its raw text split on "\n". */
  function CaptionPhrases(c: Caption, hasCueTags: string -> bool): seq<Phrase> {
    LinesPhrases(c.start, Split(c.rawText, '\n'), hasCueTags)
  }

  /** All phrases, caption by caption. */
  function AllPhrases(cs: seq<Caption>, hasCueTags: string -> bool): (ps: seq<Phrase>)
    ensures forall k :: 0 <= k < |ps| ==> '<' !in ps[k].text && Strip(ps[k].text) == ps[k].text
  {
    if |cs| == 0 then [] else CaptionPhrases(cs[0], hasCueTags) + AllPhrases(cs[1..], hasCueTags)
  }

  /** Captions are processed in order: the phrases of two runs of captions
      are the phrases of the first run followed by those of the second. */
  lemma {:induction false} AllPhrasesAppend(cs1: seq<Caption>, cs2: seq<Caption>, hasCueTags: string -> bool)
    ensures AllPhrases(cs1 + cs2, hasCueTags) == AllPhrases(cs1, hasCueTags) + AllPhrases(cs2, hasCueTags)
  {
    if |cs1| > 0 {
      assert (cs1 + cs2)[1..] == cs1[1..] + cs2;
      AllPhrasesAppend(cs1[1..], cs2, hasCueTags);
    } else {
      assert cs1 + cs2 == cs2;
    }
  }

  /** `parse_vtt_file`: a path that does not exist or is not a file raises
      before anything is read. */
  function ParseVttFile(path: string, exists_: bool, isFile: bool, captions: seq<Caption>,
                        hasCueTags: string -> bool): (r: Result<seq<Phrase>>)
    ensures !exists_ || !isFile <==> r.Err?
    ensures r.Err? ==> r.error == FileNotFound("Input file " + path + " is not a file or does not exist.")
    ensures r.Ok? ==> forall k :: 0 <= k < |r.value| ==> '<' !in r.value[k].text && Strip(r.value[k].text) == r.value[k].text
  {
    if !exists_ || !isFile then Err(FileNotFound("Input file " + path + " is not a file or does not exist."))
    else Ok(AllPhrases(captions, hasCueTags))
  }

  // ---------------------------------------------------------------- aligner twin

  /** `parse_subtitle_line`: one phrase per match, raw timestamp and
      unstripped text. */
  function ParseSubtitleLine(line: string): (ps: seq<StampedPhrase>)
    ensures |ps| == |FindAll(line, 0)|
    ensures forall k :: 0 <= k < |ps| ==>
              ps[k].startsAt == FindAll(line, 0)[k].stamp && ps[k].text == FindAll(line, 0)[k].text
    ensures forall k :: 0 <= k < |ps| ==> IsStamp(ps[k].startsAt) && |ps[k].text| > 0 && '<' !in ps[k].text
  {
    var ms := FindAll(line, 0);
    seq(|ms|, k requires 0 <= k < |ms| => ToStamped(ms[k]))
  }

  /** A plain caption line, prefixed with its caption's start, is one phrase
      in the aligner: the start and the whole unstripped line. */
  lemma PlainLineStamped(start: string, line: string)
    requires IsStamp(start) && |line| > 0 && '<' !in line
    ensures ParseSubtitleLine(Tagged(start, line)) == [StampedPhrase(line, start)]
  {
    PlainLineOneMatch(start, line);
  }

  /** `_get_transcription`: the lines with cue tags of every caption, each
      prefixed with its caption's start, through `parse_subtitle_line`. */
  function StampedLines(start: string, lines: seq<string>, hasCueTags: string -> bool): seq<StampedPhrase> {
    if |lines| == 0 then []
    else
      (if hasCueTags(lines[0]) then ParseSubtitleLine(Tagged(start, lines[0])) else [])
        + StampedLines(start, lines[1..], hasCueTags)
  }

  function Transcription(cs: seq<Caption>, hasCueTags: string -> bool): seq<StampedPhrase> {
    if |cs| == 0 then []
    else StampedLines(cs[0].start, Split(cs[0].rawText, '\n'), hasCueTags) + Transcription(cs[1..], hasCueTags)
  }

  /** The phrase `parse_vtt_file` makes from the aligner's phrase. */
  function Parsed(p: StampedPhrase): Phrase
    requires IsStamp(p.startsAt)
  {
    Phrase(Strip(p.text), StampMs(p.startsAt))
  }

  /** `ps` is, element by element, `raw` as `parse_vtt_file` reads it. */
  predicate Agree(raw: seq<StampedPhrase>, ps: seq<Phrase>) {
    && |raw| == |ps|
    && forall k :: 0 <= k < |ps| ==> AgreeAt(raw[k], ps[k])
  }

  predicate AgreeAt(r: StampedPhrase, p: Phrase) {
    IsStamp(r.startsAt) && p == Parsed(r)
  }

  /** The two parsers agree: `parse_vtt_file` yields, in the same order, the
      aligner's phrases with the text stripped and the timestamp converted. */
  lemma {:induction false} ParsersAgree(cs: seq<Caption>, hasCueTags: string -> bool)
    ensures Agree(Transcription(cs, hasCueTags), AllPhrases(cs, hasCueTags))
  {
    if |cs| > 0 {
      var lines := Split(cs[0].rawText, '\n');
      LinesAgree(cs[0].start, lines, hasCueTags);
      ParsersAgree(cs[1..], hasCueTags);
      AgreeConcat(StampedLines(cs[0].start, lines, hasCueTags), CaptionPhrases(cs[0], hasCueTags),
                  Transcription(cs[1..], hasCueTags), AllPhrases(cs[1..], hasCueTags));
    }
  }

  lemma AgreeConcat(raw1: seq<StampedPhrase>, ps1: seq<Phrase>, raw2: seq<StampedPhrase>, ps2: seq<Phrase>)
    requires Agree(raw1, ps1) && Agree(raw2, ps2)
    ensures Agree(raw1 + raw2, ps1 + ps2)
  {
    PairwiseConcat(raw1, ps1, raw2, ps2, AgreeAt);
  }

  lemma PairwiseConcat<A, B>(a1: seq<A>, b1: seq<B>, a2: seq<A>, b2: seq<B>, P: (A, B) -> bool)
    requires |a1| == |b1| && forall k :: 0 <= k < |a1| ==> P(a1[k], b1[k])
    requires |a2| == |b2| && forall k :: 0 <= k < |a2| ==> P(a2[k], b2[k])
    ensures forall k :: 0 <= k < |a1| + |a2| ==> P((a1 + a2)[k], (b1 + b2)[k])
  {
    forall k | |a1| <= k < |a1| + |a2|
      ensures P((a1 + a2)[k], (b1 + b2)[k])
    {
      assert P(a2[k - |a1|], b2[k - |a1|]);
    }
  }

  lemma LineAgree(start: string, line: string, hasCueTags: string -> bool)
    ensures Agree(if hasCueTags(line) then ParseSubtitleLine(Tagged(start, line)) else [],
                  LinePhrases(start, line, hasCueTags))
  {
  }

  lemma {:induction false} LinesAgree(start: string, lines: seq<string>, hasCueTags: string -> bool)
    ensures Agree(StampedLines(start, lines, hasCueTags), LinesPhrases(start, lines, hasCueTags))
  {
    if |lines| > 0 {
      LineAgree(start, lines[0], hasCueTags);
      LinesAgree(start, lines[1..], hasCueTags);
      AgreeConcat(if hasCueTags(lines[0]) then ParseSubtitleLine(Tagged(start, lines[0])) else [],
                  LinePhrases(start, lines[0], hasCueTags),
                  StampedLines(start, lines[1..], hasCueTags),
                  LinesPhrases(start, lines[1..], hasCueTags));
    }
  }
}
