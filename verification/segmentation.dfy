/** Transcript segmentation (src/ytsum/transcription/segmentation/): the
    LLM-guided segmenter cuts the phrases into chunks of about `chunk_size`
    words, asks the model for breakpoints in each chunk, parses the reply
    line by line and merges the proposed segments into one running list;
    the no-op segmenter returns the whole transcript as one segment.

    The model is an oracle here: `reply(chunk, open)` is its answer for a
    chunk given the segment that is open when the chunk is sent, the two
    things the prompt is built from.
 */
module Segmentation {
  import opened Wrappers
  import opened Text
  import opened Transcript
  import opened Batching

  /** `TranscriptSegment`: a time span, its phrases and what the model said
      about it. */
  datatype Segment = Segment(startMs: int, endMs: int, phrases: seq<Phrase>,
                             title: Option<string>, summary: Option<string>)

  /** `[s] if s else []` for an optional segment. */
  function OpenList(o: Option<Segment>): (r: seq<Segment>)
    ensures |r| <= 1 && (|r| == 1 <==> o.Some?)
  {
    if o.Some? then [o.value] else []
  }

  // ---------------------------------------------------------------- chunks

  /** `len(phrase.text.split())`. */
  function PhraseWords(p: Phrase): nat {
    |Words(p.text)|
  }

  /** Total words over the phrases, for a per-phrase word count `wc`. The
      chunking facts below hold for any count, so they are stated for an
      arbitrary one and used with `PhraseWords`. */
  function WordCount<T>(ps: seq<T>, wc: T -> nat): nat {
    if |ps| == 0 then 0 else WordCount(ps[..|ps| - 1], wc) + wc(ps[|ps| - 1])
  }

  lemma WordCountSnoc<T>(a: seq<T>, p: T, wc: T -> nat)
    ensures (a + [p])[..|a|] == a
    ensures WordCount(a + [p], wc) == WordCount(a, wc) + wc(p)
  {
    assert (a + [p])[..|a|] == a;
  }

  /** A chunk that reached the word budget. */
  ghost predicate Full<T>(c: seq<T>, size: int, wc: T -> nat) {
    WordCount(c, wc) >= size
  }

  /** A chunk that did not reach the budget before its last phrase: its last
      phrase is the one that closed it (a one-phrase chunk always qualifies,
      which matters when the budget is 0 or less). */
  ghost predicate Minimal<T>(c: seq<T>, size: int, wc: T -> nat) {
    |c| > 0 && (|c| == 1 || WordCount(c[..|c| - 1], wc) < size)
  }

  /** The loop of `_split_transcript_into_chunks` from the point where
      `current` holds `count` words. */
  function ChunksFrom<T>(ps: seq<T>, current: seq<T>, count: nat, size: int, wc: T -> nat): seq<seq<T>>
    decreases |ps|
  {
    if |ps| == 0 then (if |current| > 0 then [current] else [])
    else
      var chunk := current + [ps[0]];
      var c := count + wc(ps[0]);
      if c >= size then [chunk] + ChunksFrom(ps[1..], [], 0, size, wc)
      else ChunksFrom(ps[1..], chunk, c, size, wc)
  }

  lemma {:induction false} ChunksFlatten<T>(ps: seq<T>, current: seq<T>, count: nat, size: int, wc: T -> nat)
    ensures Flatten(ChunksFrom(ps, current, count, size, wc)) == current + ps
    decreases |ps|
  {
    if |ps| == 0 {
      if |current| > 0 {
        assert Flatten([current]) == current + Flatten([]);
      }
    } else {
      var chunk := current + [ps[0]];
      var c := count + wc(ps[0]);
      assert chunk + ps[1..] == current + ps;
      if c >= size {
        ChunksFlatten(ps[1..], [], 0, size, wc);
        var rest := ChunksFrom(ps[1..], [], 0, size, wc);
        assert ([chunk] + rest)[1..] == rest;
        assert Flatten([chunk] + rest) == chunk + Flatten(rest);
        assert [] + ps[1..] == ps[1..];
      } else {
        ChunksFlatten(ps[1..], chunk, c, size, wc);
      }
    }
  }

  lemma {:induction false} ChunksShape<T>(ps: seq<T>, current: seq<T>, count: nat, size: int, wc: T -> nat)
    requires count == WordCount(current, wc)
    requires |current| > 0 ==> count < size
    ensures forall k :: 0 <= k < |ChunksFrom(ps, current, count, size, wc)| ==>
              Minimal(ChunksFrom(ps, current, count, size, wc)[k], size, wc)
    ensures forall k :: 0 <= k < |ChunksFrom(ps, current, count, size, wc)| - 1 ==>
              Full(ChunksFrom(ps, current, count, size, wc)[k], size, wc)
    decreases |ps|
  {
    var cs := ChunksFrom(ps, current, count, size, wc);
    if |ps| == 0 {
      if |current| > 0 {
        assert cs == [current];
        WordCountSnoc(current[..|current| - 1], current[|current| - 1], wc);
        assert current[..|current| - 1] + [current[|current| - 1]] == current;
      }
    } else {
      var chunk := current + [ps[0]];
      var c := count + wc(ps[0]);
      WordCountSnoc(current, ps[0], wc);
      assert Minimal(chunk, size, wc);
      if c >= size {
        ChunksShape(ps[1..], [], 0, size, wc);
        var rest := ChunksFrom(ps[1..], [], 0, size, wc);
        assert cs == [chunk] + rest;
        forall k | 0 <= k < |cs|
          ensures Minimal(cs[k], size, wc)
          ensures k < |cs| - 1 ==> Full(cs[k], size, wc)
        {
          if k > 0 {
            assert cs[k] == rest[k - 1];
          } else {
            assert cs[k] == chunk;
            assert WordCount(chunk, wc) == c;
          }
        }
      } else {
        assert cs == ChunksFrom(ps[1..], chunk, c, size, wc);
        ChunksShape(ps[1..], chunk, c, size, wc);
      }
    }
  }

  /** `_split_transcript_into_chunks`: phrases go into the current chunk
      until its words reach `size`; the leftover becomes a last chunk. The
      chunks put back together are the phrases, none is empty, every chunk
      but the last reached the budget, and none reached it before its last
      phrase. */
  function SplitIntoChunks(ps: seq<Phrase>, size: int): (cs: seq<seq<Phrase>>)
    ensures Flatten(cs) == ps
    ensures forall k :: 0 <= k < |cs| ==> Minimal(cs[k], size, PhraseWords)
    ensures forall k :: 0 <= k < |cs| - 1 ==> Full(cs[k], size, PhraseWords)
    ensures NonEmptyChunks(cs)
  {
    ChunksFlatten(ps, [], 0, size, PhraseWords);
    ChunksShape(ps, [], 0, size, PhraseWords);
    assert [] + ps == ps;
    ChunksFrom(ps, [], 0, size, PhraseWords)
  }

  /** An empty transcript gives no chunks, and a non-empty one gives at
      least one. */
  lemma NoChunksOfNothing(ps: seq<Phrase>, size: int)
    ensures |SplitIntoChunks(ps, size)| == 0 <==> |ps| == 0
  {
    var cs := SplitIntoChunks(ps, size);
    FlattenEmpty(cs);
  }

  /** A budget of at most zero words closes a chunk at every phrase. */
  lemma NonPositiveBudget(ps: seq<Phrase>, size: int)
    requires size <= 0
    ensures forall k :: 0 <= k < |SplitIntoChunks(ps, size)| ==> |SplitIntoChunks(ps, size)[k]| == 1
  {
    var cs := SplitIntoChunks(ps, size);
    forall k | 0 <= k < |cs|
      ensures |cs[k]| == 1
    {
      assert Minimal(cs[k], size, PhraseWords);
    }
  }

  // ---------------------------------------------------------------- replies

  /** Python's `int(...)` with the ValueError turned into 0. */
  function IntOrZero(s: string): int {
    match ParseInt(s)
    case Some(v) => v
    case None => 0
  }

  /** The chunk's phrases starting at or after `startMs`, in order. */
  function AtOrAfter(chunk: seq<Phrase>, startMs: int): (r: seq<Phrase>)
    ensures |r| <= |chunk|
    ensures forall p :: p in r <==> p in chunk && p.startMs >= startMs
  {
    if |chunk| == 0 then []
    else
      var n := |chunk| - 1;
      AtOrAfter(chunk[..n], startMs) + (if chunk[n].startMs >= startMs then [chunk[n]] else [])
  }

  /** The segment a "BREAKPOINT:" line opens: it starts at the number after
      the first ':' (0 when that is not an integer), ends where the chunk's
      last phrase starts, holds the chunk's phrases from its start on, and
      has no title or summary yet. */
  function Breakpoint(line: string, chunk: seq<Phrase>): Segment
    requires StartsWith(line, "BREAKPOINT:") && |chunk| > 0
  {
    var startMs := IntOrZero(Strip(line[11..]));
    Segment(startMs, chunk[|chunk| - 1].startMs, AtOrAfter(chunk, startMs), None, None)
  }

  /** The segments finished so far and the one being filled in. */
  datatype ParseState = ParseState(done: seq<Segment>, open: Option<Segment>)

  const Unparsed := ParseState([], None)

  function AllOf(st: ParseState): seq<Segment> {
    st.done + OpenList(st.open)
  }

  /** One line of the reply. */
  function ReadLine(st: ParseState, line: string, chunk: seq<Phrase>): ParseState
    requires |chunk| > 0
  {
    if StartsWith(line, "BREAKPOINT:") then ParseState(AllOf(st), Some(Breakpoint(line, chunk)))
    else if StartsWith(line, "TITLE:") && st.open.Some? then
      st.(open := Some(st.open.value.(title := Some(Strip(line[6..])))))
    else if StartsWith(line, "SUMMARY:") && st.open.Some? then
      st.(open := Some(st.open.value.(summary := Some(Strip(line[8..])))))
    else st
  }

  function ReadLines(st: ParseState, lines: seq<string>, chunk: seq<Phrase>): ParseState
    requires |chunk| > 0
  {
    if |lines| == 0 then st
    else ReadLine(ReadLines(st, lines[..|lines| - 1], chunk), lines[|lines| - 1], chunk)
  }

  /** The reply as the "CONTINUE" test sees it. */
  predicate IsContinue(response: string) {
    Upper(Strip(response)) == "CONTINUE"
  }

  /** `_parse_llm_response`. The chunk is never empty when the segmenter
      calls this (the source indexes its last phrase). */
  function ParseResponse(response: string, chunk: seq<Phrase>): (segs: seq<Segment>)
    requires |chunk| > 0
    ensures IsContinue(response) ==> segs == []
  {
    if IsContinue(response) then []
    else AllOf(ReadLines(Unparsed, Split(Strip(response), '\n'), chunk))
  }

  // ---------------------------------------------------------------- what a reply yields

  /** The lines that open a segment, in order. */
  function BreakpointLines(lines: seq<string>): (r: seq<string>)
    ensures forall k :: 0 <= k < |r| ==> StartsWith(r[k], "BREAKPOINT:")
  {
    if |lines| == 0 then []
    else
      var n := |lines| - 1;
      BreakpointLines(lines[..n]) + (if StartsWith(lines[n], "BREAKPOINT:") then [lines[n]] else [])
  }

  /** The segments the "BREAKPOINT:" lines open, before any title or
      summary is filled in. */
  function Opened(lines: seq<string>, chunk: seq<Phrase>): seq<Segment>
    requires |chunk| > 0
  {
    if |lines| == 0 then []
    else
      var n := |lines| - 1;
      Opened(lines[..n], chunk) + (if StartsWith(lines[n], "BREAKPOINT:") then [Breakpoint(lines[n], chunk)] else [])
  }

  lemma {:induction false} OpenedPerLine(lines: seq<string>, chunk: seq<Phrase>)
    requires |chunk| > 0
    ensures |Opened(lines, chunk)| == |BreakpointLines(lines)|
    ensures forall k :: 0 <= k < |Opened(lines, chunk)| ==>
              Opened(lines, chunk)[k] == Breakpoint(BreakpointLines(lines)[k], chunk)
  {
    if |lines| > 0 {
      OpenedPerLine(lines[..|lines| - 1], chunk);
    }
  }

  /** A segment without its title and summary. */
  function Bare(s: Segment): Segment {
    s.(title := None, summary := None)
  }

  function BareAll(ss: seq<Segment>): (r: seq<Segment>)
    ensures |r| == |ss| && forall k :: 0 <= k < |ss| ==> r[k] == Bare(ss[k])
  {
    seq(|ss|, k requires 0 <= k < |ss| => Bare(ss[k]))
  }

  lemma BareAppend(a: seq<Segment>, b: seq<Segment>)
    ensures BareAll(a + b) == BareAll(a) + BareAll(b)
  {
  }

  /** One line either opens a segment after the ones so far or leaves them
      as they were up to titles and summaries. */
  lemma ReadLineShape(st: ParseState, line: string, chunk: seq<Phrase>)
    requires |chunk| > 0
    ensures StartsWith(line, "BREAKPOINT:") ==>
              AllOf(ReadLine(st, line, chunk)) == AllOf(st) + [Breakpoint(line, chunk)]
    ensures !StartsWith(line, "BREAKPOINT:") ==>
              BareAll(AllOf(ReadLine(st, line, chunk))) == BareAll(AllOf(st))
  {
    var after := ReadLine(st, line, chunk);
    if !StartsWith(line, "BREAKPOINT:") && st.open.Some? {
      assert after.done == st.done;
      assert after.open.Some? && Bare(after.open.value) == Bare(st.open.value);
      assert |AllOf(after)| == |AllOf(st)|;
    }
  }

  lemma {:induction false} ReadLinesOpen(st: ParseState, lines: seq<string>, chunk: seq<Phrase>)
    requires |chunk| > 0
    ensures BareAll(AllOf(ReadLines(st, lines, chunk))) == BareAll(AllOf(st)) + Opened(lines, chunk)
  {
    if |lines| == 0 {
      assert BareAll(AllOf(st)) + [] == BareAll(AllOf(st));
    } else {
      var n := |lines| - 1;
      var l := lines[n];
      var before := ReadLines(st, lines[..n], chunk);
      ReadLinesOpen(st, lines[..n], chunk);
      ReadLineShape(before, l, chunk);
      if StartsWith(l, "BREAKPOINT:") {
        BareAppend(AllOf(before), [Breakpoint(l, chunk)]);
        assert BareAll([Breakpoint(l, chunk)]) == [Breakpoint(l, chunk)];
      }
    }
  }

  /** One segment per "BREAKPOINT:" line, in order: each starts at that
      line's number (0 if it is not one), ends at the chunk's last phrase
      start and holds the chunk's phrases from its start on. */
  lemma SegmentPerBreakpoint(response: string, chunk: seq<Phrase>)
    requires |chunk| > 0 && !IsContinue(response)
    ensures var bps := BreakpointLines(Split(Strip(response), '\n'));
            var segs := ParseResponse(response, chunk);
            && |segs| == |bps|
            && forall k :: 0 <= k < |bps| ==>
                 && segs[k].startMs == IntOrZero(Strip(bps[k][11..]))
                 && segs[k].endMs == chunk[|chunk| - 1].startMs
                 && segs[k].phrases == AtOrAfter(chunk, segs[k].startMs)
  {
    var lines := Split(Strip(response), '\n');
    ReadLinesOpen(Unparsed, lines, chunk);
    OpenedPerLine(lines, chunk);
    var segs := ParseResponse(response, chunk);
    assert AllOf(Unparsed) == [];
    assert BareAll(segs) == Opened(lines, chunk);
  }

  lemma {:induction false} ReadLinesAppend(st: ParseState, a: seq<string>, b: seq<string>, chunk: seq<Phrase>)
    requires |chunk| > 0
    ensures ReadLines(st, a + b, chunk) == ReadLines(ReadLines(st, a, chunk), b, chunk)
    decreases |b|
  {
    if |b| == 0 {
      assert a + b == a;
    } else {
      var n := |b| - 1;
      assert (a + b)[..|a + b| - 1] == a + b[..n];
      ReadLinesAppend(st, a, b[..n], chunk);
    }
  }

  /** Lines before the first "BREAKPOINT:" change nothing: a "TITLE:" or
      "SUMMARY:" there has no segment to go to. */
  lemma {:induction false} HeaderIgnored(header: seq<string>, rest: seq<string>, chunk: seq<Phrase>)
    requires |chunk| > 0 && BreakpointLines(header) == []
    ensures ReadLines(Unparsed, header + rest, chunk) == ReadLines(Unparsed, rest, chunk)
  {
    ReadLinesAppend(Unparsed, header, rest, chunk);
    NothingOpens(header, chunk);
  }

  lemma {:induction false} NothingOpens(lines: seq<string>, chunk: seq<Phrase>)
    requires |chunk| > 0 && BreakpointLines(lines) == []
    ensures ReadLines(Unparsed, lines, chunk) == Unparsed
  {
    if |lines| > 0 {
      var n := |lines| - 1;
      assert BreakpointLines(lines[..n]) == [];
      NothingOpens(lines[..n], chunk);
    }
  }

  /** Once a segment is open, a later "TITLE:" or "SUMMARY:" line replaces
      that field of it with the stripped text after the first ':' and
      touches nothing else. */
  lemma FieldsOverwrite(st: ParseState, lines: seq<string>, line: string, chunk: seq<Phrase>)
    requires |chunk| > 0 && ReadLines(st, lines, chunk).open.Some?
    ensures StartsWith(line, "TITLE:") ==>
              ReadLines(st, lines + [line], chunk)
              == ReadLines(st, lines, chunk).(open := Some(ReadLines(st, lines, chunk).open.value.(title := Some(Strip(line[6..])))))
    ensures StartsWith(line, "SUMMARY:") ==>
              ReadLines(st, lines + [line], chunk)
              == ReadLines(st, lines, chunk).(open := Some(ReadLines(st, lines, chunk).open.value.(summary := Some(Strip(line[8..])))))
  {
    var all := lines + [line];
    assert all[..|all| - 1] == lines;
    var before := ReadLines(st, lines, chunk);
    assert ReadLines(st, all, chunk) == ReadLine(before, line, chunk);
    if StartsWith(line, "TITLE:") {
      TitleLine(before, line, chunk);
    }
    if StartsWith(line, "SUMMARY:") {
      SummaryLine(before, line, chunk);
    }
  }

  lemma TitleLine(st: ParseState, line: string, chunk: seq<Phrase>)
    requires |chunk| > 0 && st.open.Some? && StartsWith(line, "TITLE:")
    ensures ReadLine(st, line, chunk) == st.(open := Some(st.open.value.(title := Some(Strip(line[6..])))))
  {
    NotBreakpoint(line);
  }

  lemma SummaryLine(st: ParseState, line: string, chunk: seq<Phrase>)
    requires |chunk| > 0 && st.open.Some? && StartsWith(line, "SUMMARY:")
    ensures ReadLine(st, line, chunk) == st.(open := Some(st.open.value.(summary := Some(Strip(line[8..])))))
  {
    NotBreakpoint(line);
    assert line[..6][0] != 'T';
    assert !StartsWith(line, "TITLE:");
  }

  /** The three line prefixes exclude each other. */
  lemma NotBreakpoint(line: string)
    requires StartsWith(line, "TITLE:") || StartsWith(line, "SUMMARY:")
    ensures !StartsWith(line, "BREAKPOINT:")
  {
    if StartsWith(line, "TITLE:") {
      assert line[..6][0] == 'T';
    } else {
      assert line[..8][0] == 'S';
    }
  }

  // ---------------------------------------------------------------- merging

  /** The finished segments of `run` and the one still open. */
  datatype MergeState = MergeState(result: seq<Segment>, open: Option<Segment>)

  /** One chunk's proposed segments folded into the running list: if there
      are any, the open segment is closed one millisecond before the first
      of them, all but the last are finished and the last is the new open
      segment; if there are none, the open segment takes the chunk's phrases
      and ends where its last phrase starts. */
  function MergeStep(st: MergeState, chunk: seq<Phrase>, props: seq<Segment>): MergeState
    requires |chunk| > 0
  {
    if |props| > 0 then
      var closed := if st.open.Some? then [st.open.value.(endMs := props[0].startMs - 1)] else [];
      MergeState(st.result + closed + props[..|props| - 1], Some(props[|props| - 1]))
    else if st.open.Some? then
      var o := st.open.value;
      MergeState(st.result, Some(o.(phrases := o.phrases + chunk, endMs := chunk[|chunk| - 1].startMs)))
    else st
  }

  ghost predicate NonEmptyChunks(cs: seq<seq<Phrase>>) {
    forall k :: 0 <= k < |cs| ==> |cs[k]| > 0
  }

  /** What the segmenter gets for a chunk, given the segment open when the
      chunk is sent: the model's reply, parsed. The merging facts below hold
      for any such proposer. */
  type Proposer = (seq<Phrase>, Option<Segment>) -> seq<Segment>

  /** The loop of `run` over the chunks. */
  function Merged(cs: seq<seq<Phrase>>, propose: Proposer): MergeState
    requires NonEmptyChunks(cs)
  {
    if |cs| == 0 then MergeState([], None)
    else
      var n := |cs| - 1;
      var st := Merged(cs[..n], propose);
      MergeStep(st, cs[n], propose(cs[n], st.open))
  }

  /** Every segment proposed along the way, in order. */
  function Proposed(cs: seq<seq<Phrase>>, propose: Proposer): seq<Segment>
    requires NonEmptyChunks(cs)
  {
    if |cs| == 0 then []
    else
      var n := |cs| - 1;
      Proposed(cs[..n], propose) + propose(cs[n], Merged(cs[..n], propose).open)
  }

  function Finished(st: MergeState): seq<Segment> {
    st.result + OpenList(st.open)
  }

  /** The reply to a chunk, parsed (an empty chunk never reaches the model). */
  function Ask(reply: (seq<Phrase>, Option<Segment>) -> string, chunk: seq<Phrase>, open: Option<Segment>): seq<Segment> {
    if |chunk| > 0 then ParseResponse(reply(chunk, open), chunk) else []
  }

  function Asker(reply: (seq<Phrase>, Option<Segment>) -> string): Proposer {
    (c, o) => Ask(reply, c, o)
  }

  /** `NaiveLLMGuidedSegmenter.run`: the final segments carry exactly the
      starts, titles and summaries the replies proposed, in order. */
  function LlmSegments(ps: seq<Phrase>, chunkSize: int, reply: (seq<Phrase>, Option<Segment>) -> string): (segs: seq<Segment>)
    ensures Headings(segs) == Headings(Proposed(SplitIntoChunks(ps, chunkSize), Asker(reply)))
  {
    var cs := SplitIntoChunks(ps, chunkSize);
    MergeKeepsHeadings(cs, Asker(reply));
    Finished(Merged(cs, Asker(reply)))
  }

  /** What merging keeps of a segment: where it starts and what the model
      called it. */
  function Heading(s: Segment): (int, Option<string>, Option<string>) {
    (s.startMs, s.title, s.summary)
  }

  function Headings(ss: seq<Segment>): (r: seq<(int, Option<string>, Option<string>)>)
    ensures |r| == |ss| && forall k :: 0 <= k < |ss| ==> r[k] == Heading(ss[k])
  {
    seq(|ss|, k requires 0 <= k < |ss| => Heading(ss[k]))
  }

  lemma HeadingsAppend(a: seq<Segment>, b: seq<Segment>)
    ensures Headings(a + b) == Headings(a) + Headings(b)
  {
  }

  /** One merge step keeps the headings and adds the proposed ones. */
  lemma StepHeadings(st: MergeState, chunk: seq<Phrase>, props: seq<Segment>)
    requires |chunk| > 0
    ensures Headings(Finished(MergeStep(st, chunk, props))) == Headings(Finished(st)) + Headings(props)
  {
    var after := MergeStep(st, chunk, props);
    if |props| > 0 {
      var n := |props| - 1;
      assert props[..n] + [props[n]] == props;
      if st.open.Some? {
        var closed := st.open.value.(endMs := props[0].startMs - 1);
        assert Finished(after) == st.result + [closed] + props;
        assert Heading(closed) == Heading(st.open.value);
        assert Headings(st.result + [closed]) == Headings(Finished(st));
        HeadingsAppend(st.result + [closed], props);
      } else {
        assert Finished(after) == Finished(st) + props;
        HeadingsAppend(Finished(st), props);
      }
    } else if st.open.Some? {
      assert Headings(Finished(after)) == Headings(Finished(st));
      assert Headings(Finished(st)) + Headings(props) == Headings(Finished(st));
    } else {
      assert Headings(Finished(st)) + Headings(props) == Headings(Finished(st));
    }
  }

  /** Merging neither drops, reorders nor renames a proposed segment: the
      final list has exactly the proposed segments' starts, titles and
      summaries, in order; only ends and phrases change. */
  lemma {:induction false} MergeKeepsHeadings(cs: seq<seq<Phrase>>, propose: Proposer)
    requires NonEmptyChunks(cs)
    ensures Headings(Finished(Merged(cs, propose))) == Headings(Proposed(cs, propose))
  {
    if |cs| > 0 {
      var n := |cs| - 1;
      MergeKeepsHeadings(cs[..n], propose);
      var st := Merged(cs[..n], propose);
      StepHeadings(st, cs[n], propose(cs[n], st.open));
      HeadingsAppend(Proposed(cs[..n], propose), propose(cs[n], st.open));
    }
  }

  /** Every segment a proposer offers for a chunk ends where the chunk's
      last phrase starts. */
  ghost predicate EndsAtChunkEnd(cs: seq<seq<Phrase>>, propose: Proposer)
    requires NonEmptyChunks(cs)
  {
    forall k, o, j :: 0 <= k < |cs| && 0 <= j < |propose(cs[k], o)| ==>
      propose(cs[k], o)[j].endMs == cs[k][|cs[k]| - 1].startMs
  }

  lemma {:induction false} OpenEnds(cs: seq<seq<Phrase>>, propose: Proposer)
    requires NonEmptyChunks(cs) && EndsAtChunkEnd(cs, propose) && Merged(cs, propose).open.Some?
    ensures |cs| > 0
    ensures Merged(cs, propose).open.value.endMs == cs[|cs| - 1][|cs[|cs| - 1]| - 1].startMs
  {
    if |cs| > 0 {
      var n := |cs| - 1;
      var st := Merged(cs[..n], propose);
      var props := propose(cs[n], st.open);
      if |props| > 0 {
        assert props[|props| - 1].endMs == cs[n][|cs[n]| - 1].startMs;
      }
    }
  }

  /** In a run of the segmenter, the open segment always ends where the
      latest chunk's last phrase starts: proposed segments are cut there and
      a quiet chunk moves the end there. */
  lemma OpenEndsAtChunkEnd(cs: seq<seq<Phrase>>, reply: (seq<Phrase>, Option<Segment>) -> string)
    requires NonEmptyChunks(cs) && Merged(cs, Asker(reply)).open.Some?
    ensures |cs| > 0
    ensures Merged(cs, Asker(reply)).open.value.endMs == cs[|cs| - 1][|cs[|cs| - 1]| - 1].startMs
  {
    var propose := Asker(reply);
    forall k, o, j | 0 <= k < |cs| && 0 <= j < |propose(cs[k], o)|
      ensures propose(cs[k], o)[j].endMs == cs[k][|cs[k]| - 1].startMs
    {
      if !IsContinue(reply(cs[k], o)) {
        SegmentPerBreakpoint(reply(cs[k], o), cs[k]);
      }
    }
    OpenEnds(cs, propose);
  }

  /** When a reply proposes segments while one is open, that one is
      finished with its end one millisecond before the first proposed start,
      followed by all proposed segments but the last, which becomes the open
      one. */
  lemma ClosedBeforeNext(st: MergeState, chunk: seq<Phrase>, props: seq<Segment>)
    requires |chunk| > 0 && |props| > 0 && st.open.Some?
    ensures |MergeStep(st, chunk, props).result| == |st.result| + |props|
    ensures MergeStep(st, chunk, props).result[..|st.result|] == st.result
    ensures MergeStep(st, chunk, props).result[|st.result|] == st.open.value.(endMs := props[0].startMs - 1)
    ensures MergeStep(st, chunk, props).result[|st.result| + 1..] == props[..|props| - 1]
    ensures MergeStep(st, chunk, props).open == Some(props[|props| - 1])
  {
  }

  /** A reply that proposes nothing hands the chunk to the open segment, or
      drops the chunk's phrases when no segment is open. */
  lemma QuietChunk(st: MergeState, chunk: seq<Phrase>)
    requires |chunk| > 0
    ensures MergeStep(st, chunk, []).result == st.result
    ensures st.open.None? ==> MergeStep(st, chunk, []).open.None?
    ensures st.open.Some? ==>
              && MergeStep(st, chunk, []).open.Some?
              && MergeStep(st, chunk, []).open.value.phrases == st.open.value.phrases + chunk
              && MergeStep(st, chunk, []).open.value.endMs == chunk[|chunk| - 1].startMs
              && Heading(MergeStep(st, chunk, []).open.value) == Heading(st.open.value)
  {
  }

  // ---------------------------------------------------------------- no-op

  /** `NoOpSegmenter.run`: the whole transcript as a single untitled segment
      from 0 ms to the transcript's end (`get_end_time_in_ms` is not part of
      this model and comes in as `endMs`). */
  function NoOpSegments(ps: seq<Phrase>, endMs: int): (segs: seq<Segment>)
    ensures |segs| == 1
    ensures segs[0].startMs == 0 && segs[0].endMs == endMs
    ensures segs[0].phrases == ps
    ensures Flatten(seq(|segs|, k requires 0 <= k < |segs| => segs[k].phrases)) == ps
  {
    var s := Segment(0, endMs, ps, None, None);
    assert Flatten([ps]) == ps + [];
    [s]
  }
}
