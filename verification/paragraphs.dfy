/** The paragraph formatter (`TranscriptFormatter` in
    src/ytsum/transcription/formatter.py): a batch of phrases is sent to
    the model, which answers with paragraphs in a JSON block; a reply whose
    start or end phrases do not occur in the batch text is a
    hallucination and the batch is retried with a shorter end; otherwise
    the leading complete paragraphs are kept and the next batch starts at
    the first incomplete paragraph.

    The model is an oracle `chat(text, call)`: its reply to a batch text on
    the given call of the run. Decoding the JSON block is an oracle
    `decode(payload)` that gives the paragraphs, or nothing when pydantic
    would reject the payload. The source's `run` returns None; the model's
    run returns the accepted paragraphs so that they can be talked about.
    The loop need not terminate, so the run is given a number of steps.
 */
module Paragraphs {
  import opened Wrappers
  import opened Text
  import opened Transcript

  /** `FormattedTranscriptParagraph` */
  datatype Paragraph = Paragraph(text: string, startPhrase: string, endPhrase: string, isComplete: bool)

  type Decoder = string -> Option<seq<Paragraph>>

  const JsonStart: string := "```json"
  const JsonEnd: string := "```"
  const NoJsonStart: string := "JSON start marker not found in the response text."
  const StartNotFound: string := "Start phrase not found in the transcript."
  const TooManyHallucinations: string := "The language model has hallucinated too many times."
  /** Hallucinations tolerated in a row; the next one fails the run. */
  const MaxHallucinations: nat := 5

  // ---------------------------------------------------------------- the reply

  /** Lines 189-196 of `_generate_paragraphs`: the text after the first
      "```json" up to the next "```" searched from one past the marker,
      stripped. A missing closing fence gives -1, which Python's slice
      reads as "all but the last character". */
  function JsonPayload(reply: string): (r: Result<string>)
    ensures r.Err? <==> !Contains(reply, JsonStart)
    ensures r.Err? ==> r.error == ValueError(NoJsonStart)
  {
    var s := Find(reply, JsonStart);
    if s == -1 then Err(ValueError(NoJsonStart))
    else Ok(Strip(Slice(reply, s + |JsonStart|, FindFrom(reply, JsonEnd, s + 1))))
  }

  /** No backquote in a text: neither fence can start inside it. */
  predicate NoTicks(s: string) {
    '`' !in s
  }

  /** A fence is found first right after a prefix without backquotes. */
  lemma FenceAfter(pre: string, fence: string, rest: string)
    requires |fence| > 0 && fence[0] == '`' && NoTicks(pre)
    ensures Find(pre + fence + rest, fence) == |pre|
  {
    var s := pre + fence + rest;
    assert s[|pre|..|pre| + |fence|] == fence;
    forall j | 0 <= j < |pre|
      ensures !IsAt(s, fence, j)
    {
      assert s[j] == pre[j];
      Differs(s, fence, j, 0);
    }
    FindIs(s, fence, |pre|);
  }

  /** No closing fence starts inside an opening one past its first
      character. */
  lemma NoFenceInside(reply: string, s: nat, j: nat)
    requires IsAt(reply, JsonStart, s) && s + 1 <= j < s + |JsonStart|
    ensures !IsAt(reply, JsonEnd, j)
  {
    assert reply[s..s + |JsonStart|] == JsonStart;
    assert reply[s + 3] == 'j';
    if j < s + 3 {
      Differs(reply, JsonEnd, j, s + 3 - j);
    } else {
      assert reply[j] == JsonStart[j - s];
      Differs(reply, JsonEnd, j, 0);
    }
  }

  /** The closing fence searched from one past the opening one is the one
      right after a body without backquotes. */
  lemma ClosingFence(pre: string, body: string, post: string)
    requires NoTicks(body)
    ensures FindFrom(pre + JsonStart + body + JsonEnd + post, JsonEnd, |pre| + 1)
            == |pre + JsonStart + body|
  {
    var reply := pre + JsonStart + body + JsonEnd + post;
    var head := pre + JsonStart + body;
    var s := |pre|;
    assert IsAt(reply, JsonStart, s) by {
      assert reply[s..s + |JsonStart|] == JsonStart;
    }
    forall j | s + 1 <= j < |head|
      ensures !IsAt(reply, JsonEnd, j)
    {
      if j < s + |JsonStart| {
        NoFenceInside(reply, s, j);
      } else {
        assert reply[j] == body[j - s - |JsonStart|];
        Differs(reply, JsonEnd, j, 0);
      }
    }
    assert IsAt(reply, JsonEnd, |head|) by {
      assert reply[|head|..|head| + |JsonEnd|] == JsonEnd;
    }
    FindFromIs(reply, JsonEnd, s + 1, |head|);
  }

  /** A reply `pre ```json body ``` post` without backquotes in pre and
      body yields the stripped body. */
  lemma FencedPayload(pre: string, body: string, post: string)
    requires NoTicks(pre) && NoTicks(body)
    ensures JsonPayload(pre + JsonStart + body + JsonEnd + post) == Ok(Strip(body))
  {
    var reply := pre + JsonStart + body + JsonEnd + post;
    assert reply == pre + JsonStart + (body + JsonEnd + post);
    FenceAfter(pre, JsonStart, body + JsonEnd + post);
    ClosingFence(pre, body, post);
    assert Slice(reply, |pre| + |JsonStart|, |pre + JsonStart + body|) == body;
  }

  /** Without a closing fence the payload loses its last character. */
  lemma UnclosedPayload(pre: string, body: string)
    requires NoTicks(pre) && NoTicks(body)
    ensures JsonPayload(pre + JsonStart + body)
            == Ok(Strip(if |body| > 0 then body[..|body| - 1] else ""))
  {
    var reply := pre + JsonStart + body;
    FenceAfter(pre, JsonStart, body);
    var s := |pre|;
    assert IsAt(reply, JsonStart, s) by {
      assert reply[s..s + |JsonStart|] == JsonStart;
    }
    forall j | s + 1 <= j
      ensures !IsAt(reply, JsonEnd, j)
    {
      if j < s + |JsonStart| {
        NoFenceInside(reply, s, j);
      } else if j < |reply| {
        assert reply[j] == body[j - s - |JsonStart|];
        Differs(reply, JsonEnd, j, 0);
      }
    }
    assert FindFrom(reply, JsonEnd, s + 1) == -1;
    if |body| > 0 {
      assert Slice(reply, s + |JsonStart|, -1) == body[..|body| - 1];
    } else {
      assert Slice(reply, s + |JsonStart|, -1) == "";
    }
  }

  /** `_generate_paragraphs` after the model's reply: the payload decoded
      into paragraphs. */
  function Generate(reply: string, decode: Decoder): (r: Result<seq<Paragraph>>)
    ensures r.Ok? <==> JsonPayload(reply).Ok? && decode(JsonPayload(reply).value).Some?
    ensures r.Ok? ==> r.value == decode(JsonPayload(reply).value).value
  {
    var payload :- JsonPayload(reply);
    match decode(payload)
    case None => Err(InvalidJson(payload))
    case Some(ps) => Ok(ps)
  }

  // ---------------------------------------------------------------- checks

  /** A paragraph whose start or end phrase does not occur in the text. */
  predicate Invented(raw: string, p: Paragraph) {
    !Contains(raw, p.startPhrase) || !Contains(raw, p.endPhrase)
  }

  /** `_contain_hallucination`: the paragraphs are checked in order and the
      first invented one answers yes. */
  function ContainsHallucination(raw: string, ps: seq<Paragraph>): (r: bool)
    ensures r <==> exists k :: 0 <= k < |ps| && Invented(raw, ps[k])
  {
    if |ps| == 0 then false
    else if !Contains(raw, ps[0].startPhrase) then true
    else if !Contains(raw, ps[0].endPhrase) then true
    else
      assert forall k :: 1 <= k < |ps| ==> ps[k] == ps[1..][k - 1];
      ContainsHallucination(raw, ps[1..])
  }

  /** The start phrase's words occur, word k inside text i + k, from text
      i on, and all of them fit. */
  ghost predicate Fits(words: seq<string>, texts: seq<string>, i: int) {
    0 <= i && i + |words| <= |texts| && forall k :: 0 <= k < |words| ==> Contains(texts[i + k], words[k])
  }

  /** From text i on, every word that has a text to go in occurs in it, but
      the words do not all fit: the `all(...)` of `_find_start_index` then
      indexes past the end of the phrases. */
  ghost predicate RunsOff(words: seq<string>, texts: seq<string>, i: int) {
    0 <= i < |texts| && i + |words| > |texts| && forall k :: 0 <= k < |texts| - i ==> Contains(texts[i + k], words[k])
  }

  /** `all(words[j] in texts[i + j] for j in range(from, len(words)))`,
      which stops at the first word that is missing and fails with an
      IndexError when it runs past the last text first. */
  function AllFrom(words: seq<string>, texts: seq<string>, i: nat, j: nat): (r: Result<bool>)
    requires j <= |words| && i + j <= |texts|
    ensures r == Ok(true) <==> i + |words| <= |texts| && forall k :: j <= k < |words| ==> Contains(texts[i + k], words[k])
    ensures r == Ok(false) ==> exists k :: j <= k < |words| && i + k < |texts| && !Contains(texts[i + k], words[k])
    ensures r.Err? ==> r.error == IndexOutOfRange && i + |words| > |texts|
                       && forall k :: j <= k < |words| && i + k < |texts| ==> Contains(texts[i + k], words[k])
    decreases |words| - j
  {
    if j == |words| then Ok(true)
    else if i + j >= |texts| then Err(IndexOutOfRange)
    else if !Contains(texts[i + j], words[j]) then Ok(false)
    else AllFrom(words, texts, i, j + 1)
  }

  /** `_find_start_index` from candidate i on. */
  function SearchFrom(words: seq<string>, texts: seq<string>, i: nat): (r: Result<nat>)
    requires |words| > 0
    ensures r.Ok? ==> i <= r.value && Fits(words, texts, r.value)
    ensures r.Ok? ==> forall c :: i <= c < r.value ==> !Fits(words, texts, c) && !RunsOff(words, texts, c)
    ensures r.Err? ==> r.error == ValueError(StartNotFound) || r.error == IndexOutOfRange
    ensures r == Err(ValueError(StartNotFound)) ==> forall c :: i <= c ==> !Fits(words, texts, c) && !RunsOff(words, texts, c)
    ensures r == Err(IndexOutOfRange) ==>
              (exists c :: i <= c && RunsOff(words, texts, c) && forall c' :: i <= c' < c ==> !Fits(words, texts, c'))
    decreases |texts| - i
  {
    if i >= |texts| then Err(ValueError(StartNotFound))
    else if Contains(texts[i], words[0]) then
      match AllFrom(words, texts, i, 1)
      case Err(e) =>
        assert RunsOff(words, texts, i);
        Err(e)
      case Ok(all) =>
        if all then Ok(i)
        else SearchFrom(words, texts, i + 1)
    else SearchFrom(words, texts, i + 1)
  }

  /** `_find_start_index(phrases, words)`: the least i at which the words
      fit, provided no earlier candidate runs off the end of the phrases
      (that raises an IndexError); ValueError when there is no such i. */
  function FindStartIndex(texts: seq<string>, words: seq<string>): (r: Result<nat>)
    requires |words| > 0
    ensures r.Ok? ==> Fits(words, texts, r.value) && forall c :: 0 <= c < r.value ==> !Fits(words, texts, c)
    ensures r.Err? ==> r.error == ValueError(StartNotFound) || r.error == IndexOutOfRange
    ensures r == Err(ValueError(StartNotFound)) ==> forall c :: 0 <= c ==> !Fits(words, texts, c)
    ensures r == Err(IndexOutOfRange) ==> exists c :: 0 <= c && RunsOff(words, texts, c)
  {
    SearchFrom(words, texts, 0)
  }

  /** Where the words fit and no candidate runs off the end, the search
      finds the least fitting index. */
  lemma FindsLeastFit(texts: seq<string>, words: seq<string>, i: nat)
    requires |words| > 0 && Fits(words, texts, i)
    requires forall c :: 0 <= c < i ==> !RunsOff(words, texts, c)
    ensures FindStartIndex(texts, words).Ok?
    ensures FindStartIndex(texts, words).value <= i
  {
  }

  // ---------------------------------------------------------------- accepting

  /** The first paragraph that is not complete, if any. */
  function FirstIncomplete(ps: seq<Paragraph>): (r: Option<nat>)
    ensures r.None? <==> forall k :: 0 <= k < |ps| ==> ps[k].isComplete
    ensures r.Some? ==> r.value < |ps| && !ps[r.value].isComplete
                        && forall k :: 0 <= k < r.value ==> ps[k].isComplete
  {
    if |ps| == 0 then None
    else if !ps[0].isComplete then Some(0)
    else
      match FirstIncomplete(ps[1..])
      case None => None
      case Some(i) => Some(i + 1)
  }

  /** Lines 149-158: the paragraphs kept from a reply, the leading run of
      complete ones. */
  function Accepted(ps: seq<Paragraph>): (r: seq<Paragraph>)
    ensures |r| <= |ps| && r == ps[..|r|]
    ensures forall k :: 0 <= k < |r| ==> r[k].isComplete
    ensures |r| < |ps| ==> !ps[|r|].isComplete
  {
    match FirstIncomplete(ps)
    case None => ps
    case Some(i) => ps[..i]
  }

  // ---------------------------------------------------------------- the loop

  /** The loop's variables: the accepted paragraphs, the batch start and
      end, and the number of hallucinations in a row. */
  datatype State = State(results: seq<Paragraph>, start: int, end: int, hallucinations: nat)

  function Initial(batchSize: int): State {
    State([], 0, batchSize, 0)
  }

  /** `int(n / 10)`: true division, then truncation toward zero. */
  function TruncTenth(n: int): (r: int)
    ensures n >= 0 ==> 0 <= r && 10 * r <= n < 10 * r + 10
    ensures n < 0 ==> r <= 0 && 10 * r >= n > 10 * r - 10
  {
    if n >= 0 then n / 10 else -((-n) / 10)
  }

  /** `min(a, b)` */
  function Min(a: int, b: int): int {
    if a < b then a else b
  }

  /** The current batch's text: the phrases `phrases[start:end]`, with
      Python's slicing, joined by spaces. */
  function BatchText(phrases: seq<Phrase>, st: State): string {
    Join(" ", Texts(Slice(phrases, st.start, st.end)))
  }

  /** One pass of the loop of `run`, given what `_generate_paragraphs`
      made of the model's reply to the current batch. */
  function Step(st: State, phrases: seq<Phrase>, batchSize: int, generated: Result<seq<Paragraph>>): (r: Result<State>)
    requires st.start < |phrases|
    ensures generated.Err? ==> r == Err(generated.error)
    ensures r.Ok? ==> r.value.hallucinations <= MaxHallucinations
    ensures r.Ok? ==> |st.results| <= |r.value.results| && r.value.results[..|st.results|] == st.results
  {
    var batch := Slice(phrases, st.start, st.end);
    var raw := Join(" ", Texts(batch));
    var paragraphs :- generated;
    if ContainsHallucination(raw, paragraphs) then
      if st.hallucinations >= MaxHallucinations then Err(ValueError(TooManyHallucinations))
      else
        var count := st.hallucinations + 1;
        Ok(State(st.results, st.start, st.end - TruncTenth(batchSize) * count, count))
    else
      var nextEnd := Min(st.end + batchSize, |phrases|);
      match FirstIncomplete(paragraphs)
      case None =>
        assert (st.results + paragraphs)[..|st.results|] == st.results;
        Ok(State(st.results + paragraphs, st.end, nextEnd, 0))
      case Some(i) =>
        var k :- FindStartIndex(Texts(batch), Split(paragraphs[i].startPhrase, ' '));
        assert (st.results + paragraphs[..i])[..|st.results|] == st.results;
        Ok(State(st.results + paragraphs[..i], st.start + k, nextEnd, 0))
  }

  /** Where the loop stands after some passes. */
  datatype Progress = Done(results: seq<Paragraph>) | Failed(error: Error) | Pending(state: State)

  /** The loop from `st` for at most `fuel` passes; `call` numbers the
      model's replies. */
  function Drive(st: State, phrases: seq<Phrase>, batchSize: int, chat: (string, nat) -> string,
                 decode: Decoder, call: nat, fuel: nat): (p: Progress)
    requires st.hallucinations <= MaxHallucinations
    ensures p.Done? ==> |st.results| <= |p.results| && p.results[..|st.results|] == st.results
    ensures p.Pending? ==> p.state.start < |phrases| && p.state.hallucinations <= MaxHallucinations
    decreases fuel
  {
    if st.start >= |phrases| then Done(st.results)
    else if fuel == 0 then Pending(st)
    else
      match Step(st, phrases, batchSize, Generate(chat(BatchText(phrases, st), call), decode))
      case Err(e) => Failed(e)
      case Ok(next) =>
        var p := Drive(next, phrases, batchSize, chat, decode, call + 1, fuel - 1);
        assert p.Done? ==> p.results[..|st.results|] == p.results[..|next.results|][..|st.results|];
        p
  }

  /** `TranscriptFormatter.run`, for at most `fuel` passes. */
  function Run(phrases: seq<Phrase>, batchSize: int, chat: (string, nat) -> string, decode: Decoder, fuel: nat): (p: Progress)
    ensures |phrases| == 0 ==> p == Done([])
  {
    Drive(Initial(batchSize), phrases, batchSize, chat, decode, 0, fuel)
  }

  // ---------------------------------------------------------------- properties

  /** A hallucinating reply: the sixth in a row ends the run; before that
      the count goes up by one and the batch end moves back by
      int(batch_size / 10) times the new count, while the start and the
      accepted paragraphs stay. */
  lemma StepHallucinated(st: State, phrases: seq<Phrase>, batchSize: int, ps: seq<Paragraph>)
    requires st.start < |phrases|
    requires ContainsHallucination(BatchText(phrases, st), ps)
    ensures st.hallucinations >= MaxHallucinations ==>
              Step(st, phrases, batchSize, Ok(ps)) == Err(ValueError(TooManyHallucinations))
    ensures st.hallucinations < MaxHallucinations ==>
              Step(st, phrases, batchSize, Ok(ps))
              == Ok(State(st.results, st.start, st.end - TruncTenth(batchSize) * (st.hallucinations + 1),
                          st.hallucinations + 1))
  {
  }

  /** A clean reply: the count is reset, the leading complete paragraphs
      are accepted, the end moves to min(end + batch_size, len); the start
      moves to the old end when every paragraph is complete, and otherwise
      forward by where the first incomplete paragraph's start phrase is
      found in the batch. */
  lemma StepClean(st: State, phrases: seq<Phrase>, batchSize: int, ps: seq<Paragraph>)
    requires st.start < |phrases|
    requires !ContainsHallucination(BatchText(phrases, st), ps)
    ensures Step(st, phrases, batchSize, Ok(ps)).Ok? ==>
              && Step(st, phrases, batchSize, Ok(ps)).value.hallucinations == 0
              && Step(st, phrases, batchSize, Ok(ps)).value.results == st.results + Accepted(ps)
              && Step(st, phrases, batchSize, Ok(ps)).value.end == Min(st.end + batchSize, |phrases|)
    ensures FirstIncomplete(ps).None? ==>
              Step(st, phrases, batchSize, Ok(ps)).Ok? && Step(st, phrases, batchSize, Ok(ps)).value.start == st.end
    ensures FirstIncomplete(ps).Some? ==>
              var found := FindStartIndex(Texts(Slice(phrases, st.start, st.end)),
                                          Split(ps[FirstIncomplete(ps).value].startPhrase, ' '));
              && (Step(st, phrases, batchSize, Ok(ps)).Ok? <==> found.Ok?)
              && (found.Ok? ==> Step(st, phrases, batchSize, Ok(ps)).value.start == st.start + found.value)
              && (found.Err? ==> Step(st, phrases, batchSize, Ok(ps)) == Err(found.error))
  {
  }

  /** A clean reply whose first incomplete paragraph starts in the
      batch's first phrase leaves the start where it was: the loop then
      asks again from the same place, so it need not terminate. */
  lemma NoProgress(st: State, phrases: seq<Phrase>, batchSize: int, ps: seq<Paragraph>)
    requires st.start < |phrases|
    requires !ContainsHallucination(BatchText(phrases, st), ps)
    requires FirstIncomplete(ps).Some?
    requires FindStartIndex(Texts(Slice(phrases, st.start, st.end)), Split(ps[FirstIncomplete(ps).value].startPhrase, ' '))
             == Ok(0)
    ensures Step(st, phrases, batchSize, Ok(ps)).Ok?
    ensures Step(st, phrases, batchSize, Ok(ps)).value.start == st.start
  {
    StepClean(st, phrases, batchSize, ps);
  }

  /** A clean reply whose paragraphs are all complete accepts them all and
      moves the batch on to the old end, past the old start when the batch
      was not empty. */
  lemma MovesOn(st: State, phrases: seq<Phrase>, batchSize: int, ps: seq<Paragraph>)
    requires st.start < |phrases| && st.start < st.end
    requires !ContainsHallucination(BatchText(phrases, st), ps)
    requires forall k :: 0 <= k < |ps| ==> ps[k].isComplete
    ensures Step(st, phrases, batchSize, Ok(ps)).Ok?
    ensures Step(st, phrases, batchSize, Ok(ps)).value.start > st.start
    ensures Step(st, phrases, batchSize, Ok(ps)).value.results == st.results + ps
  {
    StepClean(st, phrases, batchSize, ps);
  }

  /** Six hallucinating replies in a row from a clean state end the run:
      the first five are retried and the sixth fails. */
  lemma {:induction false} SixthHallucinationFails(st: State, phrases: seq<Phrase>, batchSize: int,
                                                   ps: seq<seq<Paragraph>>, n: nat)
    requires st.start < |phrases| && n <= MaxHallucinations && st.hallucinations == MaxHallucinations - n
    requires |ps| == n + 1
    requires forall k :: 0 <= k <= n ==> ContainsHallucination(Join(" ", Texts(Slice(phrases, st.start, Rewound(st.end, batchSize, st.hallucinations, k)))), ps[k])
    ensures Steps(st, phrases, batchSize, ps) == Err(ValueError(TooManyHallucinations))
    decreases n
  {
    StepHallucinated(st, phrases, batchSize, ps[0]);
    if n > 0 {
      var next := State(st.results, st.start, st.end - TruncTenth(batchSize) * (st.hallucinations + 1), st.hallucinations + 1);
      forall k | 0 <= k <= n - 1
        ensures ContainsHallucination(Join(" ", Texts(Slice(phrases, next.start, Rewound(next.end, batchSize, next.hallucinations, k)))), ps[1..][k])
      {
        assert Rewound(next.end, batchSize, next.hallucinations, k) == Rewound(st.end, batchSize, st.hallucinations, k + 1);
      }
      SixthHallucinationFails(next, phrases, batchSize, ps[1..], n - 1);
    }
  }

  /** The batch end after k more hallucinations from count h. */
  function Rewound(end: int, batchSize: int, h: nat, k: nat): int
    decreases k
  {
    if k == 0 then end else Rewound(end - TruncTenth(batchSize) * (h + 1), batchSize, h + 1, k - 1)
  }

  /** The passes for a given list of decoded replies, stopping at the
      first failure or at the end of the phrases. */
  function Steps(st: State, phrases: seq<Phrase>, batchSize: int, ps: seq<seq<Paragraph>>): Result<State>
    decreases |ps|
  {
    if |ps| == 0 || st.start >= |phrases| then Ok(st)
    else
      var next :- Step(st, phrases, batchSize, Ok(ps[0]));
      Steps(next, phrases, batchSize, ps[1..])
  }
}
