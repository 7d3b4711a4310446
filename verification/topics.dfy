/** The topic splitter (`TopicCreator` in
    src/ytsum/transcription/topics.py): the model is asked once for a list
    of topics, each a title and the sentence the topic starts with; the
    transcript text is then cut at those sentences into titled sections of
    paragraphs.

    The model is an oracle `chat(text, attempt)`: its reply on the given
    attempt to the prompt built from the transcript text. Decoding the JSON
    block is an oracle that gives the topics, or nothing when pydantic would
    reject it.
 */
module Topics {
  import opened Wrappers
  import opened Text
  import opened Paragraphs

  /** `LLMOutputItem` */
  datatype Topic = Topic(title: string, startSentence: string)

  /** `TranscriptSection` */
  datatype Section = Section(title: string, paragraphs: seq<string>)

  type TopicDecoder = string -> Option<seq<Topic>>

  const ParagraphBreak: string := "\n\n"
  const SentenceNotFound: string := "Start sentence not found in the transcript text."
  const TagsNotFound: string := "Start and end tags not found in response."
  /** How many times the model is asked for a fenced reply. */
  const Attempts: nat := 5

  // ---------------------------------------------------------------- the reply

  /** The reply holds both fences. */
  predicate Tagged(reply: string) {
    Contains(reply, JsonStart) && Contains(reply, JsonEnd)
  }

  /** The closing fence is a prefix of the opening one: wherever the
      opening fence is, so is a closing one. */
  lemma OpeningIsClosing(reply: string, j: int)
    ensures IsAt(reply, JsonStart, j) ==> IsAt(reply, JsonEnd, j)
  {
    if 0 <= j && j + |JsonStart| <= |reply| {
      assert reply[j..j + |JsonEnd|] == reply[j..j + |JsonStart|][..|JsonEnd|];
    }
  }

  /** Asking for both fences is asking for the opening one. */
  lemma TaggedIffOpening(reply: string)
    ensures Tagged(reply) <==> Contains(reply, JsonStart)
  {
    if Contains(reply, JsonStart) {
      var j :| 0 <= j <= |reply| && IsAt(reply, JsonStart, j);
      OpeningIsClosing(reply, j);
    }
  }

  /** The loop of lines 99-103 from attempt i on: the first attempt whose
      reply holds both fences. */
  function FirstTagged(text: string, chat: (string, nat) -> string, i: nat): (r: Option<nat>)
    ensures r.Some? ==> i <= r.value < Attempts && Tagged(chat(text, r.value))
    ensures r.Some? ==> forall k :: i <= k < r.value ==> !Tagged(chat(text, k))
    ensures r.None? <==> forall k :: i <= k < Attempts ==> !Tagged(chat(text, k))
    decreases Attempts - i
  {
    if i >= Attempts then None
    else if Tagged(chat(text, i)) then Some(i)
    else FirstTagged(text, chat, i + 1)
  }

  /** Lines 110-112: the text after the last opening fence up to the last
      closing fence, stripped. */
  function TopicsPayload(reply: string): (r: string)
    requires Contains(reply, JsonStart)
    ensures |r| <= |reply|
  {
    Strip(Slice(reply, RFind(reply, JsonStart) + |JsonStart|, RFind(reply, JsonEnd)))
  }

  /** `s.rfind(sub)` is p when sub occurs at p and nowhere after it. */
  lemma RFindIs(s: string, sub: string, p: nat)
    requires IsAt(s, sub, p)
    requires forall j :: p < j ==> !IsAt(s, sub, j)
    ensures RFind(s, sub) == p
  {
    assert Contains(s, sub);
  }

  /** No backquote in a text from position a on: no fence starts there. */
  lemma NoFenceFrom(s: string, a: nat, fence: string)
    requires |fence| > 0 && fence[0] == '`'
    requires forall i :: a <= i < |s| ==> s[i] != '`'
    ensures forall j :: a <= j ==> !IsAt(s, fence, j)
  {
    forall j | a <= j
      ensures !IsAt(s, fence, j)
    {
      if j < |s| {
        Differs(s, fence, j, 0);
      }
    }
  }

  /** The last closing fence in `pre ```json body` with no backquote in the
      body is the opening fence itself. */
  lemma LastFenceIsOpening(pre: string, body: string)
    requires NoTicks(body)
    ensures RFind(pre + JsonStart + body, JsonStart) == |pre|
    ensures RFind(pre + JsonStart + body, JsonEnd) == |pre|
  {
    var reply := pre + JsonStart + body;
    var s := |pre|;
    assert IsAt(reply, JsonStart, s) by {
      assert reply[s..s + |JsonStart|] == JsonStart;
    }
    assert IsAt(reply, JsonEnd, s) by {
      assert reply[s..s + |JsonEnd|] == JsonEnd;
    }
    assert forall i :: s + |JsonStart| <= i < |reply| ==> reply[i] == body[i - s - |JsonStart|];
    NoFenceFrom(reply, s + |JsonStart|, JsonStart);
    NoFenceFrom(reply, s + |JsonStart|, JsonEnd);
    forall j | s < j < s + |JsonStart|
      ensures !IsAt(reply, JsonEnd, j) && !IsAt(reply, JsonStart, j)
    {
      NoFenceInside(reply, s, j);
      OpeningIsClosing(reply, j);
    }
    RFindIs(reply, JsonStart, s);
    RFindIs(reply, JsonEnd, s);
  }

  /** A reply that opens a JSON block and never closes it passes the fence
      check, and its payload is empty: the last "```" is the one inside the
      opening fence, before the payload's start. */
  lemma UnclosedTopicsPayload(pre: string, body: string)
    requires NoTicks(body)
    ensures Tagged(pre + JsonStart + body)
    ensures TopicsPayload(pre + JsonStart + body) == ""
  {
    var reply := pre + JsonStart + body;
    assert IsAt(reply, JsonStart, |pre|) by {
      assert reply[|pre|..|pre| + |JsonStart|] == JsonStart;
    }
    TaggedIffOpening(reply);
    LastFenceIsOpening(pre, body);
    assert Strip("") == "";
  }

  /** A reply `pre ```json body ``` post` with no backquote in body or
      post, where post does not start with "json", yields the stripped
      body. */
  lemma FencedTopicsPayload(pre: string, body: string, post: string)
    requires NoTicks(body) && NoTicks(post) && !StartsWith(post, "json")
    ensures Contains(pre + JsonStart + body + JsonEnd + post, JsonStart)
    ensures TopicsPayload(pre + JsonStart + body + JsonEnd + post) == Strip(body)
  {
    var reply := pre + JsonStart + body + JsonEnd + post;
    var head := pre + JsonStart + body;
    ClosingFenceLast(pre, body, post);
    OpeningFenceLast(pre, body, post);
    assert reply == pre + JsonStart + body + (JsonEnd + post);
    assert reply[|pre| + |JsonStart|..|head|] == body;
  }

  /** In `pre ```json body ``` post` with no backquote in body or post,
      where post does not start with "json", the last opening fence is the
      one before the body. */
  lemma OpeningFenceLast(pre: string, body: string, post: string)
    requires NoTicks(body) && NoTicks(post) && !StartsWith(post, "json")
    ensures IsAt(pre + JsonStart + body + JsonEnd + post, JsonStart, |pre|)
    ensures RFind(pre + JsonStart + body + JsonEnd + post, JsonStart) == |pre|
  {
    var reply := pre + JsonStart + body + JsonEnd + post;
    var head := pre + JsonStart + body;
    OpeningAt(pre, body, post);
    ClosingFenceLast(pre, body, post);
    assert reply[|pre| + |JsonStart|..|head|] == body;
    assert reply[|head| + |JsonEnd|..] == post;
    NotReopened(head, post);
    OpeningNotAfter(reply, |pre|, |head|);
    RFindIs(reply, JsonStart, |pre|);
  }

  /** The opening fence of `pre ```json body ``` post` is where it was put. */
  lemma OpeningAt(pre: string, body: string, post: string)
    ensures IsAt(pre + JsonStart + body + JsonEnd + post, JsonStart, |pre|)
  {
    var reply := pre + JsonStart + body + JsonEnd + post;
    assert reply == pre + JsonStart + (body + JsonEnd + post);
    assert reply[|pre|..|pre| + |JsonStart|] == JsonStart;
  }

  /** In `pre ```json body ``` post` with no backquote in body or post,
      the last closing fence is the one after the body. */
  lemma ClosingFenceLast(pre: string, body: string, post: string)
    requires NoTicks(body) && NoTicks(post)
    ensures IsAt(pre + JsonStart + body + JsonEnd + post, JsonEnd, |pre + JsonStart + body|)
    ensures RFind(pre + JsonStart + body + JsonEnd + post, JsonEnd) == |pre + JsonStart + body|
  {
    var reply := pre + JsonStart + body + JsonEnd + post;
    var head := pre + JsonStart + body;
    assert IsAt(reply, JsonEnd, |head|) by {
      assert reply[|head|..|head| + |JsonEnd|] == JsonEnd;
    }
    assert forall i :: |head| + |JsonEnd| <= i < |reply| ==> reply[i] == post[i - |head| - |JsonEnd|];
    NoFenceFrom(reply, |head| + |JsonEnd|, JsonEnd);
    forall j | |head| < j < |head| + |JsonEnd|
      ensures !IsAt(reply, JsonEnd, j)
    {
      if j + |JsonEnd| <= |reply| {
        assert reply[|head| + |JsonEnd|] == post[0];
        Differs(reply, JsonEnd, j, |head| + |JsonEnd| - j);
      }
    }
    RFindIs(reply, JsonEnd, |head|);
  }

  /** A closing fence followed by anything but "json" is not an opening
      one. */
  lemma NotReopened(head: string, post: string)
    requires !StartsWith(post, "json")
    ensures !IsAt(head + JsonEnd + post, JsonStart, |head|)
  {
    var reply := head + JsonEnd + post;
    if |post| >= 4 {
      assert post[..4] != "json";
      var k :| 0 <= k < 4 && post[k] != "json"[k];
      assert reply[|head| + 3 + k] == post[k];
      Differs(reply, JsonStart, |head|, 3 + k);
    }
  }

  /** In a reply whose only backquotes from the payload on are the closing
      fence's, the opening fence at s is the last one. */
  lemma OpeningNotAfter(reply: string, s: nat, close: nat)
    requires IsAt(reply, JsonStart, s) && IsAt(reply, JsonEnd, close) && s + |JsonStart| <= close
    requires NoTicks(reply[s + |JsonStart|..close]) && NoTicks(reply[close + |JsonEnd|..])
    requires !IsAt(reply, JsonStart, close)
    ensures forall j :: s < j ==> !IsAt(reply, JsonStart, j)
  {
    forall i | s + |JsonStart| <= i < close
      ensures reply[i] != '`'
    {
      assert reply[i] == reply[s + |JsonStart|..close][i - s - |JsonStart|];
    }
    forall i | close + |JsonEnd| <= i < |reply|
      ensures reply[i] != '`'
    {
      assert reply[i] == reply[close + |JsonEnd|..][i - close - |JsonEnd|];
    }
    forall j | s < j
      ensures !IsAt(reply, JsonStart, j)
    {
      if j < s + |JsonStart| {
        NoFenceInside(reply, s, j);
        OpeningIsClosing(reply, j);
      } else if j < close || close + |JsonEnd| <= j < |reply| {
        Differs(reply, JsonStart, j, 0);
      } else if close < j < close + |JsonEnd| && j + |JsonStart| <= |reply| {
        assert reply[close + |JsonEnd|] != '`';
        Differs(reply, JsonStart, j, close + |JsonEnd| - j);
      }
    }
  }

  /** Attempt `i` is the first whose reply holds both fences. */
  predicate FirstTaggedAt(text: string, chat: (string, nat) -> string, i: nat) {
    && i < Attempts && Tagged(chat(text, i))
    && forall j :: 0 <= j < i ==> !Tagged(chat(text, j))
  }

  /** `_generate_topics`: the first fenced reply of five, its payload
      decoded into topics; a payload that does not decode raises. */
  function GenerateTopics(text: string, chat: (string, nat) -> string, decode: TopicDecoder): (r: Result<seq<Topic>>)
    ensures (forall k :: 0 <= k < Attempts ==> !Tagged(chat(text, k))) ==> r == Err(ValueError(TagsNotFound))
    ensures forall i :: FirstTaggedAt(text, chat, i) ==>
              && Contains(chat(text, i), JsonStart)
              && (r.Ok? <==> decode(TopicsPayload(chat(text, i))).Some?)
              && (r.Ok? ==> decode(TopicsPayload(chat(text, i))) == Some(r.value))
              && (r.Err? ==> r.error == InvalidJson(TopicsPayload(chat(text, i))))
  {
    match FirstTagged(text, chat, 0)
    case None => Err(ValueError(TagsNotFound))
    case Some(i) =>
      assert FirstTaggedAt(text, chat, i);
      TaggedIffOpening(chat(text, i));
      FirstTaggedUnique(text, chat, i);
      var payload := TopicsPayload(chat(text, i));
      match decode(payload)
      case None => Err(InvalidJson(payload))
      case Some(topics) => Ok(topics)
  }

  /** Only one attempt can be the first tagged one. */
  lemma FirstTaggedUnique(text: string, chat: (string, nat) -> string, i: nat)
    requires FirstTaggedAt(text, chat, i)
    ensures forall j :: FirstTaggedAt(text, chat, j) ==> j == i
  {
  }

  // ---------------------------------------------------------------- sections

  /** `text.strip().split("\n\n")`: a section's paragraphs. */
  function Paras(t: string): seq<string> {
    SplitOn(Strip(t), ParagraphBreak)
  }

  /** A section text splits into at least one paragraph, none holding a
      blank line, and joined by blank lines they give back the stripped
      text. */
  lemma ParasJoin(t: string)
    ensures |Paras(t)| >= 1
    ensures forall k :: 0 <= k < |Paras(t)| ==> !Contains(Paras(t)[k], ParagraphBreak)
    ensures Join(ParagraphBreak, Paras(t)) == Strip(t)
  {
    SplitOnJoin(Strip(t), ParagraphBreak);
  }

  /** A section before its text is split into paragraphs. */
  datatype Draft = Draft(title: string, text: string)

  /** The sections of drafts: each text stripped and split at blank lines. */
  function FinishAll(drafts: seq<Draft>): (r: seq<Section>)
    ensures |r| == |drafts|
    ensures forall k :: 0 <= k < |drafts| ==> r[k] == Section(drafts[k].title, Paras(drafts[k].text))
  {
    seq(|drafts|, k requires 0 <= k < |drafts| => Section(drafts[k].title, Paras(drafts[k].text)))
  }

  lemma TailTopics(topics: seq<Topic>)
    requires |topics| > 0
    ensures forall k :: 1 <= k < |topics| ==> topics[1..][k - 1] == topics[k]
  {
  }

  /** The loop of `run` after its first item: each topic's start sentence
      is looked up, and the text from the previous boundary up to it becomes
      a section under this topic's title. */
  function Sectioned(text: string, topics: seq<Topic>, start: int): (r: Result<seq<Draft>>)
    ensures r.Ok? <==> forall k :: 0 <= k < |topics| ==> Contains(text, topics[k].startSentence)
    ensures r.Err? ==> r.error == ValueError(SentenceNotFound)
    ensures r.Ok? ==> |r.value| == |topics|
    ensures r.Ok? ==> forall k :: 0 <= k < |topics| ==> r.value[k].title == topics[k].title
    decreases |topics|
  {
    if |topics| == 0 then Ok([])
    else
      var found := Find(text, topics[0].startSentence);
      if found == -1 then Err(ValueError(SentenceNotFound))
      else
        TailTopics(topics);
        var rest :- Sectioned(text, topics[1..], found);
        var first := Draft(topics[0].title, Slice(text, start, found));
        ConsIndex(first, rest);
        Ok([first] + rest)
  }

  /** `TopicCreator.run` once the topics are known: the first topic only
      sets the boundary to 0; every later one closes a section. */
  function Run(text: string, topics: seq<Topic>): (r: Result<seq<Section>>)
    ensures r.Ok? <==> forall k :: 1 <= k < |topics| ==> Contains(text, topics[k].startSentence)
    ensures r.Err? ==> r.error == ValueError(SentenceNotFound)
    ensures r.Ok? ==> |r.value| == if |topics| == 0 then 0 else |topics| - 1
    ensures r.Ok? ==> forall k :: 0 <= k < |r.value| ==> r.value[k].title == topics[k + 1].title
  {
    if |topics| == 0 then Ok([])
    else
      var drafts :- Sectioned(text, topics[1..], 0);
      Ok(FinishAll(drafts))
  }

  /** The whole of `TopicCreator.run`, with the sectioning corrected as
      `RunIntended` below: one section per generated topic, under its own
      title. */
  function Create(text: string, chat: (string, nat) -> string, decode: TopicDecoder): (r: Result<seq<Section>>)
    ensures GenerateTopics(text, chat, decode).Err? ==> r == Err(GenerateTopics(text, chat, decode).error)
    ensures r.Ok? ==> exists k :: 0 <= k < Attempts && Tagged(chat(text, k))
    ensures r.Ok? ==> |r.value| == |GenerateTopics(text, chat, decode).value|
  {
    var topics :- GenerateTopics(text, chat, decode);
    RunIntended(text, topics)
  }

  /** The titles each section should carry and the text it should hold:
      topic k's section runs from its start sentence (from 0 for the
      first) to the next topic's start sentence, or to the end of the text
      for the last. */
  function Cut(text: string, title: string, start: int, rest: seq<Topic>): (r: Result<seq<Draft>>)
    ensures r.Ok? <==> forall k :: 0 <= k < |rest| ==> Contains(text, rest[k].startSentence)
    ensures r.Err? ==> r.error == ValueError(SentenceNotFound)
    ensures r.Ok? ==> |r.value| == |rest| + 1 && r.value[0].title == title
    ensures r.Ok? ==> forall k :: 0 <= k < |rest| ==> r.value[k + 1].title == rest[k].title
    decreases |rest|
  {
    if |rest| == 0 then Ok([Draft(title, Slice(text, start, |text|))])
    else
      var found := Find(text, rest[0].startSentence);
      if found == -1 then Err(ValueError(SentenceNotFound))
      else
        TailTopics(rest);
        assert Contains(text, rest[0].startSentence);
        var tail :- Cut(text, rest[0].title, found, rest[1..]);
        var first := Draft(title, Slice(text, start, found));
        ConsIndex(first, tail);
        Ok([first] + tail)
  }

  /** `run` as its design reads: one section per topic, under that topic's
      own title. */
  function RunIntended(text: string, topics: seq<Topic>): (r: Result<seq<Section>>)
    ensures r.Ok? <==> forall k :: 1 <= k < |topics| ==> Contains(text, topics[k].startSentence)
    ensures r.Err? ==> r.error == ValueError(SentenceNotFound)
    ensures r.Ok? ==> |r.value| == |topics|
    ensures r.Ok? ==> forall k :: 0 <= k < |topics| ==> r.value[k].title == topics[k].title
  {
    if |topics| == 0 then Ok([])
    else
      var drafts :- Cut(text, topics[0].title, 0, topics[1..]);
      Ok(FinishAll(drafts))
  }

  // ---------------------------------------------------------------- properties

  /** Where the k-th section boundary lies: 0 for the first topic, the
      first occurrence of the start sentence for the others. */
  function Boundary(text: string, topics: seq<Topic>, k: nat): int
    requires k < |topics|
  {
    if k == 0 then 0 else Find(text, topics[k].startSentence)
  }

  /** Where section k of `Cut` starts. */
  function SpanFrom(text: string, start: int, rest: seq<Topic>, k: nat): int
    requires k <= |rest|
  {
    if k == 0 then start else Find(text, rest[k - 1].startSentence)
  }

  /** Where section k of `Cut` ends. */
  function SpanTo(text: string, rest: seq<Topic>, k: nat): int
    requires k <= |rest|
  {
    if k < |rest| then Find(text, rest[k].startSentence) else |text|
  }

  /** Section k of the corrected run holds the text between its boundaries,
      the last one running to the end of the text. */
  lemma {:induction false} CutSpan(text: string, title: string, start: int, rest: seq<Topic>, k: nat)
    requires Cut(text, title, start, rest).Ok? && k <= |rest|
    ensures Cut(text, title, start, rest).value[k].text
            == Slice(text, SpanFrom(text, start, rest, k), SpanTo(text, rest, k))
    decreases k
  {
    if k > 0 {
      var found := Find(text, rest[0].startSentence);
      CutSpan(text, rest[0].title, found, rest[1..], k - 1);
      assert Cut(text, title, start, rest).value[k] == Cut(text, rest[0].title, found, rest[1..]).value[k - 1];
      if k > 1 {
        assert rest[1..][k - 2] == rest[k - 1];
      }
      if k < |rest| {
        assert rest[1..][k - 1] == rest[k];
      }
    }
  }

  /** The corrected run covers the text: section k, joined back, is the
      stripped text from boundary k to boundary k + 1, and the last section
      runs to the end of the text. */
  lemma IntendedSpans(text: string, topics: seq<Topic>, k: nat)
    requires RunIntended(text, topics).Ok? && k < |topics|
    ensures Join(ParagraphBreak, RunIntended(text, topics).value[k].paragraphs)
            == Strip(Slice(text, Boundary(text, topics, k),
                                 if k + 1 < |topics| then Boundary(text, topics, k + 1) else |text|))
  {
    CutSpan(text, topics[0].title, 0, topics[1..], k);
    ParasJoin(Slice(text, SpanFrom(text, 0, topics[1..], k), SpanTo(text, topics[1..], k)));
    if k > 0 {
      assert topics[1..][k - 1] == topics[k];
    }
    if k + 1 < |topics| {
      assert topics[1..][k] == topics[k + 1];
    }
  }

  /** The run as written has the corrected run's paragraphs, but each
      section carries the title of the topic after the one it holds, and
      the last topic's section is missing. */
  lemma {:induction false} SectionedShifted(text: string, title: string, start: int, rest: seq<Topic>)
    requires Cut(text, title, start, rest).Ok?
    ensures Sectioned(text, rest, start).Ok?
    ensures forall k :: 0 <= k < |rest| ==>
              Sectioned(text, rest, start).value[k]
              == Draft(rest[k].title, Cut(text, title, start, rest).value[k].text)
    decreases |rest|
  {
    if |rest| > 0 {
      var found := Find(text, rest[0].startSentence);
      SectionedShifted(text, rest[0].title, found, rest[1..]);
      var s := Sectioned(text, rest, start).value;
      var c := Cut(text, title, start, rest).value;
      var stail := Sectioned(text, rest[1..], found).value;
      var ctail := Cut(text, rest[0].title, found, rest[1..]).value;
      var sfirst := Draft(rest[0].title, Slice(text, start, found));
      var cfirst := Draft(title, Slice(text, start, found));
      assert s == [sfirst] + stail;
      assert c == [cfirst] + ctail;
      ConsIndex(sfirst, stail);
      ConsIndex(cfirst, ctail);
      forall k | 1 <= k < |rest|
        ensures s[k] == Draft(rest[k].title, c[k].text)
      {
        assert s[k] == stail[k - 1] && c[k] == ctail[k - 1];
        assert rest[1..][k - 1] == rest[k];
      }
    }
  }

  /** The run as written against the corrected one: it succeeds on the
      same topics, has one section fewer, and its section k holds topic
      k's text under topic k + 1's title. */
  lemma RunShifted(text: string, topics: seq<Topic>)
    requires |topics| > 0 && RunIntended(text, topics).Ok?
    ensures Run(text, topics).Ok?
    ensures |Run(text, topics).value| == |RunIntended(text, topics).value| - 1
    ensures forall k :: 0 <= k < |topics| - 1 ==>
              Run(text, topics).value[k]
              == Section(topics[k + 1].title, RunIntended(text, topics).value[k].paragraphs)
  {
    SectionedShifted(text, topics[0].title, 0, topics[1..]);
  }

  /** Section k of the run as written holds, split into paragraphs, the
      stripped text from boundary k up to the start sentence of topic
      k + 1, whose title it carries. */
  lemma RunSpan(text: string, topics: seq<Topic>, k: nat)
    requires Run(text, topics).Ok? && k + 1 < |topics|
    ensures Run(text, topics).value[k]
            == Section(topics[k + 1].title,
                       Paras(Slice(text, Boundary(text, topics, k), Boundary(text, topics, k + 1))))
  {
    RunShifted(text, topics);
    CutSpan(text, topics[0].title, 0, topics[1..], k);
    if k > 0 {
      assert topics[1..][k - 1] == topics[k];
    }
    assert topics[1..][k] == topics[k + 1];
  }

  /** A start sentence that first occurs before the previous boundary
      gives a section of one empty paragraph. */
  lemma EarlySentenceEmpty(text: string, topics: seq<Topic>, k: nat)
    requires Run(text, topics).Ok? && k + 1 < |topics|
    requires Boundary(text, topics, k + 1) <= Boundary(text, topics, k)
    ensures Run(text, topics).value[k].paragraphs == [""]
  {
    RunSpan(text, topics, k);
    assert Strip("") == "";
    assert Find("", ParagraphBreak) == -1;
  }

  /** A reply with a single topic loses the whole transcript: the run as
      written gives no section, where one section holding all of the text
      was meant. */
  lemma SingleTopicLost(text: string, t: Topic)
    ensures Run(text, [t]) == Ok([])
    ensures RunIntended(text, [t]) == Ok([Section(t.title, Paras(text))])
  {
    assert Slice(text, 0, |text|) == text;
    assert [t][1..] == [];
    var drafts := Cut(text, t.title, 0, []).value;
    assert drafts == [Draft(t.title, text)];
    assert FinishAll(drafts) == [Section(t.title, Paras(text))];
  }
}
