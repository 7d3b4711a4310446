/** `FrameContentEnhancer` (src/ytsum/enhancement.py): the phrases of all
    frames are cut into batches, the batches before the repository's last
    stored index are skipped, and every other batch is punctuated by the
    model, with the same unfinished-sentence carry as the punctuation
    formatter, and stored in the processed-text repository.

    A frame is given by its phrases (the enhancer reads `frame.phrases`).
    The model is an oracle `chat(text)`: its one reply to a batch text.
 */
module Enhancement {
  import opened Wrappers
  import opened Text
  import opened Transcript
  import opened Batching
  import opened Punctuation
  import opened Repositories

  /** The start tag as the enhancer spells it: the literal text
      "{START_TAG}", eleven characters. */
  const PlaceholderTag: string := "{START_TAG}"
  const EmptyFrames: string := "Input frames list is empty."

  // ---------------------------------------------------------------- the reply

  /** `_fix_punctuation` of the enhancer: one reply; it fails only when
      the reply holds neither tag, and otherwise the text between the two
      tags is taken, stripped, without any quote trimming. */
  function EnhanceFix(reply: string): (r: Result<string>)
    ensures r.Err? <==> !Contains(reply, PlaceholderTag) && !Contains(reply, EndTag)
    ensures r.Err? ==> r.error == ValueError(NotFound)
  {
    if !Contains(reply, PlaceholderTag) && !Contains(reply, EndTag) then Err(ValueError(NotFound))
    else Ok(Between(reply, PlaceholderTag, EndTag))
  }

  /** A tag is found first right after a prefix that does not contain its
      first character. */
  lemma FirstAfter(pre: string, tag: string, rest: string)
    requires |tag| > 0 && tag[0] !in pre
    ensures Find(pre + tag + rest, tag) == |pre|
  {
    var s := pre + tag + rest;
    assert s[|pre|..|pre| + |tag|] == tag;
    forall j | 0 <= j < |pre|
      ensures !IsAt(s, tag, j)
    {
      assert s[j] == pre[j];
      Differs(s, tag, j, 0);
    }
    FindIs(s, tag, |pre|);
  }

  /** The positions of the two tags in `pre {START_TAG} body </tag> post`. */
  lemma TagPositions(pre: string, body: string, post: string)
    requires '{' !in pre && '<' !in pre && '<' !in body
    ensures Find(pre + PlaceholderTag + body + EndTag + post, PlaceholderTag) == |pre|
    ensures Find(pre + PlaceholderTag + body + EndTag + post, EndTag) == |pre + PlaceholderTag + body|
  {
    var head := pre + PlaceholderTag + body;
    var reply := head + EndTag + post;
    assert reply == pre + PlaceholderTag + (body + EndTag + post);
    FirstAfter(pre, PlaceholderTag, body + EndTag + post);
    assert '<' !in head by {
      assert forall i :: 0 <= i < |PlaceholderTag| ==> PlaceholderTag[i] != '<';
    }
    FirstAfter(head, EndTag, post);
  }

  /** A reply of the shape `pre {START_TAG} body </tag> post`, with no '{'
      in pre and no '<' in pre or body, yields the stripped body. */
  lemma EnhanceBetween(pre: string, body: string, post: string)
    requires '{' !in pre && '<' !in pre && '<' !in body
    ensures EnhanceFix(pre + PlaceholderTag + body + EndTag + post) == Ok(Strip(body))
  {
    var head := pre + PlaceholderTag + body;
    var reply := pre + PlaceholderTag + body + EndTag + post;
    TagPositions(pre, body, post);
    assert Contains(reply, EndTag);
    assert Slice(reply, |pre| + |PlaceholderTag|, |head|) == body;
  }

  /** A reply with the end tag but without "{START_TAG}" passes the check,
      and since the failed `find` gives -1 the text is taken from index 10
      (-1 plus the tag's eleven characters) up to the end tag. */
  lemma MissingStartTag(reply: string)
    requires !Contains(reply, PlaceholderTag) && Contains(reply, EndTag)
    ensures EnhanceFix(reply) == Ok(Strip(Slice(reply, 10, Find(reply, EndTag))))
  {
  }

  // ---------------------------------------------------------------- the run

  /** What a run leaves behind: the repository and store as they are after
      the last stored batch, and the error that stopped it, if any. */
  datatype Outcome = Outcome(repo: Repo, store: Store, error: Option<Error>)

  /** The enhancer's punctuation step as the loop uses it. */
  function Replying(chat: string -> string): Fixer {
    raw => EnhanceFix(chat(raw))
  }

  /** Processing batches from `index` on: punctuate the batch (with the
      carried fragment in front), split off a new unfinished sentence, and
      store the text under the batch's index with the raw text as its
      original. A failing batch stops the run; what was stored stays. */
  function StoreAll(batches: seq<seq<StampedPhrase>>, index: int, carry: string, fix: Fixer,
                 repo: Repo, store: Store): (r: Outcome)
    ensures r.repo.prefix == repo.prefix
    ensures r.error.Some? ==> exists raw :: fix(raw) == Err(r.error.value)
    decreases |batches|
  {
    if |batches| == 0 then Outcome(repo, store, None)
    else
      var raw := RawText(carry, StampedTexts(batches[0]));
      match fix(raw)
      case Err(e) => Outcome(repo, store, Some(e))
      case Ok(fixed) =>
        var split := SplitCarry(fixed);
        var added := Add(repo, store, ProcessedText(index, split.0, raw));
        StoreAll(batches[1..], index + 1, split.1, fix, added.0, added.1)
  }

  /** The loop of `run` from batch `index` on, skipping every batch whose
      index is below `last`. A skipped batch leaves the carry alone. */
  function Process(batches: seq<seq<StampedPhrase>>, index: int, last: int, carry: string,
                   fix: Fixer, repo: Repo, store: Store): (r: Outcome)
    ensures r.repo.prefix == repo.prefix
    decreases |batches|
  {
    if |batches| == 0 then Outcome(repo, store, None)
    else if index < last then Process(batches[1..], index + 1, last, carry, fix, repo, store)
    else
      var raw := RawText(carry, StampedTexts(batches[0]));
      match fix(raw)
      case Err(e) => Outcome(repo, store, Some(e))
      case Ok(fixed) =>
        var split := SplitCarry(fixed);
        var added := Add(repo, store, ProcessedText(index, split.0, raw));
        Process(batches[1..], index + 1, last, split.1, fix, added.0, added.1)
  }

  /** `FrameContentEnhancer.run`: an empty frame list fails before
      anything else; otherwise the phrases of all frames, in frame order,
      are batched and the loop starts at batch 0 with nothing carried and
      the repository's last index as the skip bound. */
  function Run(frames: seq<seq<StampedPhrase>>, batchSize: nat, chat: string -> string,
               repo: Repo, store: Store): (r: Outcome)
    requires batchSize > 0
    ensures |frames| == 0 ==> r == Outcome(repo, store, Some(ValueError(EmptyFrames)))
    ensures |frames| > 0 ==>
              r == Process(Batched(Flatten(frames), batchSize), 0, LastIndex(repo), "", Replying(chat), repo, store)
  {
    if |frames| == 0 then Outcome(repo, store, Some(ValueError(EmptyFrames)))
    else Process(Batched(Flatten(frames), batchSize), 0, LastIndex(repo), "", Replying(chat), repo, store)
  }

  // ---------------------------------------------------------------- properties

  /** The skipping loop is the storing loop started at the first batch
      whose index reaches `last`, with the carry it had on entry. */
  lemma {:induction false} SkipThenStore(batches: seq<seq<StampedPhrase>>, index: int, last: int,
                                         carry: string, fix: Fixer, repo: Repo, store: Store)
    requires index <= last
    ensures last - index <= |batches| ==>
              Process(batches, index, last, carry, fix, repo, store)
              == StoreAll(batches[last - index..], last, carry, fix, repo, store)
    ensures last - index > |batches| ==>
              Process(batches, index, last, carry, fix, repo, store) == Outcome(repo, store, None)
    decreases |batches|
  {
    if |batches| > 0 && index < last {
      SkipThenStore(batches[1..], index + 1, last, carry, fix, repo, store);
      if last - index <= |batches| {
        assert batches[1..][last - index - 1..] == batches[last - index..];
      }
    } else if |batches| > 0 {
      ProcessIsStore(batches, index, last, carry, fix, repo, store);
    }
  }

  /** Once no batch is skipped any more the two loops agree. */
  lemma {:induction false} ProcessIsStore(batches: seq<seq<StampedPhrase>>, index: int, last: int,
                                          carry: string, fix: Fixer, repo: Repo, store: Store)
    requires index >= last
    ensures Process(batches, index, last, carry, fix, repo, store) == StoreAll(batches, index, carry, fix, repo, store)
    decreases |batches|
  {
    if |batches| > 0 {
      var raw := RawText(carry, StampedTexts(batches[0]));
      if fix(raw).Ok? {
        var split := SplitCarry(fix(raw).value);
        var added := Add(repo, store, ProcessedText(index, split.0, raw));
        ProcessIsStore(batches[1..], index + 1, last, split.1, fix, added.0, added.1);
      }
    }
  }

  /** The records a run of passes stores, numbered from `from`: the kept
      text and the raw text (carry included) of each pass. */
  function Records(ps: seq<Pass>, from: int): (rs: seq<ProcessedText>)
    ensures |rs| == |ps|
    ensures forall k :: 0 <= k < |ps| ==> rs[k] == ProcessedText(from + k, ps[k].kept, ps[k].raw)
  {
    seq(|ps|, k requires 0 <= k < |ps| => ProcessedText(from + k, ps[k].kept, ps[k].raw))
  }

  lemma RecordsCons(p: Pass, ps: seq<Pass>, from: int)
    ensures Records([p] + ps, from) == [ProcessedText(from, p.kept, p.raw)] + Records(ps, from + 1)
  {
    var a, b := Records([p] + ps, from), [ProcessedText(from, p.kept, p.raw)] + Records(ps, from + 1);
    assert |a| == |b|;
    forall k | 0 <= k < |a|
      ensures a[k] == b[k]
    {
      if k > 0 {
        assert ([p] + ps)[k] == ps[k - 1];
      }
    }
  }

  /** The phrases of a batch, read for their texts only. */
  function AsPhrases(batch: seq<StampedPhrase>): (ps: seq<Phrase>)
    ensures |ps| == |batch| && forall i :: 0 <= i < |batch| ==> ps[i].text == batch[i].text
  {
    seq(|batch|, i requires 0 <= i < |batch| => Phrase(batch[i].text, 0))
  }

  function AllAsPhrases(batches: seq<seq<StampedPhrase>>): (bs: seq<seq<Phrase>>)
    ensures |bs| == |batches| && forall k :: 0 <= k < |batches| ==> bs[k] == AsPhrases(batches[k])
  {
    seq(|batches|, k requires 0 <= k < |batches| => AsPhrases(batches[k]))
  }

  lemma SameTexts(batch: seq<StampedPhrase>)
    ensures Texts(AsPhrases(batch)) == StampedTexts(batch)
  {
  }

  /** The first step of the storing loop and of the passes, side by
      side: both punctuate the same raw text. */
  lemma FirstStep(batches: seq<seq<StampedPhrase>>, index: int, carry: string,
                  fix: Fixer, repo: Repo, store: Store)
    requires |batches| > 0
    ensures AllAsPhrases(batches)[1..] == AllAsPhrases(batches[1..])
    ensures RawText(carry, Texts(AllAsPhrases(batches)[0])) == RawText(carry, StampedTexts(batches[0]))
  {
    SameTexts(batches[0]);
    assert AllAsPhrases(batches)[0] == AsPhrases(batches[0]);
  }

  /** The storing loop finishes exactly when the punctuation formatter's
      passes over the same batches succeed. */
  lemma {:induction false} StoreSucceeds(batches: seq<seq<StampedPhrase>>, index: int, carry: string,
                                         fix: Fixer, repo: Repo, store: Store)
    ensures StoreAll(batches, index, carry, fix, repo, store).error.None?
            <==> Passes(AllAsPhrases(batches), carry, fix).Ok?
    decreases |batches|
  {
    if |batches| > 0 {
      FirstStep(batches, index, carry, fix, repo, store);
      var raw := RawText(carry, StampedTexts(batches[0]));
      if fix(raw).Ok? {
        var split := SplitCarry(fix(raw).value);
        var added := Add(repo, store, ProcessedText(index, split.0, raw));
        StoreSucceeds(batches[1..], index + 1, split.1, fix, added.0, added.1);
      }
    }
  }

  /** When it finishes, the storing loop has stored one record per pass,
      numbered on from the first index, each holding the kept text and the
      raw text with the carried fragment in front, and has counted each. */
  lemma {:induction false} StoreRecords(batches: seq<seq<StampedPhrase>>, index: int, carry: string,
                                        fix: Fixer, repo: Repo, store: Store)
    requires Passes(AllAsPhrases(batches), carry, fix).Ok?
    ensures StoreAll(batches, index, carry, fix, repo, store).repo.texts
            == repo.texts + Records(Passes(AllAsPhrases(batches), carry, fix).value, index)
    ensures StoreAll(batches, index, carry, fix, repo, store).repo.meta.count == repo.meta.count + |batches|
    decreases |batches|
  {
    if |batches| > 0 {
      var bs := AllAsPhrases(batches);
      FirstStep(batches, index, carry, fix, repo, store);
      var raw := RawText(carry, StampedTexts(batches[0]));
      var fixed := fix(raw).value;
      var split := SplitCarry(fixed);
      var pt := ProcessedText(index, split.0, raw);
      var added := Add(repo, store, pt);
      assert StoreAll(batches, index, carry, fix, repo, store)
             == StoreAll(batches[1..], index + 1, split.1, fix, added.0, added.1);
      var rest := Passes(bs[1..], split.1, fix).value;
      assert Passes(bs, carry, fix).value == [Pass(raw, fixed, split.0, split.1)] + rest;
      StoreRecords(batches[1..], index + 1, split.1, fix, added.0, added.1);
      RecordsCons(Pass(raw, fixed, split.0, split.1), rest, index);
    }
  }

  /** The loop of `run` with skip bound `last`, when it finishes, has
      stored one record for every batch from index max(last, 0) on,
      numbered consecutively, after the texts already in memory. */
  lemma ProcessStoresFrom(bs: seq<seq<StampedPhrase>>, last: int, fix: Fixer, repo: Repo, store: Store)
    requires last <= |bs|
    ensures Process(bs, 0, last, "", fix, repo, store).error.None? ==>
              && |Process(bs, 0, last, "", fix, repo, store).repo.texts|
                 == |repo.texts| + |bs| - (if last < 0 then 0 else last)
              && Process(bs, 0, last, "", fix, repo, store).repo.texts[..|repo.texts|] == repo.texts
              && forall k :: |repo.texts| <= k < |Process(bs, 0, last, "", fix, repo, store).repo.texts| ==>
                   Process(bs, 0, last, "", fix, repo, store).repo.texts[k].index
                   == (if last < 0 then 0 else last) + (k - |repo.texts|)
  {
    var from := if last < 0 then 0 else last;
    if from == 0 {
      ProcessIsStore(bs, 0, last, "", fix, repo, store);
    } else {
      SkipThenStore(bs, 0, last, "", fix, repo, store);
    }
    assert Process(bs, 0, last, "", fix, repo, store) == StoreAll(bs[from..], from, "", fix, repo, store);
    StoreSucceeds(bs[from..], from, "", fix, repo, store);
    if Passes(AllAsPhrases(bs[from..]), "", fix).Ok? {
      StoreRecords(bs[from..], from, "", fix, repo, store);
      var out := StoreAll(bs[from..], from, "", fix, repo, store).repo.texts;
      var recs := Records(Passes(AllAsPhrases(bs[from..]), "", fix).value, from);
      assert out == repo.texts + recs;
      assert out[..|repo.texts|] == repo.texts;
      forall k | |repo.texts| <= k < |out|
        ensures out[k].index == from + (k - |repo.texts|)
      {
        assert out[k] == recs[k - |repo.texts|];
      }
    }
  }

  /** `run` over non-empty frames stores, when it finishes, one record for
      every batch from the repository's last index on (from 0 when that is
      negative): the batch at the last index itself is processed again and
      earlier batches are not stored. */
  lemma RunStoresFromLastIndex(frames: seq<seq<StampedPhrase>>, batchSize: nat, chat: string -> string,
                               repo: Repo, store: Store)
    requires batchSize > 0 && |frames| > 0
    requires LastIndex(repo) <= |Batched(Flatten(frames), batchSize)|
    ensures Run(frames, batchSize, chat, repo, store).error.None? ==>
              && |Run(frames, batchSize, chat, repo, store).repo.texts|
                 == |repo.texts| + |Batched(Flatten(frames), batchSize)| - (if LastIndex(repo) < 0 then 0 else LastIndex(repo))
              && Run(frames, batchSize, chat, repo, store).repo.texts[..|repo.texts|] == repo.texts
              && forall k :: |repo.texts| <= k < |Run(frames, batchSize, chat, repo, store).repo.texts| ==>
                   Run(frames, batchSize, chat, repo, store).repo.texts[k].index
                   == (if LastIndex(repo) < 0 then 0 else LastIndex(repo)) + (k - |repo.texts|)
  {
    ProcessStoresFrom(Batched(Flatten(frames), batchSize), LastIndex(repo), Replying(chat), repo, store);
  }
}
