/** The punctuation formatter (`TranscriptFormatter` in
    src/ytsum/transcription/formatter_v2.py): the phrases are cut into
    batches, each batch's text is punctuated by the model, and a sentence
    the model left unfinished ("...") is carried over to the front of the
    next batch.

    The model is an oracle `chat(text, attempt)`: its reply to a batch text
    on the given attempt (the formatter asks up to five times).
 */
module Punctuation {
  import opened Wrappers
  import opened Text
  import opened Transcript
  import opened Batching

  // ---------------------------------------------------------------- carry

  /** `s[j] == '.'` as `find`/`rfind` see it. */
  lemma DotAt(s: string, j: nat)
    requires j < |s|
    ensures IsAt(s, ".", j) <==> s[j] == '.'
  {
    if s[j] == '.' {
      assert s[j..j + 1] == ".";
    }
  }

  /** A text that ends in "..." with a full stop before those three dots:
      its last sentence is unfinished. */
  predicate Carries(fixed: string) {
    EndsWith(fixed, "...") && exists j :: 0 <= j < |fixed| - 3 && fixed[j] == '.'
  }

  /** Lines 33-40 of `run`: when the text ends in "..." and there is a '.'
      before those dots, the text after the last such '.' (without the
      dots) is carried over and the text is cut after that '.'; otherwise
      the text stays and nothing is carried. Returns (kept, carried). */
  function SplitCarry(fixed: string): (r: (string, string))
    ensures Carries(fixed) ==> r.0 + r.1 + "..." == fixed
    ensures !Carries(fixed) ==> r == (fixed, "")
  {
    if EndsWith(fixed, "...") then
      var j := RFindBelow(fixed, ".", |fixed| - 3);
      if j != -1 then
        DotAt(fixed, j);
        assert fixed[..j + 1] + fixed[j + 1..|fixed| - 3] + "..." == fixed by {
          assert fixed[|fixed| - 3..] == "...";
        }
        (fixed[..j + 1], fixed[j + 1..|fixed| - 3])
      else
        assert !Carries(fixed) by {
          forall i | 0 <= i < |fixed| - 3
            ensures fixed[i] != '.'
          {
            DotAt(fixed, i);
          }
        }
        (fixed, "")
    else (fixed, "")
  }

  /** When the rule applies, the kept text ends at a full stop and the
      carried fragment has none: the cut is at the last '.' before the
      dots. */
  lemma CarryAtLastStop(fixed: string)
    requires Carries(fixed)
    ensures EndsWith(SplitCarry(fixed).0, ".")
    ensures '.' !in SplitCarry(fixed).1
  {
    var j := RFindBelow(fixed, ".", |fixed| - 3);
    var i :| 0 <= i < |fixed| - 3 && fixed[i] == '.';
    DotAt(fixed, i);
    assert j != -1;
    DotAt(fixed, j);
    var c := SplitCarry(fixed).1;
    assert c == fixed[j + 1..|fixed| - 3];
    forall k | 0 <= k < |c|
      ensures c[k] != '.'
    {
      DotAt(fixed, j + 1 + k);
    }
  }

  /** Lines 24-27: the batch's phrase texts joined by spaces, with a carried
      fragment and one space in front when there is one. */
  function RawText(carry: string, texts: seq<string>): (raw: string)
    ensures EndsWith(raw, Join(" ", texts))
    ensures |carry| > 0 ==> StartsWith(raw, carry + " ")
    ensures |carry| == 0 ==> raw == Join(" ", texts)
  {
    var body := Join(" ", texts);
    if |carry| > 0 then
      assert (carry + " " + body)[..|carry + " "|] == carry + " ";
      carry + " " + body
    else body
  }

  // ---------------------------------------------------------------- tags

  const StartTag: string := "<punctuated_transcript>"
  const EndTag: string := "</punctuated_transcript>"
  const Attempts: nat := 5
  const NotFound: string := "Punctuated text not found in response."

  predicate IsQuote(c: char) {
    c == '"' || c == '\''
  }

  /** Lines 118-121: one leading and then one trailing quote character
      dropped, each only if present. What is left is an infix of the text,
      at most two characters shorter, starting after the leading quote if
      there was one. */
  function TrimQuotes(t: string): (r: string)
    ensures |t| - 2 <= |r| <= |t|
    ensures |t| > 0 && IsQuote(t[0]) ==> 1 + |r| <= |t| && r == t[1..1 + |r|]
    ensures !(|t| > 0 && IsQuote(t[0])) ==> r == t[..|r|]
  {
    var a := if |t| > 0 && IsQuote(t[0]) then t[1..] else t;
    if |a| > 0 && IsQuote(a[|a| - 1]) then a[..|a| - 1] else a
  }

  /** A text with at most one quote wrapped around each end. */
  function Quoted(body: string, lead: bool, trail: bool, q: char): string {
    (if lead then [q] else []) + body + (if trail then [q] else [])
  }

  /** Quote trimming undoes one quote on each side of a text that does not
      itself start or end with a quote. */
  lemma TrimQuotesUnwraps(body: string, lead: bool, trail: bool, q: char)
    requires IsQuote(q)
    requires |body| > 0 ==> !IsQuote(body[0]) && !IsQuote(body[|body| - 1])
    ensures TrimQuotes(Quoted(body, lead, trail, q)) == body
  {
    var t := Quoted(body, lead, trail, q);
    if !lead && |body| == 0 {
      assert t == [] || t == [q];
      return;
    }
    var tail := body + (if trail then [q] else []);
    assert t == (if lead then [q] else []) + tail;
    var a := if |t| > 0 && IsQuote(t[0]) then t[1..] else t;
    if lead {
      assert a == tail;
    } else {
      assert t[0] == body[0];
      assert a == tail;
    }
    if trail {
      assert a[..|a| - 1] == body;
    } else if |a| > 0 {
      assert a[|a| - 1] == body[|body| - 1];
    }
  }

  /** Both tags occur in the reply. */
  predicate Tagged(reply: string) {
    Contains(reply, StartTag) && Contains(reply, EndTag)
  }

  /** The first attempt from `i` on whose reply carries both tags. */
  function FirstTagged(text: string, chat: (string, nat) -> string, i: nat): (r: Option<nat>)
    requires i <= Attempts
    ensures r.Some? ==> i <= r.value < Attempts && Tagged(chat(text, r.value))
                        && forall j :: i <= j < r.value ==> !Tagged(chat(text, j))
    ensures r.None? ==> forall j :: i <= j < Attempts ==> !Tagged(chat(text, j))
    decreases Attempts - i
  {
    if i == Attempts then None
    else if Tagged(chat(text, i)) then Some(i)
    else FirstTagged(text, chat, i + 1)
  }

  /** `_fix_punctuation`: ask up to five times; fail if no reply carries
      both tags, else take the first such reply's text between the tags,
      stripped and with one quote trimmed from each end. */
  function FixPunctuation(text: string, chat: (string, nat) -> string): (r: Result<string>)
    ensures r.Err? <==> forall j :: 0 <= j < Attempts ==> !Tagged(chat(text, j))
    ensures r.Err? ==> r.error == ValueError(NotFound)
    ensures r.Ok? ==> exists i :: FirstTaggedAt(text, chat, i) && r.value == TagText(chat(text, i))
  {
    match FirstTagged(text, chat, 0)
    case None => Err(ValueError(NotFound))
    case Some(i) =>
      assert FirstTaggedAt(text, chat, i);
      Ok(TagText(chat(text, i)))
  }

  /** Attempt `i` is the first whose reply carries both tags. */
  predicate FirstTaggedAt(text: string, chat: (string, nat) -> string, i: nat) {
    && i < Attempts && Tagged(chat(text, i))
    && forall j :: 0 <= j < i ==> !Tagged(chat(text, j))
  }

  /** The reply's text between the tags, stripped, one quote trimmed from
      each end. */
  function TagText(reply: string): string {
    TrimQuotes(Between(reply, StartTag, EndTag))
  }


  /** A tag can only start at a '<'. */
  lemma TagAt(s: string, tag: string, j: int)
    requires |tag| > 0 && tag[0] == '<' && IsAt(s, tag, j)
    ensures s[j] == '<'
  {
    assert s[j..j + |tag|][0] == s[j];
  }

  lemma FirstStartTag(pre: string, rest: string)
    requires '<' !in pre
    ensures Find(pre + StartTag + rest, StartTag) == |pre|
  {
    var reply := pre + StartTag + rest;
    assert reply[|pre|..|pre| + |StartTag|] == StartTag;
    forall j | 0 <= j < |pre|
      ensures !IsAt(reply, StartTag, j)
    {
      if IsAt(reply, StartTag, j) {
        TagAt(reply, StartTag, j);
      }
    }
    FindIs(reply, StartTag, |pre|);
  }

  /** Only the first character of the start tag is a '<', and the end tag
      differs from it in its second character. */
  lemma StartTagShape()
    ensures forall i :: 1 <= i < |StartTag| ==> StartTag[i] != '<'
    ensures StartTag[1] != EndTag[1]
  {
  }

  /** Every '<' in s is followed by a 'p', as in the start tag, so that
      the end tag cannot begin there. */
  ghost predicate OnlyStartTags(s: string) {
    forall i :: 0 <= i < |s| ==> s[i] == '<' ==> i + 1 < |s| && s[i + 1] == 'p'
  }

  lemma FollowedByP(s: string, i: nat)
    requires OnlyStartTags(s) && i < |s| && s[i] == '<'
    ensures i + 1 < |s| && s[i + 1] == 'p'
  {
  }

  lemma FirstEndTag(head: string, rest: string)
    requires OnlyStartTags(head)
    ensures Find(head + EndTag + rest, EndTag) == |head|
  {
    var reply := head + EndTag + rest;
    assert reply[|head|..|head| + |EndTag|] == EndTag;
    forall j | 0 <= j < |head|
      ensures !IsAt(reply, EndTag, j)
    {
      assert reply[j] == head[j];
      if head[j] == '<' {
        FollowedByP(head, j);
        assert reply[j + 1] == head[j + 1];
        Differs(reply, EndTag, j, 1);
      } else {
        Differs(reply, EndTag, j, 0);
      }
    }
    FindIs(reply, EndTag, |head|);
  }

  /** The text up to the end of the body holds no end tag. */
  lemma HeadOnlyStartTags(pre: string, body: string)
    requires '<' !in pre && '<' !in body
    ensures OnlyStartTags(pre + StartTag + body)
  {
    var head := pre + StartTag + body;
    StartTagShape();
    forall i | 0 <= i < |head|
      ensures head[i] == '<' ==> i + 1 < |head| && head[i + 1] == 'p'
    {
      if i < |pre| {
        assert head[i] == pre[i];
      } else if i == |pre| {
        assert head[i + 1] == StartTag[1];
      } else if i < |pre| + |StartTag| {
        assert head[i] == StartTag[i - |pre|];
      } else {
        assert head[i] == body[i - |pre| - |StartTag|];
      }
    }
  }

  /** A reply of the shape `pre <tag> body </tag> post`, where neither pre
      nor body contains a '<', yields the stripped body. */
  lemma BetweenTags(pre: string, body: string, post: string)
    requires '<' !in pre && '<' !in body
    ensures Between(pre + StartTag + body + EndTag + post, StartTag, EndTag) == Strip(body)
  {
    var head := pre + StartTag + body;
    var rest := body + EndTag + post;
    var reply := head + EndTag + post;
    Regroup(pre, StartTag, body, EndTag, post);
    FirstStartTag(pre, rest);
    HeadOnlyStartTags(pre, body);
    FirstEndTag(head, post);
    BetweenAt(reply, StartTag, EndTag);
  }

  /** The same five pieces, grouped the two ways the tag searches see them. */
  lemma Regroup(a: string, b: string, c: string, d: string, e: string)
    ensures a + b + c + d + e == a + b + (c + d + e)
    ensures (a + b + c + d + e)[|a| + |b|..|a + b + c|] == c
  {
    assert (a + b + c + d + e)[|a| + |b|..|a + b + c|] == (a + b + c)[|a| + |b|..];
  }

  /** `Between` once both tags have been found. */
  lemma BetweenAt(reply: string, open: string, close: string)
    requires 0 <= Find(reply, open) && Find(reply, open) + |open| <= Find(reply, close)
    ensures Find(reply, close) <= |reply|
    ensures Between(reply, open, close) == Strip(reply[Find(reply, open) + |open|..Find(reply, close)])
  {
  }

  // ---------------------------------------------------------------- the run loop

  /** What one pass of the loop saw and produced. */
  datatype Pass = Pass(raw: string, fixed: string, kept: string, carry: string)

  /** The punctuation step, as the loop uses it. The loop's facts hold for
      any such step. */
  type Fixer = string -> Result<string>

  function Asking(chat: (string, nat) -> string): Fixer {
    text => FixPunctuation(text, chat)
  }

  /** The passes over the batches, starting with `carry` pending; the first
      failing batch ends the run with its error. */
  function Passes(batches: seq<seq<Phrase>>, carry: string, fix: Fixer): (r: Result<seq<Pass>>)
    ensures r.Ok? ==> |r.value| == |batches|
    ensures r.Err? ==> exists raw :: fix(raw) == Err(r.error)
  {
    if |batches| == 0 then Ok([])
    else
      var raw := RawText(carry, Texts(batches[0]));
      var fixed :- fix(raw);
      var split := SplitCarry(fixed);
      var rest :- Passes(batches[1..], split.1, fix);
      Ok([Pass(raw, fixed, split.0, split.1)] + rest)
  }

  /** The pass for a batch, given the carry left by the pass before it. */
  ghost predicate PassOf(p: Pass, batch: seq<Phrase>, carry: string, fix: Fixer) {
    && p.raw == RawText(carry, Texts(batch))
    && fix(p.raw) == Ok(p.fixed)
    && (p.kept, p.carry) == SplitCarry(p.fixed)
  }

  /** Each batch is punctuated from its own phrases with the previous
      batch's carried fragment in front (the first batch gets `carry`), and
      the carried fragment is used once and then replaced. */
  lemma {:induction false} PassesChain(batches: seq<seq<Phrase>>, carry: string, fix: Fixer)
    requires Passes(batches, carry, fix).Ok?
    ensures |batches| > 0 ==> PassOf(Passes(batches, carry, fix).value[0], batches[0], carry, fix)
    ensures forall k :: 0 < k < |batches| ==>
              PassOf(Passes(batches, carry, fix).value[k], batches[k], Passes(batches, carry, fix).value[k - 1].carry, fix)
  {
    if |batches| > 0 {
      var raw := RawText(carry, Texts(batches[0]));
      var fixed := fix(raw).value;
      var split := SplitCarry(fixed);
      PassesChain(batches[1..], split.1, fix);
      var ps := Passes(batches, carry, fix).value;
      var rest := Passes(batches[1..], split.1, fix).value;
      assert ps == [Pass(raw, fixed, split.0, split.1)] + rest;
      forall k | 0 < k < |batches|
        ensures PassOf(ps[k], batches[k], ps[k - 1].carry, fix)
      {
        assert ps[k] == rest[k - 1];
        assert batches[k] == batches[1..][k - 1];
        if k > 1 {
          assert ps[k - 1] == rest[k - 2];
        }
      }
    }
  }

  function Kept(ps: seq<Pass>): (ks: seq<string>)
    ensures |ks| == |ps| && forall k :: 0 <= k < |ps| ==> ks[k] == ps[k].kept
  {
    seq(|ps|, k requires 0 <= k < |ps| => ps[k].kept)
  }

  /** The passes of the loop once its window is stuck (a batch size of 0
      or less, see `Batching.StuckBatchEmpty`): each batch is empty, so a
      pass punctuates the carried sentence alone. After `k` such passes:
      the sentence still carried, or the first failure. */
  function StuckPasses(carry: string, fix: Fixer, k: nat): (r: Result<string>)
    ensures r.Err? ==> exists raw :: fix(raw) == Err(r.error)
    decreases k
  {
    if k == 0 then Ok(carry)
    else
      var fixed :- fix(RawText(carry, []));
      StuckPasses(SplitCarry(fixed).1, fix, k - 1)
  }

  /** `k` empty batches. */
  function Empties(k: nat): (bs: seq<seq<Phrase>>)
    ensures |bs| == k && forall i :: 0 <= i < k ==> bs[i] == []
  {
    if k == 0 then [] else [[]] + Empties(k - 1)
  }

  /** A stuck run `a` of `k` passes and an ordinary run `b` agree: they fail
      together, with the same error, and otherwise `a` carries what the
      last pass of `b` carried. */
  predicate StuckAgrees(a: Result<string>, b: Result<seq<Pass>>, k: nat) {
    && (a.Ok? <==> b.Ok?)
    && (a.Err? ==> a.error == b.error)
    && (k > 0 && a.Ok? ==> |b.value| >= k && a.value == b.value[k - 1].carry)
  }

  /** The stuck passes are the ordinary passes over empty batches. */
  lemma {:induction false} StuckIsPasses(carry: string, fix: Fixer, k: nat)
    ensures StuckAgrees(StuckPasses(carry, fix, k), Passes(Empties(k), carry, fix), k)
    decreases k
  {
    if k == 0 {
      assert Empties(k) == [];
    } else if fix(RawText(carry, [])).Ok? {
      var raw := RawText(carry, []);
      var fixed := fix(raw).value;
      var (kept, next) := SplitCarry(fixed);
      StuckIsPasses(next, fix, k - 1);
      StuckStep(carry, fix, k, raw, fixed, kept, next);
    } else {
      PassesOfEmpties(carry, fix, k);
    }
  }

  /** The inductive step of `StuckIsPasses` when the first pass succeeds. */
  lemma StuckStep(carry: string, fix: Fixer, k: nat, raw: string, fixed: string, kept: string, next: string)
    requires k > 0 && raw == RawText(carry, []) && fix(raw) == Ok(fixed) && (kept, next) == SplitCarry(fixed)
    requires StuckAgrees(StuckPasses(next, fix, k - 1), Passes(Empties(k - 1), next, fix), k - 1)
    ensures StuckAgrees(StuckPasses(carry, fix, k), Passes(Empties(k), carry, fix), k)
  {
    PassesOfEmpties(carry, fix, k);
    assert StuckPasses(carry, fix, k) == StuckPasses(next, fix, k - 1);
    AgreesOn(StuckPasses(next, fix, k - 1), Pass(raw, fixed, kept, next), Passes(Empties(k - 1), next, fix), k);
  }

  /** One more pass in front keeps the agreement. */
  lemma AgreesOn(a: Result<string>, p: Pass, rest: Result<seq<Pass>>, k: nat)
    requires k > 0 && StuckAgrees(a, rest, k - 1)
    requires k == 1 ==> a == Ok(p.carry)
    requires rest.Ok? ==> |rest.value| == k - 1
    ensures StuckAgrees(a, PassOn(p, rest), k)
  {
    if k > 1 && a.Ok? {
      assert PassOn(p, rest).value[k - 1] == rest.value[k - 2];
    }
  }

  /** The first of `k` passes over empty batches, unfolded. */
  lemma PassesOfEmpties(carry: string, fix: Fixer, k: nat)
    requires k > 0
    ensures fix(RawText(carry, [])).Err? ==> Passes(Empties(k), carry, fix) == Err(fix(RawText(carry, [])).error)
    ensures fix(RawText(carry, [])).Ok? ==>
              var fixed := fix(RawText(carry, [])).value;
              Passes(Empties(k), carry, fix)
              == PassOn(Pass(RawText(carry, []), fixed, SplitCarry(fixed).0, SplitCarry(fixed).1),
                        Passes(Empties(k - 1), SplitCarry(fixed).1, fix))
  {
    var bs := Empties(k);
    assert bs == [[]] + Empties(k - 1);
    assert Texts(bs[0]) == [];
    assert bs[1..] == Empties(k - 1);
  }

  /** One pass in front of the rest of the run. */
  function PassOn(p: Pass, rest: Result<seq<Pass>>): (r: Result<seq<Pass>>)
    ensures r.Ok? <==> rest.Ok?
    ensures r.Err? ==> r.error == rest.error
    ensures r.Ok? ==> r.value == [p] + rest.value
  {
    var ps :- rest;
    Ok([p] + ps)
  }

  /** The batch text of the first pass, whose window is `phrases[0:n]`. */
  function FirstRaw(phrases: seq<Phrase>, batchSize: int): string {
    RawText("", Texts(Slice(phrases, 0, batchSize)))
  }

  /** Some stuck pass after the first fails. */
  ghost predicate StuckFails(carry: string, chat: (string, nat) -> string) {
    exists k: nat :: StuckPasses(carry, Asking(chat), k).Err?
  }

  /** `TranscriptFormatter.run`: the kept texts of the passes joined by
      blank lines; whatever is still carried after the last batch is lost.
      A batch whose replies never carry the tags ends the run with the
      "not found" error. With a batch size of 0 or less the index loop
      never moves past 0 (see `Batching.NeverAdvances`): the first pass
      punctuates `phrases[0:n]`, every later one only the carried sentence,
      and the run either fails in some pass or never finishes. */
  ghost function Format(phrases: seq<Phrase>, batchSize: int, chat: (string, nat) -> string): (r: Result<string>)
    ensures |phrases| == 0 ==> r == Ok("")
    ensures |phrases| > 0 && batchSize <= 0 ==> r.Err?
    ensures |phrases| > 0 && batchSize <= 0 && FixPunctuation(FirstRaw(phrases, batchSize), chat).Err? ==>
              r == FixPunctuation(FirstRaw(phrases, batchSize), chat)
    ensures |phrases| > 0 && batchSize <= 0 && FixPunctuation(FirstRaw(phrases, batchSize), chat).Ok? ==>
              (r == Err(NeverTerminates) <==>
                 !StuckFails(SplitCarry(FixPunctuation(FirstRaw(phrases, batchSize), chat).value).1, chat))
    ensures |phrases| > 0 && batchSize > 0 ==>
              (r.Ok? <==> Passes(Batched(phrases, batchSize), "", Asking(chat)).Ok?)
    ensures |phrases| > 0 && batchSize > 0 && r.Ok? ==>
              r.value == Join("\n\n", Kept(Passes(Batched(phrases, batchSize), "", Asking(chat)).value))
    ensures r.Err? && r.error != NeverTerminates ==> r.error == ValueError(NotFound)
  {
    if |phrases| == 0 then Ok("")
    else if batchSize <= 0 then
      var fixed :- FixPunctuation(FirstRaw(phrases, batchSize), chat);
      var carry := SplitCarry(fixed).1;
      if StuckFails(carry, chat) then
        var k: nat :| StuckPasses(carry, Asking(chat), k).Err?;
        Err(StuckPasses(carry, Asking(chat), k).error)
      else Err(NeverTerminates)
    else
      var ps :- Passes(Windows(phrases, batchSize), "", Asking(chat));
      Ok(Join("\n\n", Kept(ps)))
  }
}
