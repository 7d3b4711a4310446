/** `SubtitleFrameAligner` (src/ytsum/alignment.py): every frame image named
    `frame-<index>-<start>-<end>.jpg` receives the text of the phrases whose
    start lies in its [start, end) window, and the last frame is stretched
    to the end of the transcription.

    The directory listing is a sequence of file names; the checks that the
    WebVTT path is a file and the frames path a directory are booleans.
    Writing the JSON output is outside the model.
 */
module Alignment {
  import opened Wrappers
  import opened Text
  import opened Timestamps
  import opened Transcript
  import opened Captions

  /** `Frame(index, starts_at_ms, ends_at_ms, text)` */
  datatype Frame = Frame(index: int, startMs: int, endMs: int, text: string)

  // ---------------------------------------------------------------- listing

  /** The shell pattern `frame-*-*-*.jpg`: the name starts with "frame-",
      ends with ".jpg", and what lies between holds at least two '-'. */
  predicate GlobMatch(name: string) {
    && |name| >= 10
    && StartsWith(name, "frame-")
    && EndsWith(name, ".jpg")
    && Count(name[6..|name| - 4], '-') >= 2
  }

  /** The names the glob lists, in directory order. */
  function Globbed(names: seq<string>): (r: seq<string>)
    ensures forall k :: 0 <= k < |r| ==> GlobMatch(r[k])
    ensures forall x :: x in r <==> x in names && GlobMatch(x)
    ensures forall x :: GlobMatch(x) ==> multiset(r)[x] == multiset(names)[x]
  {
    if |names| == 0 then []
    else
      var rest := Globbed(names[1..]);
      assert names == [names[0]] + names[1..];
      if GlobMatch(names[0]) then [names[0]] + rest else rest
  }

  /** Code-point lexicographic order, the order `sorted()` puts the paths of
      one directory in. */
  predicate NameLe(a: string, b: string) {
    if |a| == 0 then true
    else if |b| == 0 then false
    else if a[0] != b[0] then a[0] < b[0]
    else NameLe(a[1..], b[1..])
  }

  lemma {:induction false} NameLeTotal(a: string, b: string)
    ensures NameLe(a, b) || NameLe(b, a)
  {
    if |a| > 0 && |b| > 0 && a[0] == b[0] {
      NameLeTotal(a[1..], b[1..]);
    }
  }

  predicate Sorted(s: seq<string>) {
    forall i :: 0 <= i < |s| - 1 ==> NameLe(s[i], s[i + 1])
  }

  function Insert(x: string, s: seq<string>): (r: seq<string>)
    requires Sorted(s)
    ensures Sorted(r)
    ensures multiset(r) == multiset(s) + multiset{x}
    ensures |s| > 0 ==> r[0] == x || r[0] == s[0]
    ensures |s| == 0 ==> r == [x]
  {
    if |s| == 0 then [x]
    else if NameLe(x, s[0]) then [x] + s
    else
      NameLeTotal(x, s[0]);
      var rest := Insert(x, s[1..]);
      assert s == [s[0]] + s[1..];
      [s[0]] + rest
  }

  /** `sorted(names)`: an ordered permutation of the names. */
  function Sort(s: seq<string>): (r: seq<string>)
    ensures Sorted(r)
    ensures multiset(r) == multiset(s)
  {
    if |s| == 0 then []
    else
      assert s == [s[0]] + s[1..];
      Insert(s[0], Sort(s[1..]))
  }

  // ---------------------------------------------------------------- one frame

  /** `Path.stem` of a listed name: the name without ".jpg". */
  function Stem(name: string): string
    requires GlobMatch(name)
  {
    name[..|name| - 4]
  }

  /** Stripped texts of the phrases, in order. */
  function StrippedTexts(ps: seq<StampedPhrase>): (r: seq<string>)
    ensures |r| == |ps|
    ensures forall k :: 0 <= k < |ps| ==> r[k] == Strip(ps[k].text)
  {
    seq(|ps|, k requires 0 <= k < |ps| => Strip(ps[k].text))
  }

  /** `" ".join(phrase.text.strip() for phrase in phrases)` for a window. */
  function WindowText(ps: seq<StampedPhrase>, startMs: int, endMs: int): Result<string> {
    var phrases :- PhrasesInRange(ps, startMs, endMs);
    Ok(Join(" ", StrippedTexts(phrases)))
  }

  /** The frame of one listed file: the stem split on '-' gives
      int(parts[1]) as index and the millisecond values of parts[2] and
      parts[3] as window. */
  function FrameFor(name: string, ps: seq<StampedPhrase>): Result<Frame>
    requires GlobMatch(name)
  {
    var parts := Split(Stem(name), '-');
    if |parts| < 4 then Err(IndexOutOfRange)
    else
      var index :- IntField(parts[1]);
      var startMs :- ConvertTimestampToMs(parts[2]);
      var endMs :- ConvertTimestampToMs(parts[3]);
      var text :- WindowText(ps, startMs, endMs);
      Ok(Frame(index, startMs, endMs, text))
  }

  /** One frame per name, in order; the first failing name is the error. */
  function FramesFor(names: seq<string>, ps: seq<StampedPhrase>): (r: Result<seq<Frame>>)
    requires forall k :: 0 <= k < |names| ==> GlobMatch(names[k])
    ensures r.Ok? <==> forall k :: 0 <= k < |names| ==> FrameFor(names[k], ps).Ok?
    ensures r.Ok? ==> |r.value| == |names| && forall k :: 0 <= k < |names| ==> r.value[k] == FrameFor(names[k], ps).value
    ensures r.Err? ==> exists k :: 0 <= k < |names| && FrameFor(names[k], ps) == Err(r.error)
                                   && forall j :: 0 <= j < k ==> FrameFor(names[j], ps).Ok?
  {
    Collect(FrameResults(names, ps))
  }

  function FrameResults(names: seq<string>, ps: seq<StampedPhrase>): (r: seq<Result<Frame>>)
    requires forall k :: 0 <= k < |names| ==> GlobMatch(names[k])
    ensures |r| == |names| && forall k :: 0 <= k < |names| ==> r[k] == FrameFor(names[k], ps)
  {
    seq(|names|, k requires 0 <= k < |names| => FrameFor(names[k], ps))
  }

  // ---------------------------------------------------------------- the run

  /** The frame files in the order the aligner visits them. */
  function Listed(names: seq<string>): (r: seq<string>)
    ensures Sorted(r)
    ensures forall k :: 0 <= k < |r| ==> GlobMatch(r[k])
    ensures forall x :: GlobMatch(x) ==> multiset(r)[x] == multiset(names)[x]
  {
    var r := Sort(Globbed(names));
    assert forall x :: x in r ==> x in Globbed(names) by {
      forall x | x in r ensures x in Globbed(names) {
        assert multiset(r)[x] > 0;
      }
    }
    r
  }

  /** `run`: one frame per listed file, then the last frame's end becomes
      the transcription's end time and its text the window up to it. No
      listed file leaves no last frame (an IndexError). */
  function Run(names: seq<string>, ps: seq<StampedPhrase>): Result<seq<Frame>> {
    var frames :- FramesFor(Listed(names), ps);
    ExtendLast(frames, ps)
  }

  /** The step after the loop: `output.frames[-1]` gets the end time as its
      end and the text of the window up to it. */
  function ExtendLast(frames: seq<Frame>, ps: seq<StampedPhrase>): (r: Result<seq<Frame>>)
    ensures |frames| == 0 ==> r == Err(IndexOutOfRange)
    ensures r.Ok? ==> |r.value| == |frames| > 0
    ensures r.Ok? ==> forall k :: 0 <= k < |frames| - 1 ==> r.value[k] == frames[k]
    ensures r.Ok? ==> var n := |frames| - 1;
                      && r.value[n].index == frames[n].index
                      && r.value[n].startMs == frames[n].startMs
                      && EndTime(ps) == Ok(r.value[n].endMs)
                      && WindowText(ps, frames[n].startMs, r.value[n].endMs) == Ok(r.value[n].text)
  {
    if |frames| == 0 then Err(IndexOutOfRange)
    else
      var n := |frames| - 1;
      var endMs :- EndTime(ps);
      var text :- WindowText(ps, frames[n].startMs, endMs);
      Ok(ReplaceLast(frames, frames[n].(endMs := endMs, text := text)))
  }

  /** `frames` with its last element replaced by `f`. */
  function ReplaceLast(frames: seq<Frame>, f: Frame): (r: seq<Frame>)
    requires |frames| > 0
    ensures |r| == |frames| && r[|frames| - 1] == f
    ensures forall k :: 0 <= k < |frames| - 1 ==> r[k] == frames[k]
  {
    frames[..|frames| - 1] + [f]
  }

  /** The aligner: the constructor's two path checks, then `run` over the
      phrases of the captions. */
  function Align(vttPath: string, vttIsFile: bool, framesDir: string, framesIsDir: bool,
                 captions: seq<Caption>, hasCueTags: string -> bool, names: seq<string>): (r: Result<seq<Frame>>)
    ensures !vttIsFile ==> r == Err(FileNotFound("VTT file not found: " + vttPath))
    ensures vttIsFile && !framesIsDir ==> r == Err(FileNotFound("Frames directory not found: " + framesDir))
    ensures vttIsFile && framesIsDir ==> r == Run(names, Transcription(captions, hasCueTags))
  {
    if !vttIsFile then Err(FileNotFound("VTT file not found: " + vttPath))
    else if !framesIsDir then Err(FileNotFound("Frames directory not found: " + framesDir))
    else Run(names, Transcription(captions, hasCueTags))
  }

  /** With no file matching the glob the run fails at the last frame. */
  lemma NoFramesFails(names: seq<string>, ps: seq<StampedPhrase>)
    requires forall k :: 0 <= k < |names| ==> !GlobMatch(names[k])
    ensures Run(names, ps) == Err(IndexOutOfRange)
  {
  }

  /** A successful run has one frame per listed file, in sorted name order;
      every frame but the last is that file's own frame; the last keeps its
      index and start, ends at the end time, and its window holds every
      phrase starting at or after its start. */
  lemma RunShape(names: seq<string>, ps: seq<StampedPhrase>)
    requires Run(names, ps).Ok?
    ensures var r := Run(names, ps).value;
            var files := Listed(names);
            var n := |r| - 1;
            && |r| == |files| > 0
            && (forall k :: 0 <= k < n ==> r[k] == FrameFor(files[k], ps).value)
            && r[n].index == FrameFor(files[n], ps).value.index
            && r[n].startMs == FrameFor(files[n], ps).value.startMs
            && EndTime(ps) == Ok(r[n].endMs)
            && WindowText(ps, r[n].startMs, r[n].endMs) == Ok(r[n].text)
  {
    var frames := FramesFor(Listed(names), ps).value;
    assert Run(names, ps) == ExtendLast(frames, ps);
  }

  /** The last frame's window reaches every phrase starting at or after the
      last frame's start. */
  lemma LastFrameCoversTail(names: seq<string>, ps: seq<StampedPhrase>, i: nat)
    requires Run(names, ps).Ok?
    requires i < |ps| && StartTimes(ps).value[i] >= Run(names, ps).value[|Run(names, ps).value| - 1].startMs
    ensures var last := Run(names, ps).value[|Run(names, ps).value| - 1];
            ps[i] in PhrasesInRange(ps, last.startMs, last.endMs).value
  {
    RunShape(names, ps);
    var last := Run(names, ps).value[|Run(names, ps).value| - 1];
    var ts := StartTimes(ps).value;
    LatestCoversTail(ps, ts, last.startMs, i);
  }

  // ---------------------------------------------------------------- names

  /** A window bound spelled "HH_MM_SS_mmm". */
  function FileStamp(t: nat): string {
    var totalSeconds := t / 1000;
    var rem := totalSeconds % 3600;
    Fields(ZeroPad(totalSeconds / 3600, 2), ZeroPad(rem / 60, 2), ZeroPad(rem % 60, 2), ZeroPad(t % 1000, 3), '_', '_', '_')
  }

  /** The name the aligner expects for frame `index` covering [s, e). The
      index is written without padding; a zero-padded index, as video.py
      writes it, reads back the same through `int()` (Text.ZeroPadParses). */
  function FrameName(index: nat, s: nat, e: nat): string {
    Fields("frame", Decimal(index), FileStamp(s), FileStamp(e), '-', '-', '-') + ".jpg"
  }

  /** "HH_MM_SS_mmm" reads back as the milliseconds it was written from. */
  lemma FileStampReads(t: nat)
    ensures ConvertTimestampToMs(FileStamp(t)) == Ok(t)
  {
    var total := t / 1000;
    var rem := total % 3600;
    ClockArithmetic(t);
    PaddedFields(total / 3600, rem / 60, rem % 60, t % 1000, '_', '_', '_');
  }

  lemma FileStampNoDash(t: nat)
    ensures '-' !in FileStamp(t)
  {
    var total := t / 1000;
    var rem := total % 3600;
    NoDashInFields(ZeroPad(total / 3600, 2), ZeroPad(rem / 60, 2), ZeroPad(rem % 60, 2), ZeroPad(t % 1000, 3), '_');
  }

  lemma NoDashInFields(h: string, m: string, s: string, ms: string, c: char)
    requires AllDigits(h) && AllDigits(m) && AllDigits(s) && AllDigits(ms) && c != '-'
    ensures '-' !in Fields(h, m, s, ms, c, c, c)
  {
  }

  /** A name written as `FrameName(i, s, e)` is listed by the glob and its
      stem splits into "frame", the index and the two window bounds. */
  lemma FrameNameListed(index: nat, s: nat, e: nat)
    ensures GlobMatch(FrameName(index, s, e))
    ensures Split(Stem(FrameName(index, s, e)), '-') == ["frame", Decimal(index), FileStamp(s), FileStamp(e)]
  {
    FileStampNoDash(s);
    FileStampNoDash(e);
    DigitsNoDash(Decimal(index));
    NameShape(Decimal(index), FileStamp(s), FileStamp(e));
  }

  lemma DigitsNoDash(d: string)
    requires AllDigits(d)
    ensures '-' !in d
  {
  }

  /** "frame-d-a-b.jpg" is listed and its stem splits back into its four
      fields when none of them holds a '-'. */
  lemma NameShape(d: string, a: string, b: string)
    requires '-' !in d && '-' !in a && '-' !in b
    ensures GlobMatch(Fields("frame", d, a, b, '-', '-', '-') + ".jpg")
    ensures Split(Stem(Fields("frame", d, a, b, '-', '-', '-') + ".jpg"), '-') == ["frame", d, a, b]
  {
    var stem := Fields("frame", d, a, b, '-', '-', '-');
    var name := stem + ".jpg";
    assert name[..6] == "frame-";
    assert name[|name| - 4..] == ".jpg";
    assert name[6..|name| - 4] == d + (['-'] + (a + (['-'] + b)));
    CountDashes(d, a, b);
    assert name[..|name| - 4] == stem;
    SplitFields("frame", d, a, b, '-');
  }

  /** ... and the parts read back as index i and window [s, e). */
  lemma FrameNameRoundTrip(index: nat, s: nat, e: nat)
    ensures GlobMatch(FrameName(index, s, e))
    ensures var parts := Split(Stem(FrameName(index, s, e)), '-');
            && |parts| == 4
            && IntField(parts[1]) == Ok(index)
            && ConvertTimestampToMs(parts[2]) == Ok(s)
            && ConvertTimestampToMs(parts[3]) == Ok(e)
  {
    FrameNameListed(index, s, e);
    FileStampReads(s);
    FileStampReads(e);
    DecimalReads(index);
    ReadParts(Split(Stem(FrameName(index, s, e)), '-'), Decimal(index), FileStamp(s), FileStamp(e), index, s, e);
  }

  lemma ReadParts(parts: seq<string>, d: string, a: string, b: string, index: nat, s: nat, e: nat)
    requires parts == ["frame", d, a, b]
    requires IntField(d) == Ok(index) && ConvertTimestampToMs(a) == Ok(s) && ConvertTimestampToMs(b) == Ok(e)
    ensures |parts| == 4 && IntField(parts[1]) == Ok(index)
    ensures ConvertTimestampToMs(parts[2]) == Ok(s) && ConvertTimestampToMs(parts[3]) == Ok(e)
  {
    assert parts[1] == d && parts[2] == a && parts[3] == b;
  }

  lemma DecimalReads(n: nat)
    ensures IntField(Decimal(n)) == Ok(n)
  {
    DecimalValue(n);
    ParseDigits(Decimal(n));
  }

  lemma CountDashes(d: string, a: string, b: string)
    ensures Count(d + (['-'] + (a + (['-'] + b))), '-') >= 2
  {
    CountConcat(d, ['-'] + (a + (['-'] + b)));
    CountConcat(['-'], a + (['-'] + b));
    CountConcat(a, ['-'] + b);
    CountConcat(['-'], b);
  }

  lemma {:induction false} CountConcat(x: string, y: string)
    ensures Count(x + y, '-') == Count(x, '-') + Count(y, '-')
  {
    if |x| > 0 {
      assert (x + y)[1..] == x[1..] + y;
      CountConcat(x[1..], y);
    } else {
      assert x + y == y;
    }
  }

  /** The frame of a name written as `FrameName(i, s, e)` has index i,
      window [s, e) and the text of that window. */
  lemma FrameForName(index: nat, s: nat, e: nat, ps: seq<StampedPhrase>)
    requires WindowText(ps, s, e).Ok?
    ensures GlobMatch(FrameName(index, s, e))
    ensures FrameFor(FrameName(index, s, e), ps) == Ok(Frame(index, s, e, WindowText(ps, s, e).value))
  {
    FrameNameRoundTrip(index, s, e);
  }
}
