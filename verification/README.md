# ytsum, modelled in Dafny

ytsum turns a YouTube video into a structured text summary. It downloads the video, extracts distinct frames and scenes, and parses the WebVTT captions into timestamped phrases. It aligns those phrases with the frames, then has a language model punctuate, paragraph, segment and section the transcript, storing the processed texts as it goes. This project models the deterministic core of that pipeline. The pixel-similarity test and the language model's reply are oracles: functions passed in as parameters.

One module per part of the system:

- `Wrappers`: `Option`, `Result` and the error kinds the code raises.
- `Text`: the parts of Python's `str` the code relies on: strip, split, join, find and rfind, slicing, `int()`, zero-padded formatting.
- `Timestamps`: `convert_timestamp_to_ms` (in `utils.py` and in `alignment.py`) and the detector's `_format_time`, with their round trip.
- `Transcript`: the phrase and transcription records of `models.py` and `alignment.py`: half-open window selection and the end-time rule.
- `Captions`: `parse_vtt_file` and `parse_subtitle_line`. The cue-tag regular expression is written as a scanner, and both parsers are shown to agree.
- `Alignment`: `SubtitleFrameAligner`. It parses frame file names, gives each frame the text of its window and stretches the last frame to the transcript's end.
- `Sampling`, `Extraction`, `SceneDetection`: the two frame loops. The image extractor compares each frame with the last frame it KEPT. The SSIM detector compares each frame with the last SAMPLE and enforces a minimum scene length. Its loop state keeps each closed scene's times in milliseconds. They are written with `_format_time` when the scene list is read out, which gives the same strings as formatting them at the moment each scene closes.
- `Evaluation`, `Elapsed`: scoring a detector against annotations (in `eval.py` and in `tools/detect_scenes.py`), and `format_elapsed_time`.
- `Segmentation`: word-count chunking, breakpoint-reply parsing and segment merging of the LLM-guided segmenter, and the no-op segmenter.
- `Batching`, `Punctuation`: the batch windows and the punctuation formatter of `formatter_v2.py`, including its carry of an unfinished sentence into the next batch.
- `Paragraphs`: the paragraph formatter of `formatter.py`. It covers JSON-fence extraction, the hallucination check, the start-index search and the retry/advance arithmetic of its loop.
- `Repositories`: `ProcessedTextRepository` over a blob store modelled as a map.
- `Enhancement`: `FrameContentEnhancer`, which skips batches already stored, then punctuates and stores the rest.
- `Topics`: `TopicCreator`: topic generation with retries, and cutting the transcript into titled sections.
- `VideoDownload`: the Azure download processor: the download decision, the error branches and the artifact selection by extension.

Two places where the files disagree are modelled as written. `video.py` names frames `frame-NNNN.ext`, while the aligner expects `frame-I-HH_MM_SS_mmm-HH_MM_SS_mmm.jpg`. The image extractor's "differs" test is a mean-squared-error threshold, not SSIM. In both loops the test is an oracle predicate.

Proofs cover the following:

- round trips: timestamp formatting and parsing, batching and flattening, chunking and flattening, repository add and load;
- agreement between duplicated code: the two caption parsers, the two evaluators, the two punctuation carries;
- bounds and invariants of each loop;
- the error branches of each operation.

## Model

| member | source | states |
|---|---|---|
| Text.Strip | src/ytsum/transcription/parsers.py:48 | `str.strip()`: the result is the infix of the input left after removing leading and trailing whitespace, and it neither starts nor ends with whitespace |
| Text.SplitJoin | src/ytsum/utils.py:11 | `split(":")` is undone by joining with ":", and gives one more part than there are separators |
| Text.Split | src/ytsum/utils.py:11 | `str.split(sep)`: at least one part, and no part contains the separator |
| Text.Find | src/ytsum/transcription/formatter.py:191 | `str.find`: -1 exactly when the text does not occur, otherwise the least position where it occurs |
| Text.FindFrom | src/ytsum/transcription/formatter.py:195 | `str.find(sub, i)`: the least position at or after i where the text occurs, or -1 when there is none |
| Text.RFind | src/ytsum/transcription/topics.py:110-111 | `str.rfind`: -1 exactly when the text does not occur, otherwise the greatest position where it occurs |
| Text.RFindBelow | src/ytsum/transcription/formatter_v2.py:34 | `rfind` below a bound: -1, or a position below the bound where the text occurs with no occurrence between it and the bound |
| Text.SplitOn | src/ytsum/transcription/topics.py:47 | `split("\n\n")`: at least one piece, and no piece contains the separator |
| Text.SplitOnJoin | src/ytsum/transcription/topics.py:47 | joining the pieces of `split(sep)` with sep gives the text back |
| Text.Slice | src/ytsum/transcription/formatter.py:196 | Python slicing agrees with ordinary slicing on in-range bounds (negative and out-of-range bounds are resolved as Python does) |
| Text.ZeroPadParses | src/ytsum/scene_detection/ssim.py:134 | a zero-padded number reads back with `int()` as that number |
| Text.DecimalValue | src/ytsum/scene_detection/ssim.py:134 | the decimal spelling of n reads back as n |
| Text.Lower | src/ytsum/faas/azure/video_download.py:106 | lowering letter case keeps the length |
| Timestamps.FourFieldsNeeded | src/ytsum/utils.py:11-12 | conversion succeeds only when there are exactly three separators; otherwise the unpacking into four fields fails with the number of parts found |
| Timestamps.NormalizeCount | src/ytsum/utils.py:11 | after '.' and '_' are replaced by ':', the number of ':' equals the number of separators of any of the three kinds |
| Timestamps.NormalizeFields | src/ytsum/utils.py:11 | any mix of '.', '_' and ':' between the four fields normalises to the all-':' form |
| Timestamps.SplitFields | src/ytsum/utils.py:11-12 | four separator-free fields joined by ':' split back into exactly those four fields |
| Timestamps.ConvertFields | src/ytsum/utils.py:11-13 | four fields that `int()` accepts, with any separators, convert to h·3600000 + m·60000 + s·1000 + ms |
| Timestamps.DigitFieldsConvert | src/ytsum/utils.py:13 | digit-only fields always convert, to a non-negative number |
| Timestamps.FieldsMonotonic | src/ytsum/utils.py:13 | for digit-only fields the result is monotone in every field, and strictly greater when any field is strictly greater |
| Timestamps.DocumentedFormats | src/ytsum/utils.py:6-13 | "01:02:03.456", "01:02:03:456", "01_02_03_456" and the mixed "01.02_03:456" all convert to 3723456 |
| Timestamps.FormatTimeRoundTrip | src/ytsum/scene_detection/ssim.py:129-134 | converting `_format_time(t)` back gives t, for every whole number of milliseconds t |
| Timestamps.FormatTimeIsStamp | src/ytsum/scene_detection/ssim.py:129-134 | below 100 hours `_format_time` gives the zero-padded `HH:MM:SS.mmm` shape |
| Timestamps.PaddedFields | src/ytsum/utils.py:11-13 | zero-padded fields with any separators convert to the arithmetic value of the fields |
| Transcript.ReadAll | src/ytsum/models.py:12-14 | reading every phrase's start succeeds exactly when each one does; the values line up with the phrases, and a failure is the first failing phrase's |
| Transcript.StartTimesRead | src/ytsum/models.py:12-14 | `starts_at_ms` of every phrase is `convert_timestamp_to_ms(starts_at)`, and the first failing conversion is the error |
| Transcript.Positions | src/ytsum/models.py:26 | the positions selected are increasing and are exactly those whose start is in [start, end) |
| Transcript.SelectPositions | src/ytsum/models.py:23-27 | the selection is the phrases at the selected positions, in their original order |
| Transcript.SelectEmpty | src/ytsum/models.py:26 | a window with start ≥ end selects nothing |
| Transcript.SelectSplit | src/ytsum/models.py:26 | for a ≤ b ≤ c the windows [a,b) and [b,c) select disjoint positions and together the multiset of [a,c) |
| Transcript.SelectSound | src/ytsum/models.py:26 | every selected phrase is a phrase of the transcript whose start lies in the window |
| Transcript.PhrasesInRange | src/ytsum/models.py:20-27 | the selection fails exactly when some start fails to convert, with that error |
| Transcript.PhrasesInRangeExact | src/ytsum/alignment.py:39-46 | `get_phrases_in_range` returns exactly the phrases with start ≤ t < end, in original order |
| Transcript.Max | src/ytsum/models.py:30 | the maximum is one of the values and no value exceeds it |
| Transcript.Latest | src/ytsum/models.py:30 | max + 1000 fails on an empty list, exceeds every value by at least 1000 and equals one of them plus 1000 |
| Transcript.EndTimeBounds | src/ytsum/alignment.py:48-49 | `get_end_time` fails on an empty transcript, and otherwise is the greatest phrase start plus 1000 |
| Transcript.LatestCoversTail | src/ytsum/alignment.py:124-130 | a window ending at the end time includes every phrase starting at or after the window's start |
| Captions.TextEnd | src/ytsum/transcription/parsers.py:12 | the captured text `[^<]+` is the longest run of non-'<' characters |
| Captions.MatchAt | src/ytsum/transcription/parsers.py:12 | a match at a position has a `DD:DD:DD.DDD` stamp and a non-empty text without '<', and scanning resumes after it |
| Captions.FindAll | src/ytsum/transcription/parsers.py:44 | every match found carries a stamp of the pattern's shape and non-empty text free of '<' |
| Captions.NoTagNoMatch | src/ytsum/transcription/parsers.py:12 | a stretch without '<' yields no match |
| Captions.FirstMatchIsCueStart | src/ytsum/transcription/parsers.py:43-44 | on a line that opens with text, or with `<c>` followed by text, the first match carries the caption's own start time, prepended as a tag (a line opening with another tag is not covered) |
| Captions.PlainLineOneMatch | src/ytsum/transcription/parsers.py:43-44 | a line without '<' yields one phrase: the whole line at the caption's start |
| Captions.StampConverts | src/ytsum/transcription/parsers.py:49 | a captured timestamp always converts, to a non-negative number |
| Captions.StampMs | src/ytsum/transcription/parsers.py:49 | a captured `DD:DD:DD.DDD` stamp converts to a natural number of milliseconds |
| Captions.ToPhrase | src/ytsum/transcription/parsers.py:46-51 | the phrase's text is the stripped match text and its time is the conversion of the captured stamp |
| Captions.LinePhrases | src/ytsum/transcription/parsers.py:38-40 | a line without cue tags contributes no phrase; every phrase text is stripped and free of '<' |
| Captions.StrippedClean | src/ytsum/transcription/parsers.py:48 | stripping keeps the text free of '<' and is idempotent |
| Captions.LinesPhrases | src/ytsum/transcription/parsers.py:37-51 | lines without cue tags yield nothing; all phrase texts are stripped and free of '<' |
| Captions.AllPhrasesAppend | src/ytsum/transcription/parsers.py:34-51 | the phrases of consecutive captions are the phrases of each, in caption order |
| Captions.ParseVttFile | src/ytsum/transcription/parsers.py:28-29 | a missing or non-file path fails with FileNotFoundError before parsing; the phrases have stripped texts without '<' |
| Captions.ParseSubtitleLine | src/ytsum/alignment.py:63-68 | one phrase per pattern match, in order: phrase k holds match k's raw stamp and its unstripped text |
| Captions.PlainLineStamped | src/ytsum/alignment.py:63-68 | a line without '<', prefixed with its caption's start, gives the single phrase of the whole unstripped line at that start |
| Captions.ParsersAgree | src/ytsum/alignment.py:135-148 | the aligner's transcription and `parse_vtt_file` find the same phrases: same count, and each parsed phrase is the converted, stripped raw one |
| Captions.LinesAgree | src/ytsum/alignment.py:142-147 | the same agreement for the lines of one caption |
| Alignment.Globbed | src/ytsum/alignment.py:100 | the glob keeps exactly the names of the form `frame-*-*-*.jpg`, each as often as it occurs |
| Alignment.NameLeTotal | src/ytsum/alignment.py:100 | the order `sorted` uses on names is total |
| Alignment.Insert | src/ytsum/alignment.py:100 | inserting into a sorted list keeps it sorted and adds exactly the element |
| Alignment.Sort | src/ytsum/alignment.py:100 | `sorted`: an ordered permutation of the names |
| Alignment.Listed | src/ytsum/alignment.py:100 | the frame files are visited in sorted order, and they are exactly the glob matches |
| Alignment.FramesFor | src/ytsum/alignment.py:103-121 | one frame per file in visiting order; the run fails exactly when some file's name fails to parse, and then with the error of the first such file |
| Alignment.ExtendLast | src/ytsum/alignment.py:123-130 | with no frame the last-frame step fails; otherwise only the last frame changes: its end becomes the end time and its text covers its new window |
| Alignment.Align | src/ytsum/alignment.py:89-92 | the aligner fails if the VTT path is not a file, then if the frames path is not a directory; otherwise it runs |
| Alignment.NoFramesFails | src/ytsum/alignment.py:124 | with no file matching the glob the run fails at the last frame |
| Alignment.RunShape | src/ytsum/alignment.py:100-130 | one output frame per matched file in sorted order; all but the last as parsed, the last extended to the transcription's end time |
| Alignment.LastFrameCoversTail | src/ytsum/alignment.py:124-130 | the last frame's window holds every phrase starting at or after its start |
| Alignment.FileStampReads | src/ytsum/alignment.py:106-107 | an `HH_MM_SS_mmm` stamp written from t converts back to t |
| Alignment.FrameNameListed | src/ytsum/alignment.py:100-104 | a name `frame-I-S-E.jpg` matches the glob and its stem splits on '-' into the four parts |
| Alignment.FrameNameRoundTrip | src/ytsum/alignment.py:104-107 | a frame name reads back as index I and window [S, E) |
| Alignment.FrameForName | src/ytsum/alignment.py:103-121 | the frame built for `frame-I-S-E.jpg` has index I, window [S, E) and the joined stripped texts of the phrases in it |
| Sampling.Samples | src/ytsum/video.py:74-76 | the frames looked at are a selection of the frames read, never more of them |
| Sampling.SamplesAre | src/ytsum/video.py:74-76 | the k-th frame looked at is frame number (k+1)·interval (1-based), and the number c of them satisfies c·interval ≤ n < (c+1)·interval, i.e. c = ⌊n / interval⌋; products are written `Mult` |
| Sampling.MultIs | src/ytsum/video.py:74-76 | `Mult(c, d)`, the repeated addition the sampling lemmas use, is the product c·d |
| Sampling.SomeSample | src/ytsum/video.py:74-76 | some frame is looked at exactly when at least `frame_interval` frames were read |
| Sampling.LastSample | src/ytsum/scene_detection/ssim.py:79 | the last sampled frame number is a multiple of the interval, at most the frame count, and positive exactly when a full interval was read |
| Sampling.LastSampleStep | src/ytsum/scene_detection/ssim.py:79 | one more frame changes the last sampled frame number only when its own number is a multiple of the interval |
| Extraction.Kept | src/ytsum/video.py:77-82 | compare-to-last-kept: the kept positions are positions of the samples, and the first sample is always kept |
| Extraction.KeptGrows | src/ytsum/video.py:77-82 | one more sample is kept exactly when nothing is kept yet or it differs from the last kept sample |
| Extraction.KeptDiffer | src/ytsum/video.py:77-81 | each kept sample differs from the one kept before it |
| Extraction.KeptIncreasing | src/ytsum/video.py:77-82 | samples are kept in increasing order |
| Extraction.KeptExtends | src/ytsum/video.py:77-82 | looking at one more sample appends its position or nothing |
| Extraction.KeptPrefix | src/ytsum/video.py:77-82 | what is kept from a prefix is a prefix of what is kept from the whole, and later positions come after it |
| Extraction.SkippedResembleLastKept | src/ytsum/video.py:80-81 | a sample that is not kept does not differ from the last sample kept before it: the reference changes only on a save |
| Extraction.Keep | src/ytsum/video.py:77-82 | the saved frames are the samples at the kept positions, in order |
| Extraction.Run | src/ytsum/video.py:58-82 | the read loop with its frame and save counters saves exactly the kept samples under consecutive names, and fails when the video does not open |
| Extraction.LastOf | src/ytsum/video.py:65 | the last saved frame, absent exactly when nothing was saved yet |
| Extraction.SampleStep | src/ytsum/video.py:74-82 | one pass of the loop appends the frame just read exactly when it is a sample and nothing is saved yet or it differs from the last saved frame |
| Extraction.NamedSnoc | src/ytsum/video.py:80-82 | saving one more frame adds it under the next counter value |
| Extraction.KeepSnoc | src/ytsum/video.py:77-82 | one more sample is saved exactly when nothing was saved or it differs from the last saved frame |
| Extraction.FirstSampleSaved | src/ytsum/video.py:77-82 | the first sample, frame number `frame_interval`, is always saved, as `frame-0000` |
| Extraction.SavesIffLongEnough | src/ytsum/video.py:69-82 | at least one frame is saved iff the video has at least `frame_interval` frames |
| Extraction.SavedAreOrderedSamples | src/ytsum/video.py:77-82 | the saved frames are an in-order subsequence of the samples, each differing from the one saved before it |
| Extraction.DigitRunPrefix | src/ytsum/video.py:115 | the run of digits at the front of a name ends where its zero-padded counter ends |
| Extraction.NameDigits | src/ytsum/video.py:115 | a saved name holds the zero-padded counter right after "frame-" |
| Extraction.NamesDistinct | src/ytsum/video.py:115 | two saved names are equal exactly when their counters are |
| SceneDetection.DetectScenes | src/ytsum/scene_detection/ssim.py:53-106 | the loop of `_detect_scenes_using_ssim` computes exactly the scenes of the fold over the frames |
| SceneDetection.Run | src/ytsum/scene_detection/ssim.py:31-51 | an unopened video fails; otherwise the result holds the detected scenes, their number, and echoes the path, frame rate, minimum length in seconds and threshold, with zero frames and content value |
| SceneDetection.StepGood | src/ytsum/scene_detection/ssim.py:79-96 | one loop pass keeps every scene well formed: long enough, ending at a sample that differs from the previous sample |
| SceneDetection.StepInv | src/ytsum/scene_detection/ssim.py:79-96 | one loop pass keeps the loop invariant: well-formed, chained scenes, with the reference at the last sample |
| SceneDetection.StepPrev | src/ytsum/scene_detection/ssim.py:96 | one pass leaves the last sample as the comparison reference |
| SceneDetection.StepChained | src/ytsum/scene_detection/ssim.py:89-94 | one pass keeps the scenes chained: each starts where the previous one ended |
| SceneDetection.NewSceneFrames | src/ytsum/scene_detection/ssim.py:79-86 | a scene closed at a sample that is long enough and differs from the previous sample, or is the first, is well formed |
| SceneDetection.NewSceneTimes | src/ytsum/scene_detection/ssim.py:84-94 | a closed scene's start and end times are the positions of its start and end frames (0 before the first frame) |
| SceneDetection.AfterInv | src/ytsum/scene_detection/ssim.py:71-96 | the invariant holds after any number of frames |
| SceneDetection.ScenesIndexed | src/ytsum/scene_detection/ssim.py:84-86 | scenes are indexed 0, 1, 2, … in emission order |
| SceneDetection.ScenesChained | src/ytsum/scene_detection/ssim.py:57-94 | the first scene starts at frame 0 and "00:00:00.000"; each later scene starts at the previous scene's end frame and end time |
| SceneDetection.TailNotEmitted | src/ytsum/scene_detection/ssim.py:71-106 | every scene ends at or before the last boundary; the frames after it are never emitted as a scene |
| SceneDetection.ScenesLongEnough | src/ytsum/scene_detection/ssim.py:79-83 | every scene spans at least `min_scene_length_frames`, and its end frame is a positive multiple of the interval within the video |
| SceneDetection.ScenesEndAtChanges | src/ytsum/scene_detection/ssim.py:79-88 | a scene ends at the first sample or at a sample that differs from the sample before it, and its end time is that frame's position |
| SceneDetection.ReferenceIsLastSample | src/ytsum/scene_detection/ssim.py:96 | compare-to-last-sample: the reference is the last sample read, boundary or not |
| SceneDetection.AfterPrefix | src/ytsum/scene_detection/ssim.py:84-92 | scenes once emitted are never changed: the scenes of a prefix are a prefix of the scenes |
| SceneDetection.BoundaryEmitted | src/ytsum/scene_detection/ssim.py:79-94 | frame c closes a scene exactly when it is a sample, it is the first sample or differs from the previous one, and the scene has reached the minimum length |
| SceneDetection.FirstSampleCloses | src/ytsum/scene_detection/ssim.py:80 | with no minimum length the first sample is a boundary unconditionally, closing the scene [0, interval) |
| Evaluation.ParseTime | src/ytsum/scene_detection/eval.py:48-53 | a time that `strptime` rejects fails with a ValueError naming the value and the `HH:MM:SS.mmm` format; otherwise it is the parsed time |
| Evaluation.TimeDifference | src/ytsum/scene_detection/eval.py:56-69 | succeeds exactly when both times parse; the difference is non-negative and is one of the two signed differences; otherwise it fails with the parse error of the first malformed time |
| Evaluation.IsSceneMatch | src/ytsum/scene_detection/eval.py:131-137 | succeeds exactly when all four times parse; then a match means both the start and the end difference are within the tolerance, bounds included |
| Evaluation.AnyMatchExact | src/ytsum/scene_detection/eval.py:88-91 | when every time parses, the inner loop reports a match exactly when some detected scene matches |
| Evaluation.CountMatches | src/ytsum/scene_detection/eval.py:87-91 | each annotated scene counts at most once, so the count never exceeds the number of annotated scenes |
| Evaluation.CountIsMatched | src/ytsum/scene_detection/eval.py:84-91 | when every time parses, the count is the number of annotated scenes that have some matching detected scene |
| Evaluation.Evaluate | src/ytsum/scene_detection/eval.py:81-113 | mismatched video paths fail with "Video file paths in annotation and result do not match." before any scoring; the result echoes the annotation's path and the detection's minimum length, threshold and content value |
| Evaluation.MetricBounds | src/ytsum/scene_detection/eval.py:93-102 | accuracy lies in [0, 100], recall in [0, 1], precision and F1 are non-negative, and F1 is 0 exactly when precision or recall is |
| Evaluation.PrecisionAboveOne | src/ytsum/scene_detection/eval.py:87-96 | one detected scene can match two annotated scenes, giving precision 2 |
| Evaluation.RunEvalAgrees | tools/detect_scenes.py:161-193 | `run_eval` fails in the same cases and with the same error as the evaluator, and otherwise computes the same four metrics |
| Elapsed.Parts | tools/detect_scenes.py:67-73 | there are at most three parts |
| Elapsed.UnitsAddUp | tools/detect_scenes.py:61-65 | the parts are whole minutes, seconds within the minute (< 60) and milliseconds (< 1000), and they add back up to the elapsed time |
| Elapsed.NothingElapsed | tools/detect_scenes.py:78-80 | there are no parts exactly when nothing elapsed, and then the text is "0 milliseconds" |
| Elapsed.PluralUnlessOne | tools/detect_scenes.py:69-73 | a unit word ends in "s" exactly when its count is not 1 |
| Elapsed.Sentence | tools/detect_scenes.py:75-78 | one part stands alone; two or three parts read "a and b" or "a, b and c" |
| Segmentation.OpenList | src/ytsum/transcription/segmentation/llm.py:40-41 | the segment still open after the loop contributes one segment exactly when there is one |
| Segmentation.WordCountSnoc | src/ytsum/transcription/segmentation/llm.py:51-52 | a chunk's word count grows by exactly the words of the phrase appended to it |
| Segmentation.ChunksFlatten | src/ytsum/transcription/segmentation/llm.py:45-62 | the chunks, concatenated, are the transcript's phrases in order: nothing is lost, repeated or reordered |
| Segmentation.ChunksShape | src/ytsum/transcription/segmentation/llm.py:50-60 | every chunk is minimal (without its last phrase it is below the word budget) and every chunk but the last reaches the budget |
| Segmentation.SplitIntoChunks | src/ytsum/transcription/segmentation/llm.py:45-62 | the chunks cover the phrases in order, are non-empty, close as soon as the word budget is reached, and only the last may fall short |
| Segmentation.NoChunksOfNothing | src/ytsum/transcription/segmentation/llm.py:59-62 | there are no chunks exactly when there are no phrases |
| Segmentation.NonPositiveBudget | src/ytsum/transcription/segmentation/llm.py:54 | with a budget of zero or less every phrase is a chunk of its own |
| Segmentation.AtOrAfter | src/ytsum/transcription/segmentation/llm.py:104 | a new segment holds exactly the chunk's phrases that start at or after its start time |
| Segmentation.ParseResponse | src/ytsum/transcription/segmentation/llm.py:86-87 | a reply that is "CONTINUE" in any letter case, after stripping, proposes no segment |
| Segmentation.BreakpointLines | src/ytsum/transcription/segmentation/llm.py:93 | only lines starting with "BREAKPOINT:" open a segment |
| Segmentation.OpenedPerLine | src/ytsum/transcription/segmentation/llm.py:92-107 | one segment is opened per breakpoint line, in order, each built from its own line |
| Segmentation.BareAppend | src/ytsum/transcription/segmentation/llm.py:92-116 | dropping titles and summaries distributes over concatenation |
| Segmentation.ReadLineShape | src/ytsum/transcription/segmentation/llm.py:93-111 | a breakpoint line adds one new segment; any other line changes at most a title or summary |
| Segmentation.ReadLinesOpen | src/ytsum/transcription/segmentation/llm.py:92-116 | apart from titles and summaries, reading lines yields exactly the segments their breakpoint lines open |
| Segmentation.SegmentPerBreakpoint | src/ytsum/transcription/segmentation/llm.py:89-116 | a reply other than CONTINUE gives one segment per breakpoint line: its start is the integer after the colon (0 when it does not parse), it ends where the chunk's last phrase starts and it holds the phrases from its start on |
| Segmentation.ReadLinesAppend | src/ytsum/transcription/segmentation/llm.py:92-111 | the lines are read strictly left to right: reading two blocks is reading the first and then the second |
| Segmentation.HeaderIgnored | src/ytsum/transcription/segmentation/llm.py:108-111 | title and summary lines before the first breakpoint are ignored |
| Segmentation.NothingOpens | src/ytsum/transcription/segmentation/llm.py:113-116 | a reply with no breakpoint line proposes no segment |
| Segmentation.FieldsOverwrite | src/ytsum/transcription/segmentation/llm.py:108-111 | a later title or summary line replaces the open segment's earlier one |
| Segmentation.TitleLine | src/ytsum/transcription/segmentation/llm.py:108-109 | a title line sets the open segment's title to the stripped text after the first colon and changes nothing else |
| Segmentation.SummaryLine | src/ytsum/transcription/segmentation/llm.py:110-111 | a summary line sets the open segment's summary to the stripped text after the first colon and changes nothing else |
| Segmentation.NotBreakpoint | src/ytsum/transcription/segmentation/llm.py:93-110 | a title or summary line is never taken for a breakpoint |
| Segmentation.HeadingsAppend | src/ytsum/transcription/segmentation/llm.py:33-35 | headings distribute over concatenation |
| Segmentation.StepHeadings | src/ytsum/transcription/segmentation/llm.py:30-38 | one chunk's merge adds exactly the headings of its proposed segments |
| Segmentation.MergeKeepsHeadings | src/ytsum/transcription/segmentation/llm.py:24-43 | for any proposer, the final segments carry exactly the proposed starts, titles and summaries, in order |
| Segmentation.LlmSegments | src/ytsum/transcription/segmentation/llm.py:13-43 | the segmenter's output carries exactly the headings the replies proposed, chunk by chunk |
| Segmentation.OpenEnds | src/ytsum/transcription/segmentation/llm.py:30-103 | when every proposed segment ends at its chunk's last phrase, the segment still open ends where the last chunk's last phrase starts |
| Segmentation.OpenEndsAtChunkEnd | src/ytsum/transcription/segmentation/llm.py:30-103 | the last segment of the run ends where the last chunk's last phrase starts |
| Segmentation.ClosedBeforeNext | src/ytsum/transcription/segmentation/llm.py:30-35 | when a chunk proposes segments, the open one is closed one millisecond before the first of them, the rest but the last are finished unchanged and the last stays open |
| Segmentation.QuietChunk | src/ytsum/transcription/segmentation/llm.py:36-38 | a chunk with no proposal finishes nothing; it extends the open segment, if any, with the chunk's phrases and moves its end to the chunk's last phrase, keeping its heading |
| Segmentation.NoOpSegments | src/ytsum/transcription/segmentation/common.py:13-21 | the no-op segmenter gives a single segment from 0 to the transcript's end time holding all its phrases |
| Batching.FlattenEmpty | src/ytsum/transcription/formatter_v2.py:20-21 | non-empty batches lay end to end to nothing exactly when there are none |
| Batching.BatchedCover | src/ytsum/transcription/formatter_v2.py:15-50 | the batches, concatenated, are the list itself; each holds between 1 and n elements and all but the last hold exactly n |
| Batching.BatchedWindows | src/ytsum/transcription/formatter_v2.py:21-50 | batch k is the slice from k·n to (k+1)·n, cut at the end of the list |
| Batching.LoopIsBatched | src/ytsum/transcription/formatter_v2.py:15-50 | the start/end index loop, from any reachable pair of indices, produces the consecutive batches of the rest of the list |
| Batching.Windows | src/ytsum/transcription/formatter_v2.py:15-50 | for a positive batch size the index loop produces exactly the consecutive batches of the list |
| Batching.NeverAdvances | src/ytsum/transcription/formatter_v2.py:15-50 | with a batch size of 0 or less the start index never becomes positive, so the loop never ends on a non-empty transcript |
| Batching.StuckWindows | src/ytsum/transcription/formatter_v2.py:49-50 | with a batch size n of 0 or less, from the second pass on the start index is at most n and the end index is n below it |
| Batching.StuckBatchEmpty | src/ytsum/transcription/formatter_v2.py:21-50 | with a batch size of 0 or less, every pass after the first takes an empty batch under Python's slicing |
| Punctuation.DotAt | src/ytsum/transcription/formatter_v2.py:34 | a full stop is found at position j exactly when the character there is '.' |
| Punctuation.SplitCarry | src/ytsum/transcription/formatter_v2.py:33-40 | a text ending in "..." with an earlier full stop splits into the kept part and the unfinished sentence, which with the "..." rebuild it; any other text is kept whole and carries nothing |
| Punctuation.CarryAtLastStop | src/ytsum/transcription/formatter_v2.py:34-40 | the kept part ends at a full stop and the carried sentence contains none, so the cut is at the last full stop before the "..." |
| Punctuation.RawText | src/ytsum/transcription/formatter_v2.py:24-27 | the batch text ends with the phrases joined by spaces and is prefixed by the carried sentence and a space exactly when something was carried |
| Punctuation.TrimQuotes | src/ytsum/transcription/formatter_v2.py:118-121 | at most one leading and one trailing quote character are removed, and nothing else changes |
| Punctuation.TrimQuotesUnwraps | src/ytsum/transcription/formatter_v2.py:118-121 | a body wrapped in optional quotes comes back out exactly |
| Punctuation.FirstTagged | src/ytsum/transcription/formatter_v2.py:104-109 | the first attempt, out of five, whose reply holds both tags; none when no attempt does |
| Punctuation.FixPunctuation | src/ytsum/transcription/formatter_v2.py:104-123 | fails with "Punctuated text not found in response." exactly when none of the five replies holds both tags; otherwise the result is the stripped, unquoted text between the tags of the first reply that holds them |
| Punctuation.FirstStartTag | src/ytsum/transcription/formatter_v2.py:114 | with no '<' before it, the opening tag is found where it was put |
| Punctuation.StartTagShape | src/ytsum/transcription/formatter_v2.py:65-66 | the opening tag has a single '<' and differs from the closing tag in its second character |
| Punctuation.FirstEndTag | src/ytsum/transcription/formatter_v2.py:115 | when only opening tags' '<' come first, the closing tag is found where it was put |
| Punctuation.HeadOnlyStartTags | src/ytsum/transcription/formatter_v2.py:114-115 | a reply head of plain text, the opening tag and plain text has no '<' but the opening tag's |
| Punctuation.BetweenTags | src/ytsum/transcription/formatter_v2.py:114-116 | for a reply whose only tags are one opening and one closing tag, the extracted text is the stripped text between them |
| Punctuation.Passes | src/ytsum/transcription/formatter_v2.py:20-50 | one pass per batch; a failure is the punctuation fixer's failure on some batch text |
| Punctuation.PassesChain | src/ytsum/transcription/formatter_v2.py:20-50 | the first pass starts with nothing carried, and every later pass starts with the sentence the previous one carried |
| Punctuation.StuckPasses | src/ytsum/transcription/formatter_v2.py:20-50 | a failing run of stuck passes fails with the fixer's error on some text |
| Punctuation.StuckIsPasses | src/ytsum/transcription/formatter_v2.py:20-50 | k stuck passes behave as k ordinary passes over empty batches: they fail together with the same error, and otherwise carry the same sentence |
| Punctuation.Format | src/ytsum/transcription/formatter_v2.py:12-52 | no phrases give ""; with a batch size of 0 or less on phrases the run never succeeds: it fails with the fixer's error when the first pass over `phrases[0:n]` fails, and otherwise reports non-termination exactly when no later pass over the carried sentence alone fails; with a positive size it fails exactly when some pass fails, with the fixer's "not found" error, and succeeds with the kept texts joined by blank lines |
| Repositories.DecimalInjective | src/ytsum/storage/repositories.py:42 | distinct naturals have distinct decimal spellings |
| Repositories.IntToStringInjective | src/ytsum/storage/repositories.py:42 | distinct indices have distinct spellings, so they name distinct files |
| Repositories.PathsDistinct | src/ytsum/storage/repositories.py:26-50 | no text file is the metadata file, and two text files coincide exactly when their indices do |
| Repositories.HasLeast | src/ytsum/storage/repositories.py:40 | a non-empty finite set of indices has a least element |
| Repositories.HasGreatest | src/ytsum/storage/repositories.py:62 | a non-empty finite set of indices has a greatest element |
| Repositories.Least | src/ytsum/storage/repositories.py:40 | the least stored index |
| Repositories.Greatest | src/ytsum/storage/repositories.py:62 | the greatest stored index |
| Repositories.Ascending | src/ytsum/storage/repositories.py:40 | the stored indices listed once each, in strictly ascending order |
| Repositories.ReadMeta | src/ytsum/storage/repositories.py:35-38 | the metadata loads exactly when the path holds metadata, and then it is what was saved there |
| Repositories.ReadText | src/ytsum/storage/repositories.py:41-44 | a text loads exactly when its path holds a text, and then it is what was saved there; a missing file fails |
| Repositories.ReadTexts | src/ytsum/storage/repositories.py:40-45 | all texts load exactly when every index has its text file, and then they are the saved texts in the given order |
| Repositories.Load | src/ytsum/storage/repositories.py:25-45 | without a metadata file the empty metadata is saved and nothing is loaded; otherwise the metadata is read and the stored texts are appended in index order, failing exactly when a file is missing or of the wrong kind |
| Repositories.LastIndex | src/ytsum/storage/repositories.py:61-62 | the greatest stored index, or 0 when there is none |
| Repositories.ApplyTwo | src/ytsum/storage/repositories.py:49-57 | applying the two writes updates the text path and then the metadata path |
| Repositories.AddThenLoad | src/ytsum/storage/repositories.py:25-59 | adding keeps memory and store in step, and a fresh repository loading the store gets the same metadata and the added text |
| Repositories.AddInterrupted | src/ytsum/storage/repositories.py:49-57 | if only the text file is written, a fresh load still succeeds with the old metadata |
| Repositories.CountOutgrowsIndices | src/ytsum/storage/repositories.py:55-56 | re-adding a stored index makes the count exceed the number of indices |
| Repositories.LoadCreatesMetadata | src/ytsum/storage/repositories.py:29-32 | loading with no metadata file leaves the repository empty and saves empty metadata |
| Repositories.LastIndexAfterAdd | src/ytsum/storage/repositories.py:61-62 | after an add the last index is the larger of the old last index and the new one |
| Enhancement.EnhanceFix | src/ytsum/enhancement.py:216-264 | fails with "Punctuated text not found in response." exactly when the reply holds neither the literal "{START_TAG}" placeholder nor the closing tag; a single try, with no retry |
| Enhancement.FirstAfter | src/ytsum/enhancement.py:262-263 | a tag whose first character does not occur before it is found where it was put |
| Enhancement.TagPositions | src/ytsum/enhancement.py:262-263 | in a reply of plain text, the placeholder tag, a body and the closing tag, both tags are found where they were put |
| Enhancement.EnhanceBetween | src/ytsum/enhancement.py:262-266 | for such a reply the result is the stripped body between the tags |
| Enhancement.MissingStartTag | src/ytsum/enhancement.py:260-264 | a reply with the closing tag but no placeholder passes the check and is sliced from position 10, the length of the placeholder minus one |
| Enhancement.StoreAll | src/ytsum/enhancement.py:170-203 | storing keeps the repository's prefix, and a failure is the fixer's failure on some batch text |
| Enhancement.Run | src/ytsum/enhancement.py:158-168 | no frames fail with "Input frames list is empty." and touch nothing; otherwise the frames' phrases are flattened, batched, and processed from the repository's last index with nothing carried |
| Enhancement.SkipThenStore | src/ytsum/enhancement.py:170-174 | batches below the last processed index are skipped, and processing resumes at that index |
| Enhancement.ProcessIsStore | src/ytsum/enhancement.py:170-203 | from the last processed index on, every batch is stored |
| Enhancement.RecordsCons | src/ytsum/enhancement.py:170-203 | the first pass gives the record at the current index and the rest follow from the next index |
| Enhancement.AsPhrases | src/ytsum/enhancement.py:179 | a batch seen as plain phrases keeps each phrase's text, position by position |
| Enhancement.SameTexts | src/ytsum/enhancement.py:179 | the batch text is the same whether the phrases carry timestamps or not |
| Enhancement.FirstStep | src/ytsum/enhancement.py:178-182 | the first batch's text, with the carried sentence, is the same as the punctuation formatter's |
| Enhancement.StoreSucceeds | src/ytsum/enhancement.py:170-203 | storing succeeds exactly when the punctuation formatter's passes over the same batches and carry succeed |
| Enhancement.StoreRecords | src/ytsum/enhancement.py:170-203 | on success one record per batch is appended, holding the formatter's kept and raw texts at consecutive indices, and the count grows by the number of batches |
| Enhancement.ProcessStoresFrom | src/ytsum/enhancement.py:168-203 | on success the new records are appended after the old ones and are numbered from the last processed index on, one per remaining batch |
| Enhancement.RunStoresFromLastIndex | src/ytsum/enhancement.py:148-203 | a run that succeeds appends one record per batch from the repository's last index on, numbered consecutively from it |
| Paragraphs.JsonPayload | src/ytsum/transcription/formatter.py:189-196 | fails with "JSON start marker not found in the response text." exactly when the reply has no "```json" |
| Paragraphs.FenceAfter | src/ytsum/transcription/formatter.py:191 | a fence with no backtick before it is found where it was put |
| Paragraphs.NoFenceInside | src/ytsum/transcription/formatter.py:195 | the search for the closing fence, starting one character into the opening fence, cannot stop inside it |
| Paragraphs.ClosingFence | src/ytsum/transcription/formatter.py:195 | after an opening fence and a body without backticks, the closing fence found is the one after the body |
| Paragraphs.FencedPayload | src/ytsum/transcription/formatter.py:189-196 | for a reply of plain text, a fenced JSON body and anything after, the payload is the stripped body |
| Paragraphs.UnclosedPayload | src/ytsum/transcription/formatter.py:195-196 | with no closing fence, `find` returns -1 and the payload is the stripped body minus its last character |
| Paragraphs.Generate | src/ytsum/transcription/formatter.py:177-201 | succeeds exactly when the payload is found and decodes, and then gives the decoded paragraphs |
| Paragraphs.ContainsHallucination | src/ytsum/transcription/formatter.py:203-217 | a hallucination is reported exactly when some paragraph's start or end phrase does not occur in the batch text |
| Paragraphs.AllFrom | src/ytsum/transcription/formatter.py:226-228 | true exactly when the remaining words all occur in the phrases that follow and none runs off the batch; an out-of-range index is raised only when every word before it matched |
| Paragraphs.SearchFrom | src/ytsum/transcription/formatter.py:224-230 | the first candidate position from i on where the words fit; "Start phrase not found in the transcript." when none fits; an index error when an earlier matching candidate runs off the batch |
| Paragraphs.FindStartIndex | src/ytsum/transcription/formatter.py:219-230 | the least position where the start phrase's words fit, or one of the two failures, each justified |
| Paragraphs.FindsLeastFit | src/ytsum/transcription/formatter.py:219-230 | when the words fit at i and no earlier candidate runs off, a position at or before i is found |
| Paragraphs.FirstIncomplete | src/ytsum/transcription/formatter.py:149-158 | the first paragraph that is not complete, or none when all are |
| Paragraphs.Accepted | src/ytsum/transcription/formatter.py:149-158 | the longest prefix of complete paragraphs |
| Paragraphs.TruncTenth | src/ytsum/transcription/formatter.py:143 | `int(n / 10)`: a tenth rounded toward zero, for either sign |
| Paragraphs.Step | src/ytsum/transcription/formatter.py:126-175 | a failure to generate stops the loop with that error; a state that goes on never holds more than five hallucinations and keeps every paragraph accepted before, in place |
| Paragraphs.Drive | src/ytsum/transcription/formatter.py:126-175 | accepted paragraphs are only ever appended, and a loop still running has phrases left and at most five hallucinations |
| Paragraphs.Run | src/ytsum/transcription/formatter.py:118-126 | an empty transcript finishes at once with no paragraphs |
| Paragraphs.StepHallucinated | src/ytsum/transcription/formatter.py:137-145 | a hallucination with five already counted fails with "The language model has hallucinated too many times."; otherwise the count grows by one and the batch end moves back by a tenth of the batch size times the new count |
| Paragraphs.StepClean | src/ytsum/transcription/formatter.py:146-175 | a clean reply resets the count, appends the complete prefix and advances the end by a batch, capped at the transcript; the start moves to the old end when all are complete, and otherwise to where the first incomplete paragraph's start phrase is found, failing when it is not |
| Paragraphs.NoProgress | src/ytsum/transcription/formatter.py:164-173 | an incomplete paragraph found at position 0 leaves the start where it was |
| Paragraphs.MovesOn | src/ytsum/transcription/formatter.py:160-162 | when all paragraphs are complete, the start moves forward and all of them are accepted |
| Paragraphs.SixthHallucinationFails | src/ytsum/transcription/formatter.py:137-145 | hallucinations on every retry until the count is used up end the run with the too-many-hallucinations error |
| Topics.OpeningIsClosing | src/ytsum/transcription/topics.py:95-96 | wherever the opening fence "```json" occurs, the closing fence "```" occurs too |
| Topics.TaggedIffOpening | src/ytsum/transcription/topics.py:101 | a reply holds both fences exactly when it holds the opening one |
| Topics.FirstTagged | src/ytsum/transcription/topics.py:98-103 | the first of the five attempts whose reply holds both fences; none exactly when no attempt does |
| Topics.TopicsPayload | src/ytsum/transcription/topics.py:110-112 | the payload is never longer than the reply it is cut from |
| Topics.RFindIs | src/ytsum/transcription/topics.py:110-111 | `rfind` returns the last occurrence |
| Topics.NoFenceFrom | src/ytsum/transcription/topics.py:110-111 | text without backticks holds no fence |
| Topics.LastFenceIsOpening | src/ytsum/transcription/topics.py:110-111 | when nothing follows the opening fence but text without backticks, both searches from the right find the opening fence |
| Topics.UnclosedTopicsPayload | src/ytsum/transcription/topics.py:101-112 | a reply with only an opening fence passes the check, because "```json" contains "```", and its payload is empty |
| Topics.FencedTopicsPayload | src/ytsum/transcription/topics.py:110-112 | for a reply of text, a fenced JSON body and text without backticks, the payload is the stripped body |
| Topics.NotReopened | src/ytsum/transcription/topics.py:110 | a closing fence not followed by "json" is not an opening fence |
| Topics.OpeningNotAfter | src/ytsum/transcription/topics.py:110 | with no backticks after the opening fence but the closing one, which does not start another opening fence, no opening fence lies further right |
| Topics.GenerateTopics | src/ytsum/transcription/topics.py:95-116 | fails with "Start and end tags not found in response." when no attempt is tagged; otherwise the payload of the first tagged reply decides: it succeeds exactly when that payload decodes, with the decoded topics, and raises the validation error for that payload otherwise |
| Topics.ParasJoin | src/ytsum/transcription/topics.py:46-47 | a section text splits into at least one paragraph, no paragraph holds a blank line, and joined by blank lines they give back the stripped text |
| Topics.Sectioned | src/ytsum/transcription/topics.py:35-53 | the loop after the first topic succeeds exactly when every start sentence occurs in the text, failing with "Start sentence not found in the transcript text.", and makes one section draft (title and text) per topic under that topic's title |
| Topics.Run | src/ytsum/transcription/topics.py:29-53 | as written: succeeds exactly when the start sentences of all topics but the first occur; gives one section fewer than the topics, section k titled with topic k+1's title |
| Topics.Create | src/ytsum/transcription/topics.py:29-53 | the whole run, with the corrected sectioning: a failure to generate the topics is the run's failure, and a success gives one section per generated topic |
| Topics.Cut | src/ytsum/transcription/topics.py:35-53 | as intended: one section draft per topic, the first under the given title and each later one under its own topic's title, failing exactly when a start sentence is missing |
| Topics.RunIntended | src/ytsum/transcription/topics.py:29-53 | as intended: succeeds exactly when the start sentences of all topics but the first occur, failing with "Start sentence not found in the transcript text."; one section per topic under that topic's own title |
| Topics.CutSpan | src/ytsum/transcription/topics.py:42-51 | draft k holds the text from its start to where the next start sentence is found, the last one to the end of the text |
| Topics.IntendedSpans | src/ytsum/transcription/topics.py:42-51 | in the intended sectioning, section k holds the text from topic k's start to topic k+1's start, and the last runs to the end of the text |
| Topics.SectionedShifted | src/ytsum/transcription/topics.py:35-53 | the as-written loop gives the intended drafts' texts under the titles of the topics that follow them |
| Topics.RunShifted | src/ytsum/transcription/topics.py:35-53 | as written, the sections are the intended ones with each title shifted by one topic and the last section dropped |
| Topics.RunSpan | src/ytsum/transcription/topics.py:42-49 | section k is titled with topic k+1's title and holds the text between the two topics' start sentences |
| Topics.EarlySentenceEmpty | src/ytsum/transcription/topics.py:42-47 | when a start sentence is found no later than the previous one, its section is the single empty paragraph |
| Topics.SingleTopicLost | src/ytsum/transcription/topics.py:35-53 | with a single topic the run returns no sections at all, while the intended run returns the whole text under that topic |
| VideoDownload.Failed | src/ytsum/faas/azure/video_download.py:18-24 | a result has failed exactly when it has not succeeded, i.e. exactly when it carries an error message |
| VideoDownload.FindAll | src/ytsum/faas/azure/video_download.py:105-106 | exactly the uploaded paths ending with the extension, ignoring letter case |
| VideoDownload.FindAllSnoc | src/ytsum/faas/azure/video_download.py:105-106 | the filter keeps the order of the paths |
| VideoDownload.OneIffOnlyMatch | src/ytsum/faas/azure/video_download.py:105-111 | a single path matches exactly when some path matches and no other does |
| VideoDownload.FindSingle | src/ytsum/faas/azure/video_download.py:108-112 | a path is given exactly when one path matches, and then it is a matching uploaded path |
| VideoDownload.FindSingleIffOnly | src/ytsum/faas/azure/video_download.py:108-112 | a path is given exactly when only one path matches, and it is that path |
| VideoDownload.LowerTwice | src/ytsum/faas/azure/video_download.py:106 | lowering letter case twice is lowering it once |
| VideoDownload.ExtensionCaseIgnored | src/ytsum/faas/azure/video_download.py:106 | the extension's letter case does not change which paths match |
| VideoDownload.DownloadNeeded | src/ytsum/faas/azure/video_download.py:73-80 | no download is needed exactly when a video path is recorded and exists in storage |
| VideoDownload.LoadInfo | src/ytsum/faas/azure/video_download.py:114-122 | no info without a recorded path or when the file is not in storage; otherwise the loaded info, or the exception `load_model` raises for an invalid file |
| VideoDownload.Process | src/ytsum/faas/azure/video_download.py:82-103 | raises exactly when the stored info file fails to load; otherwise the uploaded paths are added to the artifacts, the video, audio and info paths are the single matches for ".mp4", ".m4a" and ".info.json", the subtitles are all ".vtt" matches, and a loaded info file sets both the title and the description, while without one both stay as they were |
| VideoDownload.FindOrCreate | src/ytsum/faas/azure/video_download.py:66-71 | a known video's metadata is returned with the repository unchanged; an unknown one gets fresh metadata, which is saved |
| VideoDownload.Run | src/ytsum/faas/azure/video_download.py:34-64 | a returned result names the video and carries its metadata, and the video is in the repository afterwards |
| VideoDownload.RunSkipsStoredVideo | src/ytsum/faas/azure/video_download.py:40-64 | a video already stored succeeds with its stored metadata and changes nothing |
| VideoDownload.RunDownloadFails | src/ytsum/faas/azure/video_download.py:43-53 | a failed download reports its exit code and "Failed to download YouTube files from <url>.", the returned metadata carries the URL, and the URL is not saved |
| VideoDownload.RunNoFiles | src/ytsum/faas/azure/video_download.py:55-58 | a download that leaves no files fails with "No files found after download." and saves nothing more |
| VideoDownload.RunProcesses | src/ytsum/faas/azure/video_download.py:43-103 | after a download with files, the metadata, with its URL set, is processed from the uploaded paths and saved; if the stored info file fails to load, the load's exception escapes and nothing more is saved |
| VideoDownload.RunFailsIff | src/ytsum/faas/azure/video_download.py:40-122 | the run returns a failed result exactly when a download is needed and either it fails or it leaves no files; it raises exactly when the download went through and the stored info file fails to load |

## Left out

- Pixel maths: SSIM, mean squared error, OpenCV decoding, colour conversion and image writing are floating-point numerics and foreign calls. A frame is a value of an opaque type, and "differs" is a predicate passed in.
- Frame rate and stride: fps and the float products that give the frame interval and the minimum scene length. Those are integer parameters, and frame times are whole milliseconds.
- Wall-clock time: `time()` and float seconds. `format_elapsed_time` takes whole milliseconds.
- `datetime.strptime`: an oracle from the time text to seconds, or to nothing when the text does not parse. Its format details (1 to 6 fraction digits, hours up to 23) are not modelled.
- `Path(a) != Path(b)` in the evaluator: an oracle on the two strings, because path normalisation is an OS matter.
- WebVTT reading: `webvtt.read` and the library's cue-tag test. A caption is its start string and raw text, and "has cue tags" is a predicate passed in. The file-exists check is a boolean parameter.
- Language model clients and prompts: every LLM reply is an oracle function of what the prompt is built from. The prompt texts themselves are left out.
- Pydantic JSON decoding: an oracle from the payload text to the decoded value, or nothing when validation fails. Loading the yt-dlp info file is an oracle that gives the info or the validation error, which the run lets escape.
- Blob storage and file I/O: the store is a map from path to saved value. `exists` is a predicate. Uploads and the downloader are oracles.
- The download processor's `repo.start()`/`repo.shutdown()` and its temporary directory are left out: they have no effect on the result.
- `ytsum.repositories.video` is not part of this model. The fields of `VideoMetadata` are assumed from their use in `video_download.py`, and the repository is a map from video id to metadata.
- `ytsum.utils.batched`: `enhancement.py` imports it from `ytsum.utils`, but `src/ytsum/utils.py` defines only `convert_timestamp_to_ms`, so the import as written has nothing to bind. The model takes `batched` to return a sized list (the code calls `len()` on its result) of consecutive batches of n, the last possibly shorter. `Enhancement.Run` therefore requires a positive batch size.
- `Text.Lower`: letter case is folded on ASCII letters only, with no Unicode case mapping.
- `Text.ParseInt`: accepts the ASCII digits 0-9 only. Python's `int()` accepts every Unicode decimal digit (`int("١٢")` is 12), so such text fails in the model where it parses in the source. `Timestamps.ConvertFields` and `Segmentation.IntOrZero` inherit this: the latter gives 0 for such text.
- `Captions.MatchAt`: the pattern's `\d` matches the ASCII digits only. Python's `re` matches any Unicode decimal digit with `\d` in a str pattern, so a cue tag written with other digits is no match here.
- `Evaluation.MetricBounds`: accuracy, precision, recall and F1 are exact reals. The source computes them in floating point, so its values can differ from the model's by rounding.
- Printing, progress messages and JSON/gzip output files are left out.
- Orchestration, CLI scripts and tests (Durable Functions, `youtube.py`, `config.py`, the `tools/` entry points other than the evaluation code) are outside the core.
- `Paragraphs.Run`: the formatter's loop need not terminate, because the start index can fail to advance (`Paragraphs.NoProgress`). `Run` and `Drive` therefore take a fuel bound and report `Pending` when it runs out. Their contracts state only what holds at every step, not an end result. In the source `run` returns None; the model returns the accepted paragraphs.
- `Paragraphs.Drive`: for the same reason, only the invariants of the loop are stated.
- `Punctuation.Format`: with a batch size of 0 or less on a non-empty transcript, the index loop never exits (`Batching.NeverAdvances`). The source then raises the fixer's ValueError in the first pass whose replies lack the tags. When every pass succeeds it runs forever, and the model reports that case as the error `NeverTerminates` rather than diverging. Telling the two cases apart quantifies over all passes, so `Format` is a ghost function.
- `Topics.FencedTopicsPayload`: requires that the text after the closing fence does not start with "json". Otherwise the closing fence is itself an opening fence, and the search from the right finds it.
- `Paragraphs.TruncTenth`: `int(batch_size / 10)` goes through a float. The model truncates the exact tenth, which agrees for every batch size of magnitude below 2^52.
- `Enhancement.Run`: `enhancement.py` reads `frame.phrases`, but the `Frame` of `models.py` has no such field. A frame is therefore modelled as its list of phrases.
- `Transcript.ReadAll`: `models.py` stores a phrase's start as a `starts_at` string, while the parsers and the segmenter use `start_time_ms`. A phrase is modelled as text plus milliseconds, with `starts_at_ms` as the conversion.
- `Repositories.Load`: the model loads the stored indices in ascending order. CPython iterates a set in hash-table slot order, which is ascending for the indices 0, 1, …, n-1 that `FrameContentEnhancer` stores, but may differ for other index sets (`{1, 8}` iterates 8 first). A stored file of the wrong kind fails with a message of the model's own; pydantic's error text is not modelled.
- `Segmentation.ParseResponse`: requires a non-empty chunk, because the source reads the chunk's last phrase. Chunking never produces an empty chunk (`Segmentation.SplitIntoChunks`).

## Findings

| source | as written | input that shows it | evidently intended | confidence | as-written member | corrected member |
|---|---|---|---|---|---|---|
| src/ytsum/transcription/topics.py:35-53 | the first topic only sets the start to 0. Each later topic k closes the text from the previous start sentence to its own start sentence under topic k's title. Nothing is emitted after the last start sentence. | topics `[A]` on any text: no sections at all. Topics `[A, B]`: one section, titled B, holding A's text; B's text is dropped. | one section per topic, under its own title, holding the text from its start sentence to the next topic's, the last running to the end of the text | not executed; high for the dropped tail, medium for the titles | Topics.Run (Topics.SingleTopicLost, Topics.RunShifted) | Topics.RunIntended (Topics.IntendedSpans), used by Topics.Create |
