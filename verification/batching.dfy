/** Cutting a list into consecutive batches, as the punctuation formatter
    (src/ytsum/transcription/formatter_v2.py) does with its start/end index
    loop and the frame content enhancer (src/ytsum/enhancement.py) does
    with `batched(iterable, n)`.
 */
module Batching {
  import opened Text

  /** The batches laid end to end. */
  function Flatten<T>(cs: seq<seq<T>>): seq<T> {
    if |cs| == 0 then [] else cs[0] + Flatten(cs[1..])
  }

  lemma {:induction false} FlattenEmpty<T>(cs: seq<seq<T>>)
    requires forall k :: 0 <= k < |cs| ==> |cs[k]| > 0
    ensures |Flatten(cs)| == 0 <==> |cs| == 0
  {
    if |cs| > 0 {
      assert |Flatten(cs)| >= |cs[0]|;
    }
  }

  /** `batched(xs, n)`: consecutive batches of n elements, the last one
      possibly shorter. */
  function Batched<T>(xs: seq<T>, n: nat): seq<seq<T>>
    requires n > 0
    decreases |xs|
  {
    if |xs| == 0 then []
    else if |xs| <= n then [xs]
    else [xs[..n]] + Batched(xs[n..], n)
  }

  /** The batches cover the list exactly once and in order; none is empty,
      each holds at most n elements, and all but the last hold exactly n. */
  lemma {:induction false} BatchedCover<T>(xs: seq<T>, n: nat)
    requires n > 0
    ensures Flatten(Batched(xs, n)) == xs
    ensures forall k :: 0 <= k < |Batched(xs, n)| ==> 0 < |Batched(xs, n)[k]| <= n
    ensures forall k :: 0 <= k < |Batched(xs, n)| - 1 ==> |Batched(xs, n)[k]| == n
    decreases |xs|
  {
    var bs := Batched(xs, n);
    if |xs| == 0 {
    } else if |xs| <= n {
      assert Flatten(bs) == xs + Flatten([]);
    } else {
      BatchedCover(xs[n..], n);
      var rest := Batched(xs[n..], n);
      assert bs == [xs[..n]] + rest;
      assert bs[1..] == rest;
      assert xs[..n] + xs[n..] == xs;
      forall k | 0 <= k < |bs|
        ensures 0 < |bs[k]| <= n
        ensures k < |bs| - 1 ==> |bs[k]| == n
      {
        if k > 0 { assert bs[k] == rest[k - 1]; }
      }
    }
  }

  /** Batch k is the window of elements k·n up to (k+1)·n, clipped to the
      list. */
  lemma {:induction false} BatchedWindows<T>(xs: seq<T>, n: nat, k: nat)
    requires n > 0 && k < |Batched(xs, n)|
    ensures k * n < |xs|
    ensures Batched(xs, n)[k] == xs[k * n .. if (k + 1) * n <= |xs| then (k + 1) * n else |xs|]
    decreases |xs|
  {
    if |xs| > n && k > 0 {
      BatchedWindows(xs[n..], n, k - 1);
      assert (k - 1) * n + n == k * n;
      assert k * n + n == (k + 1) * n;
    }
  }

  /** The index loop of `TranscriptFormatter.run` from a batch start to an
      exclusive batch end: take `xs[start:end]`, then move start to the old
      end and end to `min(end + n, len(xs))`, until start reaches the end of
      the list. */
  function LoopBatches<T>(xs: seq<T>, start: nat, end: nat, n: nat): seq<seq<T>>
    requires n > 0
    requires start < end || start >= |xs|
    decreases |xs| - start
  {
    if start >= |xs| then []
    else
      var next := if end + n <= |xs| then end + n else |xs|;
      [Slice(xs, start, end)] + LoopBatches(xs, end, next, n)
  }

  /** With a positive batch size, the index loop yields exactly the batches
      of `batched`. */
  lemma {:induction false} LoopIsBatched<T>(xs: seq<T>, start: nat, end: nat, n: nat)
    requires n > 0 && start <= |xs|
    requires end == start + n || (end == |xs| && start < end <= start + n)
    ensures LoopBatches(xs, start, end, n) == Batched(xs[start..], n)
    decreases |xs| - start
  {
    if start < |xs| {
      var next := if end + n <= |xs| then end + n else |xs|;
      var rest := xs[start..];
      if |rest| <= n {
        assert Slice(xs, start, end) == rest;
        assert LoopBatches(xs, end, next, n) == [];
      } else {
        assert end == start + n;
        assert Slice(xs, start, end) == rest[..n];
        LoopIsBatched(xs, end, next, n);
        assert xs[end..] == rest[n..];
      }
    }
  }

  /** The batches of `TranscriptFormatter.run` for a positive batch size. */
  function Windows<T>(xs: seq<T>, n: nat): (bs: seq<seq<T>>)
    requires n > 0
    ensures bs == Batched(xs, n)
  {
    LoopIsBatched(xs, 0, n, n);
    assert xs[0..] == xs;
    LoopBatches(xs, 0, n, n)
  }

  /** The loop's indices after one pass, with any batch size. */
  function Advance(start: int, end: int, n: int, len: nat): (int, int) {
    (end, if end + n <= len then end + n else len)
  }

  /** The indices after `k` passes from the loop's first state (0, n). */
  function AfterPasses(k: nat, n: int, len: nat): (int, int) {
    if k == 0 then (0, n)
    else
      var p := AfterPasses(k - 1, n, len);
      Advance(p.0, p.1, n, len)
  }

  /** With a batch size of 0 or less the start index never becomes
      positive, so on a non-empty list the loop condition `start < len`
      stays true forever. */
  lemma {:induction false} NeverAdvances(k: nat, n: int, len: nat)
    requires n <= 0
    ensures AfterPasses(k, n, len).0 <= 0 && AfterPasses(k, n, len).1 <= 0
  {
    if k > 0 {
      NeverAdvances(k - 1, n, len);
    }
  }

  /** With a batch size of 0 or less, from the second pass on the end
      index lies `n` below the start index, both at or below `n`. */
  lemma {:induction false} StuckWindows(k: nat, n: int, len: nat)
    requires n <= 0 && k >= 1
    ensures AfterPasses(k, n, len).0 <= n
    ensures AfterPasses(k, n, len).1 == AfterPasses(k, n, len).0 + n
  {
    if k > 1 {
      StuckWindows(k - 1, n, len);
    }
  }

  /** So every pass after the first takes an empty batch: the first pass
      takes `xs[0:n]`, which for a negative n is all of `xs` but its last
      |n| elements, and then the loop punctuates nothing new. */
  lemma StuckBatchEmpty<T>(xs: seq<T>, k: nat, n: int)
    requires n <= 0 && k >= 1
    ensures Slice(xs, AfterPasses(k, n, |xs|).0, AfterPasses(k, n, |xs|).1) == []
  {
    StuckWindows(k, n, |xs|);
  }
}
