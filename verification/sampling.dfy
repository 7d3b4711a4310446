/** The sampling rule shared by the two frame loops
    (src/ytsum/video.py and src/ytsum/scene_detection/ssim.py): frames are
    counted from 1 and only those whose count is a multiple of the frame
    interval are looked at. `frame_count % frame_interval` raises for an
    interval of 0, and divisibility does not depend on the interval's sign.
 */
module Sampling {

  /** Whether the frame with 1-based count k is sampled. */
  predicate Sampled(k: nat, interval: int)
    requires interval != 0
  {
    k % interval == 0
  }

  /** The sampled frames, in order. */
  function Samples<F>(fs: seq<F>, interval: int): (r: seq<F>)
    requires interval != 0
    ensures |r| <= |fs|
  {
    if |fs| == 0 then []
    else
      var n := |fs| - 1;
      Samples(fs[..n], interval) + (if Sampled(|fs|, interval) then [fs[n]] else [])
  }

  lemma MulBound(d: int, k: int)
    requires d > 0
    ensures k >= 1 ==> d * k >= d
    ensures k <= -1 ==> d * k <= -d
  {
    if k >= 1 {
      assert d * k == d + d * (k - 1);
    } else if k <= -1 {
      assert d * k == -d + d * (k + 1);
    }
  }

  /** Euclidean division is unique: c·d + r with 0 <= r < d leaves r. */
  lemma ModOf(c: int, d: int, r: int)
    requires d > 0 && 0 <= r < d
    ensures (c * d + r) % d == r
  {
    var x := c * d + r;
    var k := x / d - c;
    assert d * k == r - x % d by {
      assert x == d * (x / d) + x % d;
      assert d * k == d * (x / d) - d * c;
    }
    MulBound(d, k);
  }

  /** c·d written as repeated addition, so that the induction over the
      frames below stays in linear arithmetic (MultIs relates it to `*`). */
  function Mult(c: nat, d: nat): nat {
    if c == 0 then 0 else Mult(c - 1, d) + d
  }

  lemma {:induction false} MultIs(c: nat, d: nat)
    ensures Mult(c, d) == c * d
  {
    if c > 0 {
      MultIs(c - 1, d);
      assert c * d == (c - 1) * d + d;
    }
  }

  /** A count strictly between two consecutive multiples of d is not a
      multiple of d; the upper one is. */
  lemma BetweenMultiples(n: nat, c: nat, d: nat)
    requires d > 0 && Mult(c, d) <= n < Mult(c + 1, d)
    ensures (n + 1) % d == 0 <==> n + 1 == Mult(c + 1, d)
  {
    MultIs(c, d);
    MultIs(c + 1, d);
    if n + 1 == Mult(c + 1, d) {
      ModOf(c + 1, d, 0);
    } else {
      ModOf(c, d, n + 1 - c * d);
    }
  }

  /** The k-th of the samples `s` of `fs` is frame number (k+1)·d. */
  ghost predicate SampleAt<F>(fs: seq<F>, d: nat, s: seq<F>, k: int)
    requires 0 <= k < |s|
  {
    0 < Mult(k + 1, d) <= |fs| && s[k] == fs[Mult(k + 1, d) - 1]
  }

  /** With a positive interval d the samples are the frames counted d, 2d,
      3d, ...: after n frames there are c of them with c·d <= n < (c+1)·d,
      and the k-th is frame (k+1)·d (products written as Mult, which
      MultIs shows to be the product). */
  lemma {:induction false} SamplesAre<F>(fs: seq<F>, d: nat)
    requires d > 0
    ensures Mult(|Samples(fs, d)|, d) <= |fs| < Mult(|Samples(fs, d)| + 1, d)
    ensures forall k :: 0 <= k < |Samples(fs, d)| ==> SampleAt(fs, d, Samples(fs, d), k)
  {
    if |fs| > 0 {
      var n := |fs| - 1;
      SamplesAre(fs[..n], d);
      var prev, s := Samples(fs[..n], d), Samples(fs, d);
      BetweenMultiples(n, |prev|, d);
      if |fs| == Mult(|prev| + 1, d) {
        assert s == prev + [fs[n]];
        StepSamples(fs, fs[..n], d, prev, s);
      } else {
        assert s == prev;
        StepSkips(fs, fs[..n], d, prev);
      }
    }
  }

  /** The induction step of SamplesAre when the last frame is not sampled:
      the samples `prev` of all frames but the last stay as they are. */
  lemma StepSkips<F>(fs: seq<F>, pre: seq<F>, d: nat, prev: seq<F>)
    requires d > 0 && |fs| > 0 && pre == fs[..|fs| - 1]
    requires forall k :: 0 <= k < |prev| ==> SampleAt(pre, d, prev, k)
    ensures forall k :: 0 <= k < |prev| ==> SampleAt(fs, d, prev, k)
  {
    forall k | 0 <= k < |prev|
      ensures SampleAt(fs, d, prev, k)
    {
      assert SampleAt(pre, d, prev, k);
    }
  }

  /** The induction step of SamplesAre when the last frame is sampled: it
      becomes sample number |prev|. */
  lemma StepSamples<F>(fs: seq<F>, pre: seq<F>, d: nat, prev: seq<F>, s: seq<F>)
    requires d > 0 && |fs| > 0 && pre == fs[..|fs| - 1] && s == prev + [fs[|fs| - 1]]
    requires |fs| == Mult(|prev| + 1, d)
    requires forall k :: 0 <= k < |prev| ==> SampleAt(pre, d, prev, k)
    ensures |fs| < Mult(|prev| + 2, d)
    ensures forall k :: 0 <= k < |s| ==> SampleAt(fs, d, s, k)
  {
    assert Mult(|prev| + 2, d) == Mult(|prev| + 1, d) + d;
    StepSkips(fs, pre, d, prev);
    forall k | 0 <= k < |s|
      ensures SampleAt(fs, d, s, k)
    {
      if k < |prev| {
        assert SampleAt(fs, d, prev, k);
        assert s[k] == prev[k];
      }
    }
  }

  /** Some frame is sampled exactly when the video has at least `d` frames. */
  lemma SomeSample<F>(fs: seq<F>, d: nat)
    requires d > 0
    ensures |Samples(fs, d)| > 0 <==> |fs| >= d
  {
    SamplesAre(fs, d);
    var c := |Samples(fs, d)|;
    if c == 0 {
      assert Mult(1, d) == d;
    } else {
      assert Mult(c, d) == Mult(c - 1, d) + d;
    }
  }

  /** The count of the latest sampled frame among the first n (0 if none). */
  function LastSample(n: nat, d: nat): (c: nat)
    requires d > 0
    ensures c <= n && c % d == 0
    ensures c > 0 <==> n >= d
  {
    var r := n % d;
    ModOf(n / d, d, 0);
    if n < d then (ModOf(0, d, n); 0) else (MulBound(d, n / d); n - r)
  }

  /** Reading one more frame: if it is sampled it becomes the latest sample,
      otherwise the latest sample stays; and a sampled frame past the first
      sample has its predecessor sample exactly d frames earlier. */
  lemma LastSampleStep(n: nat, d: nat)
    requires d > 0
    ensures (n + 1) % d == 0 ==> LastSample(n + 1, d) == n + 1
    ensures (n + 1) % d == 0 && n + 1 > d ==> LastSample(n, d) == n + 1 - d
    ensures (n + 1) % d != 0 ==> LastSample(n + 1, d) == LastSample(n, d)
  {
    ModNext(n, d);
    RoundedDown(n, d);
    RoundedDown(n + 1, d);
  }

  /** The last sample is n rounded down to a multiple of d. */
  lemma RoundedDown(n: nat, d: nat)
    requires d > 0
    ensures LastSample(n, d) == n - n % d
  {
    if n < d {
      ModOf(0, d, n);
    }
  }

  /** The remainder of n + 1 is one more than that of n, or 0 when that
      would reach d. */
  lemma ModNext(n: nat, d: nat)
    requires d > 0
    ensures (n + 1) % d == if n % d + 1 == d then 0 else n % d + 1
  {
    var c, r := n / d, n % d;
    assert n == c * d + r;
    if r + 1 == d {
      assert n + 1 == (c + 1) * d + 0 by {
        assert (c + 1) * d == c * d + d;
      }
      ModOf(c + 1, d, 0);
    } else {
      ModOf(c, d, r + 1);
    }
  }

}
