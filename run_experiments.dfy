/**
 * The experiment driver: argument clamping, the checkpoint fractions, the per-trial seeds, and
 * the trial loop that feeds a stream to a sketch chunk by chunk and records, at every
 * checkpoint, the exact distinct count beside the sketch's estimate. Doubles are exact reals
 * here; the streams themselves come from the random generator and are taken as given.
 */
module Experiments {
  import opened Bytes
  import Hashing
  import Hll
  import Exact
  import StreamGen

  // ---------------------------------------------------------------------------------------
  // Arguments

  /** `p` is a prefix of `s`: `s` is at least as long and agrees with `p` on its first |p| characters. */
  function StartsWith(s: string, p: string): (r: bool)
    ensures r <==> p <= s
  {
    |s| >= |p| && s[..|p|] == p
  }

  /** A string starts with `p` exactly when it is `p` followed by something. */
  lemma StartsWithIsSplit(s: string, p: string)
    ensures StartsWith(s, p) <==> exists t :: s == p + t
  {
    if StartsWith(s, p) {
      assert s == p + s[|p|..];
    }
  }

  /** The command-line settings of a run. */
  datatype Args = Args(
    seed: bv64,
    streams: nat,
    n: nat,
    step: real,
    b: int,
    mode: string,
    outDir: string)

  /** The settings when no option is given. */
  function DefaultArgs(): Args {
    Args(123, 20, 200000, 0.05, 14, "mixed", "data/runs")
  }

  /** The checkpoint step after clamping: a step <= 0 becomes 0.05, one above 1 becomes 1. */
  function ClampStep(step: real): (r: real)
    ensures 0.0 < r <= 1.0
    ensures step <= 0.0 ==> r == 0.05
    ensures step > 1.0 ==> r == 1.0
    ensures 0.0 < step <= 1.0 ==> r == step
  {
    var s := if step <= 0.0 then 0.05 else step;
    if s > 1.0 then 1.0 else s
  }

  /** The precision after clamping into [4, 18]. */
  function ClampPrecision(b: int): (r: int)
    ensures 4 <= r <= 18
    ensures b < 4 ==> r == 4
    ensures b > 18 ==> r == 18
    ensures 4 <= b <= 18 ==> r == b
  {
    var c := if b < 4 then 4 else b;
    if c > 18 then 18 else c
  }

  /** The clamping at the end of argument parsing; every other setting is left as parsed. */
  method ClampArgs(a: Args) returns (c: Args)
    ensures c == a.(step := ClampStep(a.step), b := ClampPrecision(a.b))
  {
    c := a;
    if c.step <= 0.0 {
      c := c.(step := 0.05);
    }
    if c.step > 1.0 {
      c := c.(step := 1.0);
    }
    if c.b < 4 {
      c := c.(b := 4);
    }
    if c.b > 18 {
      c := c.(b := 18);
    }
  }

  /** Clamping gives a usable step and precision, and clamping again changes nothing. */
  lemma ClampSettles(a: Args)
    ensures var c := a.(step := ClampStep(a.step), b := ClampPrecision(a.b));
      0.0 < c.step <= 1.0 && Hll.ValidPrecision(c.b as uint8) &&
      c.(step := ClampStep(c.step), b := ClampPrecision(c.b)) == c
  {}

  /** The defaults are already inside the clamped ranges. */
  lemma DefaultsUnclamped()
    ensures DefaultArgs().(step := ClampStep(DefaultArgs().step), b := ClampPrecision(DefaultArgs().b)) == DefaultArgs()
  {}

  // ---------------------------------------------------------------------------------------
  // Checkpoint fractions

  /** The tolerance `1e-12` around 1.0. */
  const Eps: real := StreamGen.Eps

  function Abs(x: real): (r: real)
    ensures r >= 0.0 && (r == x || r == -x)
  {
    if x < 0.0 then -x else x
  }

  /** Strictly increasing fractions. */
  predicate IncreasingFractions(f: seq<real>) {
    forall i, j :: 0 <= i < j < |f| ==> f[i] < f[j]
  }

  /** Every fraction lies in (0, 1]. */
  predicate InUnitInterval(f: seq<real>) {
    forall i :: 0 <= i < |f| ==> 0.0 < f[i] <= 1.0
  }

  /** Appending a value above the last keeps fractions increasing. */
  lemma PushIncreasing(f: seq<real>, x: real)
    requires IncreasingFractions(f)
    requires f != [] ==> f[|f| - 1] < x
    ensures IncreasingFractions(f + [x])
  {
    forall i, j | 0 <= i < j < |f| + 1
      ensures (f + [x])[i] < (f + [x])[j]
    {
      if j < |f| {
        assert (f + [x])[i] == f[i] && (f + [x])[j] == f[j];
      } else {
        assert f[i] <= f[|f| - 1];
      }
    }
  }

  /** `i` steps of size `step`, added one at a time as the fractions loop does. */
  function Steps(i: nat, step: real): real {
    if i == 0 then 0.0 else Steps(i - 1, step) + step
  }

  /** Adding the step i times is multiplying it by i. */
  lemma {:induction false} StepsIsProduct(i: nat, step: real)
    ensures Steps(i, step) == i as real * step
  {
    if i > 0 {
      StepsIsProduct(i - 1, step);
    }
  }

  /** With a positive step, more steps reach further. */
  lemma {:induction false} StepsIncrease(i: nat, j: nat, step: real)
    requires step > 0.0 && i < j
    ensures Steps(i, step) < Steps(j, step)
  {
    if i < j - 1 {
      StepsIncrease(i, j - 1, step);
    }
  }

  /** One more step keeps the measure of the fractions loop ahead of the target. */
  lemma StepCovers(cur: real, step: real, left: nat, target: real)
    requires step > 0.0 && cur < target
    requires target <= cur + Steps(left, step)
    ensures left >= 1 && target <= (cur + step) + Steps(left - 1, step)
  {}

  /** The fractions so far are step, 2 step, ..., each below 1. */
  ghost predicate StepPrefix(f: seq<real>, step: real) {
    forall i :: 0 <= i < |f| ==> f[i] == Steps(i + 1, step) && 0.0 < f[i] < 1.0
  }

  /** The next multiple of the step, if below 1, extends the prefix. */
  lemma StepPrefixSnoc(f: seq<real>, step: real)
    requires StepPrefix(f, step)
    requires 0.0 < Steps(|f| + 1, step) < 1.0
    ensures StepPrefix(f + [Steps(|f| + 1, step)], step)
  {}

  /** A prefix of multiples of a positive step is increasing and inside (0, 1]. */
  lemma StepPrefixIncreasing(f: seq<real>, step: real)
    requires step > 0.0 && StepPrefix(f, step)
    ensures IncreasingFractions(f) && InUnitInterval(f)
  {
    forall i, j | 0 <= i < j < |f|
      ensures f[i] < f[j]
    {
      StepsIncrease(i + 1, j + 1, step);
    }
  }

  /** Closing a prefix of multiples with 1.0 keeps it increasing and inside (0, 1]. */
  lemma StepPrefixThenOne(f: seq<real>, step: real)
    requires step > 0.0 && StepPrefix(f, step)
    ensures IncreasingFractions(f + [1.0]) && InUnitInterval(f + [1.0])
    ensures forall i :: 0 <= i < |f| ==> (f + [1.0])[i] == Steps(i + 1, step)
  {
    StepPrefixIncreasing(f, step);
    PushIncreasing(f, 1.0);
  }

  /** Steps are ordered as their counts are. */
  lemma StepsOrder(i: nat, j: nat, step: real)
    requires step > 0.0
    ensures Steps(i, step) < Steps(j, step) <==> i < j
  {
    if i < j {
      StepsIncrease(i, j, step);
    } else if j < i {
      StepsIncrease(j, i, step);
    }
  }

  /**
   * Some multiple of the step lies within 1e-12 below 1.0 and the next one is 1e-12 or more past
   * it: the fractions loop then stops with no fraction pulled back to 1.0, and 1.0 is not appended.
   */
  ghost predicate EndsShort(step: real) {
    exists i: nat :: 1 <= i && 1.0 - Eps <= Steps(i, step) < 1.0 && 1.0 + Eps <= Steps(i + 1, step)
  }

  /**
   * The list of checkpoint fractions for a step, described without the loop: increasing inside
   * (0, 1]; every multiple of the step below 1.0 appears, in place; every element but the last is
   * such a multiple; the last is 1.0, or, exactly when the step ends short, the last multiple.
   */
  ghost predicate FractionsOf(f: seq<real>, step: real) {
    && f != [] && IncreasingFractions(f) && InUnitInterval(f)
    && (forall i :: 0 <= i < |f| - 1 ==> f[i] == Steps(i + 1, step))
    && (forall i: nat :: 1 <= i && Steps(i, step) < 1.0 ==> i <= |f| && f[i - 1] == Steps(i, step))
    && (f[|f| - 1] == 1.0 || f[|f| - 1] == Steps(|f|, step))
    && (f[|f| - 1] < 1.0 <==> EndsShort(step))
  }

  /** Every fraction before the last lies below 1.0. */
  lemma FractionsBelowOne(f: seq<real>, step: real, i: nat)
    requires FractionsOf(f, step) && i < |f| - 1
    ensures f[i] < 1.0
  {
    assert f[i] < f[|f| - 1];
  }

  /** The description determines the list: a step has one list of checkpoint fractions. */
  lemma FractionsUnique(f: seq<real>, g: seq<real>, step: real)
    requires step > 0.0 && FractionsOf(f, step) && FractionsOf(g, step)
    ensures f == g
  {
    FractionsLength(f, g, step);
    FractionsLength(g, f, step);
    if f[|f| - 1] < 1.0 {
      assert g[|g| - 1] < 1.0;
    }
    forall i | 0 <= i < |f|
      ensures f[i] == g[i]
    {
    }
  }

  /** One list of checkpoint fractions is no longer than another. */
  lemma FractionsLength(f: seq<real>, g: seq<real>, step: real)
    requires step > 0.0 && FractionsOf(f, step) && FractionsOf(g, step)
    ensures |g| <= |f|
  {
    if EndsShort(step) {
      // Both end on their last multiple, which is below 1.0 and so within f.
      assert Steps(|g|, step) < 1.0;
    } else if |g| >= 2 {
      // Both end on 1.0; g's second-to-last multiple is below 1.0, so f holds it before its 1.0.
      FractionsBelowOne(g, step, |g| - 2);
      assert Steps(|g| - 1, step) < 1.0;
      assert f[|g| - 2] < 1.0 == f[|f| - 1];
    }
  }

  /** No multiple below 1.0 is followed by one 1e-12 or more past 1.0 when `bound` caps the multiples after it. */
  lemma NotEndsShort(step: real, bound: nat)
    requires step > 0.0 && Steps(bound, step) < 1.0 + Eps
    requires forall i: nat :: 1 <= i && Steps(i, step) < 1.0 ==> i < bound
    ensures !EndsShort(step)
  {
    forall i: nat | 1 <= i && Steps(i, step) < 1.0
      ensures Steps(i + 1, step) < 1.0 + Eps
    {
      StepsOrder(bound, i + 1, step);
    }
  }

  /** The loop stops at a fraction pulled back to 1.0: the list it returns is the described one. */
  lemma FractionsAtBreak(f: seq<real>, step: real)
    requires step > 0.0 && StepPrefix(f, step)
    requires 1.0 <= Steps(|f| + 1, step) < 1.0 + Eps
    ensures FractionsOf(f + [1.0], step)
  {
    StepPrefixThenOne(f, step);
    var g := f + [1.0];
    forall i: nat | 1 <= i && Steps(i, step) < 1.0
      ensures i < |f| + 1 && g[i - 1] == Steps(i, step)
    {
      StepsOrder(i, |f| + 1, step);
    }
    NotEndsShort(step, |f| + 1);
  }

  /** The loop runs past 1 + 1e-12: the list, with 1.0 appended unless the last is within 1e-12 of it, is the described one. */
  lemma FractionsAtExit(f: seq<real>, step: real)
    requires step > 0.0 && StepPrefix(f, step)
    requires 1.0 + Eps <= Steps(|f| + 1, step)
    ensures var g := if f == [] || Abs(f[|f| - 1] - 1.0) > Eps then f + [1.0] else f;
      FractionsOf(g, step)
  {
    StepPrefixIncreasing(f, step);
    StepPrefixThenOne(f, step);
    var g := if f == [] || Abs(f[|f| - 1] - 1.0) > Eps then f + [1.0] else f;
    forall i: nat | 1 <= i && Steps(i, step) < 1.0
      ensures i <= |f| && g[i - 1] == Steps(i, step)
    {
      StepsOrder(i, |f| + 1, step);
    }
    if g == f {
      assert EndsShort(step) by {
        assert 1 <= |f| && 1.0 - Eps <= Steps(|f|, step) < 1.0 && 1.0 + Eps <= Steps(|f| + 1, step);
      }
    } else {
      // Only the last multiple could end short, and it lies more than 1e-12 below 1.0.
      forall i: nat | 1 <= i && Steps(i, step) < 1.0
        ensures !(1.0 - Eps <= Steps(i, step) && 1.0 + Eps <= Steps(i + 1, step))
      {
        StepsOrder(i, |f| + 1, step);
        if i < |f| {
          StepsOrder(|f|, i + 1, step);
        }
      }
    }
  }

  /**
   * The checkpoint fractions: step, 2 step, 3 step, ... while below 1 + 1e-12, the first one
   * above 1.0 pulled back to 1.0 and ending the list, and 1.0 appended unless the last one is
   * already within 1e-12 of it.
   */
  method Fractions(step: real) returns (f: seq<real>)
    requires step > 0.0
    ensures f != [] && IncreasingFractions(f) && InUnitInterval(f)
    ensures 1.0 - Eps <= f[|f| - 1] <= 1.0
    ensures forall i :: 0 <= i < |f| - 1 ==> f[i] == Steps(i + 1, step)
    ensures f[|f| - 1] == 1.0 || f[|f| - 1] == Steps(|f|, step)
    ensures FractionsOf(f, step)
  {
    f := [];
    var cur := step;
    StreamGen.StepsToCover(1.0 + Eps - cur, step);
    ghost var left: nat := ((1.0 + Eps - cur) / step).Floor + 1;
    StepsIsProduct(left, step);
    while cur < 1.0 + Eps
      invariant cur == Steps(|f| + 1, step) && cur > 0.0
      invariant 1.0 + Eps <= cur + Steps(left, step)
      invariant StepPrefix(f, step)
      decreases left
    {
      ghost var before := f;
      if cur > 1.0 {
        cur := 1.0;
      }
      f := f + [cur];
      if cur >= 1.0 {
        FractionsAtBreak(before, step);
        return;
      }
      StepPrefixSnoc(before, step);
      StepCovers(cur, step, left, 1.0 + Eps);
      cur := cur + step;
      left := left - 1;
    }
    FractionsAtExit(f, step);
    if f == [] || Abs(f[|f| - 1] - 1.0) > Eps {
      f := f + [1.0];
    }
  }

  /**
   * The last fraction can fall just short of 1.0. With step 1/3 - 1e-13 the loop pushes three
   * multiples below 1; the fourth is beyond 1 + 1e-12, so the loop stops; the third lies within
   * 1e-12 of 1.0, so 1.0 is not appended. The list is those three multiples, and its last
   * checkpoint of a 200000-key stream covers only 199999 keys.
   */
  lemma ShortLastFraction(f: seq<real>)
    requires FractionsOf(f, 1.0 / 3.0 - 0.0000000000001)
    ensures var step := 1.0 / 3.0 - 0.0000000000001;
      Steps(1, step) < Steps(2, step) < Steps(3, step) < 1.0 &&
      Steps(4, step) >= 1.0 + Eps &&
      Abs(Steps(3, step) - 1.0) <= Eps &&
      CheckpointKeys(Steps(3, step), 200000) == 199999
    ensures f == [1.0 / 3.0 - 0.0000000000001, 2.0 / 3.0 - 0.0000000000002, 1.0 - 0.0000000000003]
    ensures CheckpointKeys(f[|f| - 1], 200000) == 199999
  {
    var step := 1.0 / 3.0 - 0.0000000000001;
    assert Steps(3, step) == 1.0 - 0.0000000000003;
    StreamGen.PrefixLengthIsFloor(Steps(3, step), 200000);
    assert EndsShort(step) by {
      assert 1.0 - Eps <= Steps(3, step) < 1.0 && 1.0 + Eps <= Steps(3 + 1, step);
    }
    // The last element is a multiple below 1.0, so it is at most the third.
    StepsOrder(|f|, 4, step);
    assert |f| == 3;
  }

  /** The prefix length of each checkpoint never shrinks from one checkpoint to the next. */
  lemma CheckpointsNondecreasing(fr: seq<real>, n: nat, i: nat, j: nat)
    requires IncreasingFractions(fr)
    requires i <= j < |fr|
    ensures StreamGen.PrefixLength(fr[i], n) <= StreamGen.PrefixLength(fr[j], n)
  {
    StreamGen.PrefixLengthMonotone(fr[i], fr[j], n);
  }

  // ---------------------------------------------------------------------------------------
  // Relative error

  /** `(estimate - truth) / truth`, and 0 when the truth is 0. */
  function RelError(est: real, truth: nat): (r: real)
    ensures truth == 0 ==> r == 0.0
    ensures truth > 0 ==> est == truth as real * (1.0 + r)
  {
    if truth > 0 then (est - truth as real) / truth as real else 0.0
  }

  /** The error is zero exactly when the estimate is exact or there is nothing to count. */
  lemma RelErrorZero(est: real, truth: nat)
    ensures RelError(est, truth) == 0.0 <==> truth == 0 || est == truth as real
  {}

  // ---------------------------------------------------------------------------------------
  // Per-trial seeds

  // The seed derivation is written as a chain of invertible 64-bit steps so that each inverse
  // can be checked one step at a time.

  function Succ(s: bv64): bv64 { s + 1 }
  function Pred(y: bv64): bv64 { y - 1 }
  function Scale(x: bv64): bv64 { 1000003 * x }
  /** 0xdf9187fd78819a6b is the inverse of the odd factor 1000003 modulo 2^64. */
  function Unscale(y: bv64): bv64 { y * 0xdf9187fd78819a6b }
  function Offset(seed: bv64, y: bv64): bv64 { seed + y }
  function Unoffset(seed: bv64, z: bv64): bv64 { z - seed }
  function Mask(z: bv64): bv64 { z ^ 0x9e3779b97f4a7c15 }

  /** The stream seed of trial `s`: seed + 1000003 (s + 1), modulo 2^64. */
  function StreamSeed(seed: bv64, s: bv64): bv64 {
    Offset(seed, Scale(Succ(s)))
  }

  /** The hash seed of trial `s`: its stream seed XOR 0x9e3779b97f4a7c15. */
  function HashSeed(seed: bv64, s: bv64): bv64 {
    Mask(StreamSeed(seed, s))
  }

  /** The trial whose stream seed is `z`. */
  function TrialOf(seed: bv64, z: bv64): bv64 {
    Pred(Unscale(Unoffset(seed, z)))
  }

  lemma SuccUndone(x: bv64)
    ensures (x + 1) - 1 == x
  {}

  lemma ScaleUndone(x: bv64)
    ensures (1000003 * x) * 0xdf9187fd78819a6b == x
  {}

  lemma OffsetUndone(seed: bv64, x: bv64)
    ensures (seed + x) - seed == x
  {}

  lemma MaskUndone(z: bv64)
    ensures (z ^ 0x9e3779b97f4a7c15) ^ 0x9e3779b97f4a7c15 == z
  {}

  lemma SuccInverse(x: bv64)
    ensures Pred(Succ(x)) == x
  {
    calc {
      Pred(Succ(x));
      Pred(x + 1);
      (x + 1) - 1;
      == { SuccUndone(x); }
      x;
    }
  }

  lemma ScaleInverse(x: bv64)
    ensures Unscale(Scale(x)) == x
  {
    calc {
      Unscale(Scale(x));
      Unscale(1000003 * x);
      (1000003 * x) * 0xdf9187fd78819a6b;
      == { ScaleUndone(x); }
      x;
    }
  }

  lemma OffsetInverse(seed: bv64, x: bv64)
    ensures Unoffset(seed, Offset(seed, x)) == x
  {
    calc {
      Unoffset(seed, Offset(seed, x));
      Unoffset(seed, seed + x);
      (seed + x) - seed;
      == { OffsetUndone(seed, x); }
      x;
    }
  }

  lemma MaskInverse(z: bv64)
    ensures Mask(Mask(z)) == z
  {
    calc {
      Mask(Mask(z));
      Mask(z ^ 0x9e3779b97f4a7c15);
      (z ^ 0x9e3779b97f4a7c15) ^ 0x9e3779b97f4a7c15;
      == { MaskUndone(z); }
      z;
    }
  }

  /** The trial index can be recovered from its stream seed. */
  lemma TrialOfStreamSeed(seed: bv64, s: bv64)
    ensures TrialOf(seed, StreamSeed(seed, s)) == s
  {
    var a := Succ(s);
    var b := Scale(a);
    calc {
      TrialOf(seed, StreamSeed(seed, s));
      Pred(Unscale(Unoffset(seed, Offset(seed, b))));
      == { OffsetInverse(seed, b); }
      Pred(Unscale(Scale(a)));
      == { ScaleInverse(a); }
      Pred(Succ(s));
      == { SuccInverse(s); }
      s;
    }
  }

  /** Different trials get different stream seeds, and so different hash seeds. */
  lemma TrialSeedsDistinct(seed: bv64, s1: bv64, s2: bv64)
    ensures StreamSeed(seed, s1) == StreamSeed(seed, s2) <==> s1 == s2
    ensures HashSeed(seed, s1) == HashSeed(seed, s2) <==> s1 == s2
  {
    TrialOfStreamSeed(seed, s1);
    TrialOfStreamSeed(seed, s2);
    MaskInverse(StreamSeed(seed, s1));
    MaskInverse(StreamSeed(seed, s2));
  }

  // ---------------------------------------------------------------------------------------
  // Feeding a stream

  /** The seeded 32-bit hash as a function on keys. */
  function Hasher(seed: bv64): Key -> bv32 {
    k => Hashing.HashOf(seed, k)
  }

  /**
   * `h` agrees with the seeded hash on every key. The trigger keeps the hash's bit-level
   * definition out of proofs that only need `h` on the keys actually hashed.
   */
  ghost predicate HashesWith(h: Key -> bv32, seed: bv64) {
    forall k {:trigger Hashing.HashOf(seed, k)} :: h(k) == Hashing.HashOf(seed, k)
  }

  lemma HasherHashes(seed: bv64)
    ensures HashesWith(Hasher(seed), seed)
  {}

  /** The hashes of the keys under `h`, in stream order. */
  function Hashes(h: Key -> bv32, keys: seq<Key>): (xs: seq<bv32>)
    ensures |xs| == |keys|
    ensures forall i :: 0 <= i < |keys| ==> xs[i] == h(keys[i])
  {
    seq(|keys|, i requires 0 <= i < |keys| => h(keys[i]))
  }

  /** The registers of a fresh sketch of precision b after adding the hashes of `keys` in order. */
  function Sketch(b: uint8, h: Key -> bv32, keys: seq<Key>): (regs: seq<uint8>)
    requires Hll.ValidPrecision(b)
    ensures Hll.Fits(b, regs)
  {
    Hll.AddAll(b, Hll.Zeros(Hll.RegisterCount(b)), Hashes(h, keys))
  }

  /** Feeding one more key adds its hash to the sketch. */
  lemma SketchSnoc(b: uint8, h: Key -> bv32, keys: seq<Key>, k: Key)
    requires Hll.ValidPrecision(b)
    ensures Sketch(b, h, keys + [k]) == Hll.AddSpec(b, Sketch(b, h, keys), h(k))
  {
    assert Hashes(h, keys + [k]) == Hashes(h, keys) + [h(k)];
    Hll.AddAllSnoc(b, Hll.Zeros(Hll.RegisterCount(b)), Hashes(h, keys), h(k));
  }

  /**
   * Feeding the stream in chunks [0, j) then [j, k) leaves the same registers as feeding
   * [0, k) at once.
   */
  lemma ChunkedFeeding(b: uint8, h: Key -> bv32, stream: seq<Key>, j: nat, k: nat)
    requires Hll.ValidPrecision(b)
    requires j <= k <= |stream|
    ensures Hll.AddAll(b, Sketch(b, h, stream[..j]), Hashes(h, stream[j..k])) == Sketch(b, h, stream[..k])
  {
    assert stream[..k] == stream[..j] + stream[j..k];
    assert Hashes(h, stream[..k]) == Hashes(h, stream[..j]) + Hashes(h, stream[j..k]);
    Hll.AddAllAppend(b, Hll.Zeros(Hll.RegisterCount(b)), Hashes(h, stream[..j]), Hashes(h, stream[j..k]));
  }

  /**
   * The sketch, like the exact count, depends only on which keys occur: repeats and order do
   * not matter.
   */
  lemma SketchSameKeys(b: uint8, h: Key -> bv32, p: seq<Key>, q: seq<Key>)
    requires Hll.ValidPrecision(b)
    requires forall s :: s in p <==> s in q
    ensures Sketch(b, h, p) == Sketch(b, h, q)
    ensures Exact.F0(p) == Exact.F0(q)
  {
    var xs, ys := Hashes(h, p), Hashes(h, q);
    forall x | x in xs
      ensures x in ys
    {
      var i :| 0 <= i < |xs| && xs[i] == x;
      assert p[i] in p;
      var j :| 0 <= j < |q| && q[j] == p[i];
      assert ys[j] == x;
    }
    forall y | y in ys
      ensures y in xs
    {
      var j :| 0 <= j < |ys| && ys[j] == y;
      assert q[j] in q;
      var i :| 0 <= i < |p| && p[i] == q[j];
      assert xs[i] == y;
    }
    Hll.AddAllSameSet(b, xs, ys);
    Exact.F0SameKeys(p, q);
  }

  // ---------------------------------------------------------------------------------------
  // Trials

  /** The number of keys fed by checkpoint fraction `frac` of an n-key stream. */
  function CheckpointKeys(frac: real, n: nat): nat {
    StreamGen.PrefixLength(frac, n)
  }

  /** Hash key stream[i] and add it to the sketch. */
  method FeedKey(hll: Hll.HyperLogLog, hf: Hashing.HashFuncGen, stream: seq<Key>, i: nat, ghost h: Key -> bv32,
                 ghost from: nat, ghost fed: seq<nat>)
    returns (ghost fed': seq<nat>)
    requires hll.Valid() && HashesWith(h, hf.seed)
    requires from <= i < |stream|
    requires hll.regs[..] == Sketch(hll.b, h, stream[..i])
    requires fed == Interval(from, i)
    modifies hll.regs
    ensures hll.regs[..] == Sketch(hll.b, h, stream[..i + 1])
    ensures fed' == fed + [i] == Interval(from, i + 1)
  {
    IntervalSnoc(from, i);
    assert stream[..i + 1] == stream[..i] + [stream[i]];
    SketchSnoc(hll.b, h, stream[..i], stream[i]);
    var x := hf.Hash(stream[i]);
    hll.Add(x);
    fed' := fed + [i];
  }

  /** The positions a, a + 1, ..., b - 1. */
  function Interval(a: nat, b: nat): (r: seq<nat>)
    requires a <= b
    ensures |r| == b - a && forall i :: 0 <= i < |r| ==> r[i] == a + i
    decreases b - a
  {
    if a == b then [] else Interval(a, b - 1) + [b - 1]
  }

  /** Logging position b after a run from a up to b extends the run by one. */
  lemma IntervalSnoc(a: nat, b: nat)
    requires a <= b
    ensures Interval(a, b) + [b] == Interval(a, b + 1)
  {}

  /** Consecutive runs of positions join into one run. */
  lemma IntervalAppend(a: nat, b: nat, c: nat)
    requires a <= b <= c
    ensures Interval(a, b) + Interval(b, c) == Interval(a, c)
  {
    assert forall i :: 0 <= i < c - a ==> (Interval(a, b) + Interval(b, c))[i] == a + i;
  }

  /**
   * Hash the keys stream[from..to) and add them to the sketch, in order: a sketch holding the
   * first `from` keys then holds the first `to`. The log `fed` of positions handed to the
   * sketch is exactly from, from + 1, ..., to - 1: each key once, in stream order.
   */
  method Feed(hll: Hll.HyperLogLog, hf: Hashing.HashFuncGen, stream: seq<Key>, from: nat, to: nat, ghost h: Key -> bv32)
    returns (ghost fed: seq<nat>)
    requires hll.Valid() && HashesWith(h, hf.seed)
    requires from <= to <= |stream|
    requires hll.regs[..] == Sketch(hll.b, h, stream[..from])
    modifies hll.regs
    ensures hll.regs[..] == Sketch(hll.b, h, stream[..to])
    ensures fed == Interval(from, to)
  {
    fed := [];
    for i := from to to
      invariant hll.regs[..] == Sketch(hll.b, h, stream[..i])
      invariant fed == Interval(from, i)
    {
      fed := FeedKey(hll, hf, stream, i, h, from, fed);
    }
  }

  /** The exact distinct count of the keys fed by checkpoint fraction `frac`. */
  function TruthAt(stream: seq<Key>, frac: real): nat {
    Exact.F0(stream[..CheckpointKeys(frac, |stream|)])
  }

  /** The estimate of a fresh sketch fed, through `h`, the keys of checkpoint fraction `frac`. */
  function EstimateAt(b: uint8, h: Key -> bv32, stream: seq<Key>, frac: real): real
    requires Hll.ValidPrecision(b)
  {
    Hll.EstimateOf(Sketch(b, h, stream[..CheckpointKeys(frac, |stream|)]))
  }

  /** The exact count at a checkpoint is at most the number of keys fed by then. */
  lemma TruthAtMost(stream: seq<Key>, frac: real)
    ensures TruthAt(stream, frac) <= CheckpointKeys(frac, |stream|)
  {
    Exact.F0AtMostLength(stream[..CheckpointKeys(frac, |stream|)]);
  }

  /** Along the checkpoints of a trial, neither the exact count nor the estimate ever decreases. */
  lemma CheckpointSeriesGrows(b: uint8, h: Key -> bv32, stream: seq<Key>, fr: seq<real>, i: nat, j: nat)
    requires Hll.ValidPrecision(b) && IncreasingFractions(fr)
    requires i <= j < |fr|
    ensures TruthAt(stream, fr[i]) <= TruthAt(stream, fr[j])
    ensures EstimateAt(b, h, stream, fr[i]) <= EstimateAt(b, h, stream, fr[j])
  {
    var n := |stream|;
    CheckpointsNondecreasing(fr, n, i, j);
    var ki, kj := CheckpointKeys(fr[i], n), CheckpointKeys(fr[j], n);
    Exact.F0PrefixMonotone(stream, ki, kj);
    ChunkedFeeding(b, h, stream, ki, kj);
    Hll.AddAllNeverLowersEstimate(b, Sketch(b, h, stream[..ki]), Hashes(h, stream[ki..kj]));
  }

  /**
   * One checkpoint of a trial: feed the keys from `prevK` up to the checkpoint, then count the
   * prefix exactly and ask the sketch for its estimate.
   */
  method Checkpoint(hll: Hll.HyperLogLog, hf: Hashing.HashFuncGen, stream: seq<Key>, prevK: nat, frac: real,
                    ghost h: Key -> bv32, ghost fed: seq<nat>)
    returns (k: nat, f0: nat, nt: real, ghost fed': seq<nat>)
    requires hll.Valid() && HashesWith(h, hf.seed)
    requires 0.0 < frac <= 1.0
    requires prevK <= CheckpointKeys(frac, |stream|)
    requires hll.regs[..] == Sketch(hll.b, h, stream[..prevK])
    modifies hll.regs
    ensures k == CheckpointKeys(frac, |stream|)
    ensures hll.regs[..] == Sketch(hll.b, h, stream[..k])
    ensures f0 == TruthAt(stream, frac) && nt == EstimateAt(hll.b, h, stream, frac)
    ensures fed' == fed + Interval(prevK, k)
  {
    k := StreamGen.CheckpointLength(frac, |stream|);
    ghost var run := Feed(hll, hf, stream, prevK, k, h);
    fed' := fed + run;
    var prefix := stream[..k];
    f0 := Exact.ExactF0(prefix);
    nt := hll.Estimate();
  }

  /** `tr` and `es` are the recorded counts and estimates of a trial on `stream` hashed by `h`. */
  ghost predicate Recorded(b: uint8, h: Key -> bv32, stream: seq<Key>, fr: seq<real>, tr: seq<nat>, es: seq<real>)
    requires Hll.ValidPrecision(b)
  {
    |tr| == |fr| && |es| == |fr| &&
    forall ti :: 0 <= ti < |fr| ==> tr[ti] == TruthAt(stream, fr[ti]) && es[ti] == EstimateAt(b, h, stream, fr[ti])
  }

  /**
   * One trial: a fresh hash function with seed `hashSeed` (which `h` computes) and a fresh
   * sketch of precision b; at each checkpoint only the keys not fed so far are hashed and
   * added, then the exact count of the prefix and the sketch's estimate are recorded. The log
   * `fed` of positions handed to the sketch is 0, 1, ..., up to the last checkpoint's length:
   * every key up to there is added exactly once, in stream order.
   */
  method RunTrial(b: uint8, hashSeed: bv64, fr: seq<real>, stream: seq<Key>, ghost h: Key -> bv32)
    returns (trueF0: seq<nat>, est: seq<real>, ghost fed: seq<nat>)
    requires Hll.ValidPrecision(b) && HashesWith(h, hashSeed)
    requires IncreasingFractions(fr) && InUnitInterval(fr)
    ensures Recorded(b, h, stream, fr, trueF0, est)
    ensures fed == Interval(0, FedBefore(fr, |fr|, |stream|))
  {
    var hf := new Hashing.HashFuncGen(hashSeed);
    var hll := new Hll.HyperLogLog(b);
    assert stream[..0] == [];
    var prevK := 0;
    trueF0, est := [], [];
    fed := [];
    var ti := 0;
    while ti < |fr|
      invariant ti <= |fr| && prevK == FedBefore(fr, ti, |stream|)
      invariant hll.Valid() && hll.b == b && fresh(hll.regs)
      invariant hll.regs[..] == Sketch(b, h, stream[..prevK])
      invariant Recorded(b, h, stream, fr[..ti], trueF0, est)
      invariant fed == Interval(0, prevK)
    {
      prevK, trueF0, est, fed := RecordCheckpoint(hll, hf, stream, fr, ti, prevK, trueF0, est, h, fed);
      ti := ti + 1;
    }
    assert fr[..|fr|] == fr;
  }

  /** Checkpoint ti of a trial: feed the keys up to it and append its count and estimate. */
  method RecordCheckpoint(hll: Hll.HyperLogLog, hf: Hashing.HashFuncGen, stream: seq<Key>, fr: seq<real>, ti: nat,
                          prevK: nat, trueF0: seq<nat>, est: seq<real>, ghost h: Key -> bv32, ghost fed: seq<nat>)
    returns (k: nat, trueF0': seq<nat>, est': seq<real>, ghost fed': seq<nat>)
    requires hll.Valid() && HashesWith(h, hf.seed)
    requires IncreasingFractions(fr) && InUnitInterval(fr) && ti < |fr|
    requires prevK == FedBefore(fr, ti, |stream|)
    requires hll.regs[..] == Sketch(hll.b, h, stream[..prevK])
    requires Recorded(hll.b, h, stream, fr[..ti], trueF0, est)
    requires fed == Interval(0, prevK)
    modifies hll.regs
    ensures k == FedBefore(fr, ti + 1, |stream|)
    ensures hll.regs[..] == Sketch(hll.b, h, stream[..k])
    ensures Recorded(hll.b, h, stream, fr[..ti + 1], trueF0', est')
    ensures fed' == Interval(0, k)
  {
    FedBeforeBound(fr, ti, |stream|);
    var f0, nt;
    k, f0, nt, fed' := Checkpoint(hll, hf, stream, prevK, fr[ti], h, fed);
    IntervalAppend(0, prevK, k);
    RecordedSnoc(hll.b, h, stream, fr, ti, trueF0, est, f0, nt);
    trueF0', est' := trueF0 + [f0], est + [nt];
  }

  /** The number of stream keys already fed to the sketch before checkpoint ti. */
  function FedBefore(fr: seq<real>, ti: nat, n: nat): nat
    requires ti <= |fr| && InUnitInterval(fr)
  {
    if ti == 0 then 0 else CheckpointKeys(fr[ti - 1], n)
  }

  /** Checkpoint ti never needs fewer keys than have been fed already. */
  lemma FedBeforeBound(fr: seq<real>, ti: nat, n: nat)
    requires ti < |fr| && IncreasingFractions(fr) && InUnitInterval(fr)
    ensures FedBefore(fr, ti, n) <= CheckpointKeys(fr[ti], n)
    ensures FedBefore(fr, ti + 1, n) == CheckpointKeys(fr[ti], n)
  {
    if ti > 0 {
      CheckpointsNondecreasing(fr, n, ti - 1, ti);
    }
  }

  /** Recording checkpoint ti's count and estimate extends the record by one checkpoint. */
  lemma RecordedSnoc(b: uint8, h: Key -> bv32, stream: seq<Key>, fr: seq<real>, ti: nat, tr: seq<nat>, es: seq<real>, f0: nat, nt: real)
    requires Hll.ValidPrecision(b) && ti < |fr|
    requires Recorded(b, h, stream, fr[..ti], tr, es)
    requires f0 == TruthAt(stream, fr[ti]) && nt == EstimateAt(b, h, stream, fr[ti])
    ensures Recorded(b, h, stream, fr[..ti + 1], tr + [f0], es + [nt])
  {
    assert forall t :: 0 <= t < ti ==> fr[..ti + 1][t] == fr[..ti][t];
  }

  /** The hash function of trial `s`. */
  function TrialHasher(seed: bv64, s: nat): Key -> bv32
    requires s < 0x1_0000_0000_0000_0000
  {
    Hasher(HashSeed(seed, s as bv64))
  }

  /**
   * All trials: trial s uses stream seed seed + 1000003 (s + 1), hash seed that XOR
   * 0x9e3779b97f4a7c15, and precision B; `streams[s]` is the stream its generator produced.
   */
  method RunAllTrials(a: Args, fr: seq<real>, streams: seq<seq<Key>>) returns (allTrue: seq<seq<nat>>, allEst: seq<seq<real>>)
    requires 4 <= a.b <= 18
    requires |streams| == a.streams < 0x1_0000_0000_0000_0000
    requires forall s :: 0 <= s < |streams| ==> |streams[s]| == a.n
    requires IncreasingFractions(fr) && InUnitInterval(fr)
    ensures |allTrue| == a.streams && |allEst| == a.streams
    ensures forall s :: 0 <= s < a.streams ==>
      Recorded(a.b as uint8, TrialHasher(a.seed, s), streams[s], fr, allTrue[s], allEst[s])
  {
    allTrue, allEst := [], [];
    for s := 0 to a.streams
      invariant |allTrue| == s && |allEst| == s
      invariant forall t :: 0 <= t < s ==>
        Recorded(a.b as uint8, TrialHasher(a.seed, t), streams[t], fr, allTrue[t], allEst[t])
    {
      var trueF0, est, _ := RunTrialOf(a, fr, streams[s], s);
      allTrue := allTrue + [trueF0];
      allEst := allEst + [est];
    }
  }

  /** Trial `s` of a run: its seeds derived from the run's seed, then RunTrial on its stream. */
  method RunTrialOf(a: Args, fr: seq<real>, stream: seq<Key>, s: nat)
    returns (trueF0: seq<nat>, est: seq<real>, ghost fed: seq<nat>)
    requires 4 <= a.b <= 18 && s < 0x1_0000_0000_0000_0000
    requires IncreasingFractions(fr) && InUnitInterval(fr)
    ensures Recorded(a.b as uint8, TrialHasher(a.seed, s), stream, fr, trueF0, est)
    ensures fed == Interval(0, FedBefore(fr, |fr|, |stream|))
  {
    var seedStream := StreamSeed(a.seed, s as bv64);
    HasherHashes(Mask(seedStream));
    trueF0, est, fed := RunTrial(a.b as uint8, Mask(seedStream), fr, stream, Hasher(Mask(seedStream)));
  }
}
