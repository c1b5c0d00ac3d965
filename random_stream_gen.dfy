/**
 * The deterministic helpers of the stream generator: the key character filter, the key
 * sanitiser, and the checkpoint splitters over a generated stream. Fractions are doubles in the
 * program and exact reals here.
 */
module StreamGen {
  import opened Bytes

  /** The byte of '-'. */
  const Dash: Byte := 0x2D

  /** The `n` consecutive byte values from `lo`. */
  function Range(lo: int, n: nat): (r: seq<Byte>)
    requires 0 <= lo && lo + n <= 0x100
    ensures |r| == n
  {
    seq(n, i requires 0 <= i < n => (lo + i) as Byte)
  }

  lemma InRange(lo: int, n: nat, c: Byte)
    requires 0 <= lo && lo + n <= 0x100
    ensures c in Range(lo, n) <==> lo <= c as int < lo + n
  {
    if lo <= c as int < lo + n {
      assert Range(lo, n)[c as int - lo] == c;
    }
  }

  /** The generator's alphabet, in its order: 'a'..'z', 'A'..'Z', '0'..'9', '-'. */
  function Alphabet(): seq<Byte> {
    Range(0x61, 26) + Range(0x41, 26) + Range(0x30, 10) + [Dash]
  }

  /** Letters, digits and '-' are allowed in a key. */
  predicate IsAllowedChar(c: Byte) {
    if 0x61 <= c <= 0x7A then true            // 'a'..'z'
    else if 0x41 <= c <= 0x5A then true       // 'A'..'Z'
    else if 0x30 <= c <= 0x39 then true       // '0'..'9'
    else c == Dash
  }

  /** The filter accepts exactly the characters the generator draws from. */
  lemma AllowedIsAlphabet(c: Byte)
    ensures IsAllowedChar(c) <==> c in Alphabet()
  {
    InRange(0x61, 26, c);
    InRange(0x41, 26, c);
    InRange(0x30, 10, c);
  }

  /** The maximum key length after sanitising. */
  const MaxKeyLength: nat := 30

  /** One character of a sanitised key: itself if allowed, '-' otherwise. */
  function Fix(c: Byte): Byte {
    if IsAllowedChar(c) then c else Dash
  }

  /** Every character replaced by its fixed form. */
  function FixAll(s: Key): (t: Key)
    ensures |t| == |s|
  {
    if s == [] then [] else [Fix(s[0])] + FixAll(s[1..])
  }

  /** The sanitised key: characters fixed, then cut to at most 30 bytes. */
  function Sanitized(s: Key): Key {
    var t := FixAll(s);
    if |t| > MaxKeyLength then t[..MaxKeyLength] else t
  }

  lemma {:induction false} FixAllAt(s: Key, i: nat)
    requires i < |s|
    ensures FixAll(s)[i] == Fix(s[i])
    decreases |s|
  {
    if i > 0 {
      FixAllAt(s[1..], i - 1);
    }
  }

  /**
   * A sanitised key has min(|s|, 30) characters; position i holds s[i] if that is allowed and
   * '-' otherwise.
   */
  lemma SanitizedShape(s: Key)
    ensures |Sanitized(s)| == if |s| > MaxKeyLength then MaxKeyLength else |s|
    ensures forall i :: 0 <= i < |Sanitized(s)| ==> Sanitized(s)[i] == if IsAllowedChar(s[i]) then s[i] else Dash
  {
    forall i | 0 <= i < |Sanitized(s)|
      ensures Sanitized(s)[i] == if IsAllowedChar(s[i]) then s[i] else Dash
    {
      FixAllAt(s, i);
    }
  }

  /** Every character of a sanitised key is allowed. */
  lemma SanitizedAllowed(s: Key)
    ensures forall i :: 0 <= i < |Sanitized(s)| ==> IsAllowedChar(Sanitized(s)[i])
  {
    SanitizedShape(s);
  }

  /** Sanitising an allowed key of at most 30 bytes changes nothing. */
  lemma SanitizedKeepsAllowed(s: Key)
    requires |s| <= MaxKeyLength
    requires forall i :: 0 <= i < |s| ==> IsAllowedChar(s[i])
    ensures Sanitized(s) == s
  {
    SanitizedShape(s);
  }

  /** Sanitising twice is sanitising once. */
  lemma SanitizedIdempotent(s: Key)
    ensures Sanitized(Sanitized(s)) == Sanitized(s)
  {
    SanitizedShape(s);
    SanitizedKeepsAllowed(Sanitized(s));
  }

  /** Rewrite disallowed characters to '-' in place, then cut to 30 bytes. */
  method Sanitize(s: Key) returns (t: Key)
    ensures t == Sanitized(s)
  {
    t := s;
    for i := 0 to |t|
      invariant |t| == |s|
      invariant forall j :: 0 <= j < i ==> t[j] == Fix(s[j])
      invariant forall j :: i <= j < |t| ==> t[j] == s[j]
    {
      if !IsAllowedChar(t[i]) {
        t := t[i := Dash];
      }
    }
    if |t| > MaxKeyLength {
      t := t[..MaxKeyLength];
    }
    forall j | 0 <= j < |FixAll(s)|
      ensures FixAll(s)[j] == Fix(s[j])
    {
      FixAllAt(s, j);
    }
  }

  // ---------------------------------------------------------------------------------------
  // Checkpoints

  /** A fraction clamped into [0, 1]. */
  function Clamp01(f: real): (g: real)
    ensures 0.0 <= g <= 1.0
    ensures 0.0 <= f <= 1.0 ==> g == f
  {
    if f < 0.0 then 0.0 else if f > 1.0 then 1.0 else f
  }

  /** `k = floor(f * n)` for a fraction clamped into [0, 1], and never more than n. */
  function PrefixLength(f: real, n: nat): (k: nat)
    ensures k <= n
  {
    var k := (Clamp01(f) * n as real).Floor;
    if k > n then n else if k < 0 then 0 else k
  }

  /** For a fraction in [0, 1] the prefix length is exactly the floor of f * n. */
  lemma PrefixLengthIsFloor(f: real, n: nat)
    requires 0.0 <= f <= 1.0
    ensures PrefixLength(f, n) as real <= f * n as real < PrefixLength(f, n) as real + 1.0
  {
    assert f * n as real <= n as real by {
      MulLeOne(f, n as real);
    }
  }

  lemma MulLeOne(f: real, x: real)
    requires 0.0 <= f <= 1.0 && 0.0 <= x
    ensures 0.0 <= f * x <= x
  {}

  lemma MulMonotone(f: real, g: real, x: real)
    requires f <= g && 0.0 <= x
    ensures f * x <= g * x
  {}

  /** A larger fraction never gives a shorter prefix. */
  lemma PrefixLengthMonotone(f: real, g: real, n: nat)
    requires f <= g
    ensures PrefixLength(f, n) <= PrefixLength(g, n)
  {
    var x, y := Clamp01(f) * n as real, Clamp01(g) * n as real;
    assert Clamp01(f) <= Clamp01(g);
    MulMonotone(Clamp01(f), Clamp01(g), n as real);
    FloorMonotone(x, y);
  }

  lemma FloorMonotone(x: real, y: real)
    requires x <= y
    ensures x.Floor <= y.Floor
  {}

  /** The whole stream is the prefix for fraction 1 and nothing is the prefix for fraction 0. */
  lemma PrefixLengthEnds(n: nat)
    ensures PrefixLength(1.0, n) == n && PrefixLength(0.0, n) == 0
  {}

  /** The first `PrefixLength(f, |stream|)` keys of the stream, copied in order. */
  method PrefixViewByFraction(stream: seq<Key>, fraction: real) returns (out: seq<Key>)
    ensures out == stream[..PrefixLength(fraction, |stream|)]
  {
    var f := fraction;
    if f < 0.0 {
      f := 0.0;
    }
    if f > 1.0 {
      f := 1.0;
    }
    var k := (f * |stream| as real).Floor;
    if k > |stream| {
      k := |stream|;
    }
    out := [];
    for i := 0 to k
      invariant out == stream[..i]
    {
      out := out + [stream[i]];
    }
  }

  /** The tolerance `1e-12` the checkpoint loops allow above 1.0. */
  const Eps: real := 0.000000000001

  /** Strictly increasing. */
  predicate Increasing(xs: seq<nat>) {
    forall i, j :: 0 <= i < j < |xs| ==> xs[i] < xs[j]
  }

  /** Enough steps of size `step` to cover a distance `d`: a termination measure for stepping loops. */
  lemma StepsToCover(d: real, step: real)
    requires step > 0.0
    ensures d <= ((d / step).Floor + 1) as real * step
  {
    var q := d / step;
    assert q * step == d;
    assert q < ((d / step).Floor + 1) as real;
    MulMonotone(q, ((d / step).Floor + 1) as real, step);
  }

  /** The next fraction: one step further, pulled back to 1.0 when it overshoots 1.0 by less than a step. */
  function Advance(cur: real, step: real): real {
    if cur + step > 1.0 && cur + step < 1.0 + step then 1.0 else cur + step
  }

  /**
   * Add the step and pull an overshoot back to 1.0, as the checkpoint loops do: a fraction
   * below 1.0 moves strictly forward and never past 1.0, while one at or above 1.0 is not
   * pulled back.
   */
  method NextFraction(cur: real, step: real) returns (next: real)
    ensures next == Advance(cur, step)
    ensures 0.0 < step && cur < 1.0 ==> cur < next <= 1.0
    ensures cur >= 1.0 ==> next == cur + step
  {
    next := cur + step;
    if next > 1.0 && next < 1.0 + step {
      next := 1.0;
    }
  }

  /** The j-th fraction a checkpoint loop visits: step, then Advance applied j times. */
  ghost function FractionAt(step: real, j: nat): real {
    if j == 0 then step else Advance(FractionAt(step, j - 1), step)
  }

  /** The checkpoint length of the j-th visited fraction. */
  ghost function LengthAt(n: nat, step: real, j: nat): nat {
    PrefixLength(FractionAt(step, j), n)
  }

  /** Advancing never moves a fraction backwards. */
  lemma AdvanceNotBack(cur: real, step: real)
    requires step > 0.0
    ensures cur <= Advance(cur, step)
  {}

  /** The checkpoint lengths of the visited fractions never decrease. */
  lemma {:induction false} LengthAtMonotone(n: nat, step: real, i: nat, j: nat)
    requires step > 0.0 && i <= j
    ensures LengthAt(n, step, i) <= LengthAt(n, step, j)
    decreases j - i
  {
    if i < j {
      LengthAtMonotone(n, step, i, j - 1);
      AdvanceNotBack(FractionAt(step, j - 1), step);
      PrefixLengthMonotone(FractionAt(step, j - 1), FractionAt(step, j), n);
    }
  }

  /** Append k unless it repeats the last element. */
  function Push(idx: seq<nat>, k: nat): (r: seq<nat>)
    ensures r != [] && r[|r| - 1] == k
    ensures forall x :: x in r <==> x in idx || x == k
  {
    if idx == [] || idx[|idx| - 1] != k then idx + [k] else idx
  }

  /** The list of checkpoint lengths after the first t visited fractions. */
  ghost function Collected(n: nat, step: real, t: nat): seq<nat> {
    if t == 0 then [] else Push(Collected(n, step, t - 1), LengthAt(n, step, t - 1))
  }

  /** One more visited fraction: the next fraction is advanced from the current one and its length is pushed. */
  lemma CollectedNext(n: nat, step: real, t: nat)
    ensures FractionAt(step, t + 1) == Advance(FractionAt(step, t), step)
    ensures Collected(n, step, t + 1) == Push(Collected(n, step, t), PrefixLength(FractionAt(step, t), n))
  {}

  /** After t fractions the list holds exactly the checkpoint lengths of the first t of them. */
  lemma {:induction false} CollectedMembers(n: nat, step: real, t: nat)
    ensures forall x :: x in Collected(n, step, t) <==> exists j :: 0 <= j < t && x == LengthAt(n, step, j)
  {
    if t > 0 {
      CollectedMembers(n, step, t - 1);
      forall x | exists j :: 0 <= j < t && x == LengthAt(n, step, j)
        ensures x in Collected(n, step, t)
      {
        var j :| 0 <= j < t && x == LengthAt(n, step, j);
        if j < t - 1 {
          assert x in Collected(n, step, t - 1);
        }
      }
      forall x | x in Collected(n, step, t)
        ensures exists j :: 0 <= j < t && x == LengthAt(n, step, j)
      {
        if x in Collected(n, step, t - 1) {
          var j :| 0 <= j < t - 1 && x == LengthAt(n, step, j);
          assert 0 <= j < t;
        } else {
          assert x == LengthAt(n, step, t - 1);
        }
      }
    }
  }

  /**
   * Once a visited fraction covers the whole stream, every later one does too, so the list
   * holds exactly the checkpoint lengths of all visited fractions.
   */
  lemma CollectedDone(n: nat, step: real, t: nat)
    requires step > 0.0 && t > 0 && LengthAt(n, step, t - 1) == n
    ensures forall x :: x in Collected(n, step, t) <==> exists j: nat :: x == LengthAt(n, step, j)
  {
    CollectedMembers(n, step, t);
    forall x | exists j: nat :: x == LengthAt(n, step, j)
      ensures x in Collected(n, step, t)
    {
      var j: nat :| x == LengthAt(n, step, j);
      if j >= t {
        LengthAtMonotone(n, step, t - 1, j);
        assert 0 <= t - 1 < t && x == LengthAt(n, step, t - 1);
      } else {
        assert 0 <= j < t && x == LengthAt(n, step, j);
      }
    }
  }

  /**
   * One step of a checkpoint loop from a fraction whose prefix is not yet the whole stream: the
   * next fraction stays in (0, 1], its prefix is no shorter, and the measure drops.
   */
  lemma AdvanceStep(before: real, after: real, step: real, left: nat, n: nat)
    requires 0.0 < before <= 1.0 && 0.0 < step <= 1.0
    requires 1.0 <= before + left as real * step
    requires after == Advance(before, step)
    requires PrefixLength(before, n) != n
    ensures 0.0 < after <= 1.0
    ensures left >= 1 && 1.0 <= after + (left - 1) as real * step
    ensures PrefixLength(before, n) <= PrefixLength(after, n)
  {
    PrefixLengthEnds(n);
    assert before < 1.0;
    assert (left - 1) as real * step == left as real * step - step;
    if after == 1.0 {
      MulMonotone(0.0, (left - 1) as real, step);
    }
    PrefixLengthMonotone(before, after, n);
  }

  /** Inside (0, 1] the floor of f * n, capped at n, is the prefix length. */
  lemma FloorCapIsPrefix(f: real, n: nat)
    requires 0.0 < f <= 1.0
    ensures PrefixLength(f, n) == var k := (f * n as real).Floor; if k > n then n else k
  {
    MulLeOne(f, n as real);
  }

  /** Pushing a length no smaller than the last one keeps the list increasing and within n. */
  lemma PushDistinct(idx: seq<nat>, k: nat, n: nat)
    requires Increasing(idx) && forall i :: 0 <= i < |idx| ==> idx[i] <= n
    requires k <= n && (idx != [] ==> idx[|idx| - 1] <= k)
    ensures var idx' := Push(idx, k);
      Increasing(idx') && (forall i :: 0 <= i < |idx'| ==> idx'[i] <= n) && idx' != [] && idx'[|idx'| - 1] == k
  {
    if idx != [] && idx[|idx| - 1] != k {
      forall i, j | 0 <= i < j < |idx| + 1
        ensures (idx + [k])[i] < (idx + [k])[j]
      {
        if j < |idx| {
          assert (idx + [k])[i] == idx[i] && (idx + [k])[j] == idx[j];
        }
      }
    }
  }

  /** A step above 1 is cut to 1. */
  function StepCap(stepFraction: real): real {
    if stepFraction > 1.0 then 1.0 else stepFraction
  }

  /**
   * The checkpoint lengths for steps of `step_fraction` (capped at 1): floor(cur * n) for
   * cur = step, 2 step, ..., with the last step pulled back to 1.0, without repeats, always
   * ending with n. A step <= 0 gives no checkpoints.
   */
  method SplitIndicesByFraction(n: nat, stepFraction: real) returns (idx: seq<nat>)
    ensures stepFraction <= 0.0 ==> idx == []
    ensures stepFraction > 0.0 ==> idx != [] && idx[|idx| - 1] == n
    ensures stepFraction > 0.0 ==>
      forall x :: x in idx <==> exists j: nat :: x == LengthAt(n, StepCap(stepFraction), j)
    ensures Increasing(idx)
    ensures forall i :: 0 <= i < |idx| ==> idx[i] <= n
  {
    idx := [];
    if stepFraction <= 0.0 {
      return;
    }
    var step := stepFraction;
    if step > 1.0 {
      step := 1.0;
    }
    assert step == StepCap(stepFraction);
    idx := CheckpointLoop(n, step);
    if idx == [] || idx[|idx| - 1] != n {
      idx := idx + [n];
    }
  }

  /** `min(floor(cur * n), n)` for a fraction in (0, 1]. */
  method CheckpointLength(cur: real, n: nat) returns (k: nat)
    requires 0.0 < cur <= 1.0
    ensures k == PrefixLength(cur, n)
  {
    FloorCapIsPrefix(cur, n);
    MulLeOne(cur, n as real);
    k := (cur * n as real).Floor;
    if k > n {
      k := n;
    }
  }

  /**
   * The state of the stepping loop after t rounds: `cur` is the t-th visited fraction, still in
   * (0, 1] and at most `left` steps below 1.0, and `idx` is the increasing list of the
   * checkpoint lengths collected so far, none of them beyond the length of `cur`.
   */
  ghost predicate Visiting(idx: seq<nat>, cur: real, n: nat, step: real, t: nat, left: nat) {
    0.0 < step <= 1.0 && 0.0 < cur <= 1.0 && cur == FractionAt(step, t) &&
    1.0 <= cur + left as real * step &&
    idx == Collected(n, step, t) && Increasing(idx) && (forall i :: 0 <= i < |idx| ==> idx[i] <= n) &&
    (idx != [] ==> idx[|idx| - 1] <= PrefixLength(cur, n))
  }

  /**
   * The stepping loop of SplitIndicesByFraction, for a step in (0, 1]: it ends with n, and holds
   * exactly the checkpoint lengths of the visited fractions, each once, in increasing order.
   */
  method CheckpointLoop(n: nat, step: real) returns (idx: seq<nat>)
    requires 0.0 < step <= 1.0
    ensures idx != [] && idx[|idx| - 1] == n
    ensures forall x :: x in idx <==> exists j: nat :: x == LengthAt(n, step, j)
    ensures Increasing(idx)
    ensures forall i :: 0 <= i < |idx| ==> idx[i] <= n
  {
    idx := [];
    var cur := step;
    ghost var t: nat := 0;
    StepsToCover(1.0 - cur, step);
    ghost var left: nat := ((1.0 - cur) / step).Floor + 1;
    while cur < 1.0 + Eps
      invariant Visiting(idx, cur, n, step, t, left)
      decreases left
    {
      idx, cur, t, left := VisitFraction(idx, cur, n, step, t, left);
      if idx[|idx| - 1] == n {
        CollectedDone(n, step, t);
        return;
      }
    }
  }

  /**
   * One round of the stepping loop: push the checkpoint length of `cur` unless it repeats the
   * last one, then advance `cur`. Either that length was n and the collected list is final, or
   * the loop state holds again one round later with one step fewer left.
   */
  method VisitFraction(idx: seq<nat>, cur: real, n: nat, step: real, ghost t: nat, ghost left: nat)
      returns (idx': seq<nat>, next: real, ghost t': nat, ghost left': nat)
    requires Visiting(idx, cur, n, step, t, left)
    ensures idx' == Collected(n, step, t') && t' == t + 1 && next == FractionAt(step, t')
    ensures Increasing(idx') && forall i :: 0 <= i < |idx'| ==> idx'[i] <= n
    ensures idx' != [] && (idx'[|idx'| - 1] == n <==> LengthAt(n, step, t) == n)
    ensures idx'[|idx'| - 1] != n ==> Visiting(idx', next, n, step, t', left') && left' < left
  {
    var k := CheckpointLength(cur, n);
    PushDistinct(idx, k, n);
    idx' := idx;
    if idx' == [] || idx'[|idx'| - 1] != k {
      idx' := idx' + [k];
    }
    next := NextFraction(cur, step);
    assert idx' == Push(idx, k);
    CollectedNext(n, step, t);
    t' := t + 1;
    left' := if left > 0 then left - 1 else 0;
    if k != n {
      VisitingStep(idx, cur, n, step, t, left);
    }
  }

  /** A round that does not reach n leaves the loop state holding one round later, with one step fewer left. */
  lemma VisitingStep(idx: seq<nat>, cur: real, n: nat, step: real, t: nat, left: nat)
    requires Visiting(idx, cur, n, step, t, left) && PrefixLength(cur, n) != n
    ensures left >= 1
    ensures Visiting(Push(idx, PrefixLength(cur, n)), Advance(cur, step), n, step, t + 1, left - 1)
  {
    var k := PrefixLength(cur, n);
    AdvanceStep(cur, Advance(cur, step), step, left, n);
    PushDistinct(idx, k, n);
    CollectedNext(n, step, t);
  }
}
