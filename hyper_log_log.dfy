/**
 * The HyperLogLog sketch: 2^B one-byte registers, each holding the largest rank seen among the
 * hashes routed to it. A 32-bit hash is split into its top B bits (the register index) and the
 * remaining 32 - B bits (the tail, whose rank is one plus its leading-zero count).
 */
module Hll {
  import opened Bytes

  // ---------------------------------------------------------------------------------------
  // Leading zeros

  /** The `n` bit positions from the one in `mask` downwards, as a mask. */
  function LowMask(mask: bv32, n: nat): bv32
  {
    if n == 0 then 0 else mask | LowMask(mask >> 1, n - 1)
  }

  lemma LowMaskAll()
    ensures LowMask(0x8000_0000, 32) == 0xFFFF_FFFF
  {
    assert LowMask(0x1, 1) == 0x1;
    assert LowMask(0x2, 2) == 0x3;
    assert LowMask(0x4, 3) == 0x7;
    assert LowMask(0x8, 4) == 0xF;
    assert LowMask(0x10, 5) == 0x1F;
    assert LowMask(0x20, 6) == 0x3F;
    assert LowMask(0x40, 7) == 0x7F;
    assert LowMask(0x80, 8) == 0xFF;
    assert LowMask(0x100, 9) == 0x1FF;
    assert LowMask(0x200, 10) == 0x3FF;
    assert LowMask(0x400, 11) == 0x7FF;
    assert LowMask(0x800, 12) == 0xFFF;
    assert LowMask(0x1000, 13) == 0x1FFF;
    assert LowMask(0x2000, 14) == 0x3FFF;
    assert LowMask(0x4000, 15) == 0x7FFF;
    assert LowMask(0x8000, 16) == 0xFFFF;
    assert LowMask(0x10000, 17) == 0x1FFFF;
    assert LowMask(0x20000, 18) == 0x3FFFF;
    assert LowMask(0x40000, 19) == 0x7FFFF;
    assert LowMask(0x80000, 20) == 0xFFFFF;
    assert LowMask(0x100000, 21) == 0x1FFFFF;
    assert LowMask(0x200000, 22) == 0x3FFFFF;
    assert LowMask(0x400000, 23) == 0x7FFFFF;
    assert LowMask(0x800000, 24) == 0xFFFFFF;
    assert LowMask(0x1000000, 25) == 0x1FFFFFF;
    assert LowMask(0x2000000, 26) == 0x3FFFFFF;
    assert LowMask(0x4000000, 27) == 0x7FFFFFF;
    assert LowMask(0x8000000, 28) == 0xFFFFFFF;
    assert LowMask(0x10000000, 29) == 0x1FFFFFFF;
    assert LowMask(0x20000000, 30) == 0x3FFFFFFF;
    assert LowMask(0x40000000, 31) == 0x7FFFFFFF;
    assert LowMask(0x80000000, 32) == 0xFFFFFFFF;
  }

  /**
   * The zero bits of `w` met when scanning `n` bit positions downwards from the one in `mask`,
   * stopping at the first one bit.
   */
  function ZerosBelow(w: bv32, mask: bv32, n: nat): (z: nat)
    ensures z <= n
  {
    if n == 0 then 0 else if w & mask != 0 then 0 else 1 + ZerosBelow(w, mask >> 1, n - 1)
  }

  /** The number of leading zero bits of a 32-bit word (32 for the zero word). */
  function Clz(w: bv32): nat {
    ZerosBelow(w, 0x8000_0000, 32)
  }

  lemma AndOverOr(w: bv32, a: bv32, b: bv32)
    ensures w & (a | b) == (w & a) | (w & b)
  {}

  lemma OrZero(x: bv32, y: bv32)
    ensures x | y == 0 <==> x == 0 && y == 0
  {}

  lemma OrIsZero(w: bv32, a: bv32, b: bv32)
    ensures w & (a | b) == 0 <==> w & a == 0 && w & b == 0
  {
    AndOverOr(w, a, b);
    OrZero(w & a, w & b);
  }

  /** If every scanned bit is zero, `w` has no bit in the scanned range. */
  lemma {:induction false} AllZerosBelow(w: bv32, mask: bv32, n: nat)
    ensures ZerosBelow(w, mask, n) == n ==> w & LowMask(mask, n) == 0
  {
    if n > 0 {
      AllZerosBelow(w, mask >> 1, n - 1);
      OrIsZero(w, mask, LowMask(mask >> 1, n - 1));
    }
  }

  /** A nonzero word has at most 31 leading zeros, and only the zero word has 32. */
  lemma ClzNonzero(w: bv32)
    ensures w != 0 <==> Clz(w) < 32
  {
    AllZerosBelow(w, 0x8000_0000, 32);
    LowMaskAll();
    if w == 0 {
      ZeroHasNoOnes(0x8000_0000, 32);
    }
  }

  lemma {:induction false} ZeroHasNoOnes(mask: bv32, n: nat)
    ensures ZerosBelow(0, mask, n) == n
  {
    if n > 0 {
      ZeroHasNoOnes(mask >> 1, n - 1);
    }
  }

  // ---------------------------------------------------------------------------------------
  // Rank

  /**
   * `rho` as compiled with the leading-zero builtin: the zero word gets `max_bits + 1`
   * truncated to a byte; any other word gets one plus its leading-zero count, capped at
   * `max_bits + 1`.
   */
  function Rho(w: bv32, maxBits: uint8): (r: uint8)
    ensures maxBits < 0xFF ==> 1 <= r as int <= maxBits as int + 1
  {
    if w == 0 then
      ((maxBits as int + 1) % 0x100) as uint8
    else
      var r := Clz(w) + 1;
      if r > maxBits as int + 1 then maxBits + 1 else r as uint8
  }

  /** The rank is a position: one plus the leading-zero count, capped at `max_bits + 1`, never 0. */
  lemma RhoBounds(w: bv32, maxBits: uint8)
    requires maxBits < 0xFF
    ensures 1 <= Rho(w, maxBits) as int <= maxBits as int + 1
    ensures w == 0 ==> Rho(w, maxBits) as int == maxBits as int + 1
    ensures w != 0 ==>
      Rho(w, maxBits) as int == (if Clz(w) + 1 <= maxBits as int + 1 then Clz(w) + 1 else maxBits as int + 1)
  {}

  /** With `max_bits == 255` the byte cast turns the rank of the zero word into 0. */
  lemma RhoOfZeroWraps()
    ensures Rho(0, 0xFF) == 0
  {}

  /**
   * The portable branch of `rho`: test the bits of `w` from the top with a moving mask,
   * counting up from 1, until a one bit or `max_bits + 1`. It agrees with the builtin branch.
   */
  method RhoPortable(w: bv32, maxBits: uint8) returns (r: uint8)
    ensures r == Rho(w, maxBits)
  {
    if w == 0 {
      return ((maxBits as int + 1) % 0x100) as uint8;
    }
    ClzNonzero(w);
    r := 1;
    var mask: bv32 := 0x8000_0000;
    while r <= maxBits && w & mask == 0
      invariant 1 <= r as int <= maxBits as int + 1 && r <= 32
      invariant Clz(w) == r as int - 1 + ZerosBelow(w, mask, 33 - r as int)
      decreases maxBits as int - r as int
    {
      r := r + 1;
      mask := mask >> 1;
    }
    // The source's final cap at max_bits + 1 never fires: the loop stops with r <= max_bits + 1.
  }

  // ---------------------------------------------------------------------------------------
  // Splitting a hash

  /** 2^n. */
  function Pow2(n: nat): (p: nat)
    ensures p >= 1
  {
    if n == 0 then 1 else 2 * Pow2(n - 1)
  }

  /** A precision the sketch accepts. */
  predicate ValidPrecision(b: uint8) {
    4 <= b <= 18
  }

  /** The register count `1u << B`, that is 2^B (no overflow for B <= 18). */
  function RegisterCount(b: uint8): nat
    requires ValidPrecision(b)
  {
    Pow2(b as nat)
  }

  lemma {:induction false} Pow2Add(p: nat, q: nat)
    ensures Pow2(p) * Pow2(q) == Pow2(p + q)
    decreases p
  {
    if p > 0 {
      Pow2Add(p - 1, q);
    }
  }

  lemma Pow2Of32()
    ensures Pow2(32) == 0x1_0000_0000
  {
    assert Pow2(4) == 16;
    Pow2Add(4, 4);
    Pow2Add(8, 8);
    Pow2Add(16, 16);
  }

  /** The top B bits of a 32-bit value select one of 2^B registers. */
  lemma IndexBound(b: uint8, x: bv32)
    requires ValidPrecision(b)
    ensures 0 <= x as int / Pow2(32 - b as nat) < Pow2(b as nat)
  {
    Pow2Add(32 - b as nat, b as nat);
    Pow2Of32();
    DivBelow(x as int, Pow2(32 - b as nat), Pow2(b as nat));
  }

  lemma DivBelow(a: nat, p: nat, q: nat)
    requires p > 0 && a < p * q
    ensures 0 <= a / p < q
  {}

  /**
   * The register index of a hash: its top B bits, `x >> (32 - B)`, which for an unsigned
   * 32-bit value is x div 2^(32 - B). It is always a valid register index.
   */
  function Index(b: uint8, x: bv32): (i: nat)
    requires ValidPrecision(b)
    ensures i < RegisterCount(b)
  {
    IndexBound(b, x);
    x as int / Pow2(32 - b as nat)
  }

  /** The rank of a hash: `rho` of its low 32 - B bits moved to the top, `x << B`, with `max_bits = 32 - B`. */
  function Rank(b: uint8, x: bv32): (r: uint8)
    requires ValidPrecision(b)
    ensures 1 <= r as int <= 33 - b as int
  {
    Rho(x << b, 32 - b)
  }

  // ---------------------------------------------------------------------------------------
  // Register updates on values

  /** `m` zero registers. */
  function Zeros(m: nat): (regs: seq<uint8>)
    ensures |regs| == m
  {
    seq(m, _ => 0)
  }

  /** A register array of the right length for precision B. */
  predicate Fits(b: uint8, regs: seq<uint8>) {
    ValidPrecision(b) && |regs| == RegisterCount(b)
  }

  /** The registers after `add(x)`: the register at the index of x is raised to the rank of x if that is larger. */
  function AddSpec(b: uint8, regs: seq<uint8>, x: bv32): (regs': seq<uint8>)
    requires Fits(b, regs)
    ensures Fits(b, regs')
    ensures forall j :: 0 <= j < |regs| ==> regs[j] <= regs'[j]
    ensures Rank(b, x) <= regs'[Index(b, x)]
  {
    var i := Index(b, x);
    var r := Rank(b, x);
    if r > regs[i] then regs[i := r] else regs
  }

  function Max(a: uint8, b: uint8): uint8 {
    if a >= b then a else b
  }

  /**
   * `add` raises the register at the index of x to the maximum of its old value and the rank of
   * x, changes no other register, and so never lowers any register.
   */
  lemma AddRaisesOneRegister(b: uint8, regs: seq<uint8>, x: bv32)
    requires Fits(b, regs)
    ensures AddSpec(b, regs, x)[Index(b, x)] == Max(regs[Index(b, x)], Rank(b, x))
    ensures forall j :: 0 <= j < |regs| && j != Index(b, x) ==> AddSpec(b, regs, x)[j] == regs[j]
    ensures forall j :: 0 <= j < |regs| ==> regs[j] <= AddSpec(b, regs, x)[j]
  {}

  /** Adding the same hash twice leaves the same registers as adding it once. */
  lemma AddIdempotent(b: uint8, regs: seq<uint8>, x: bv32)
    requires Fits(b, regs)
    ensures AddSpec(b, AddSpec(b, regs, x), x) == AddSpec(b, regs, x)
  {}

  /** The order of two `add` calls does not affect the registers. */
  lemma AddCommutes(b: uint8, regs: seq<uint8>, x: bv32, y: bv32)
    requires Fits(b, regs)
    ensures AddSpec(b, AddSpec(b, regs, x), y) == AddSpec(b, AddSpec(b, regs, y), x)
  {
    var r1 := AddSpec(b, AddSpec(b, regs, x), y);
    var r2 := AddSpec(b, AddSpec(b, regs, y), x);
    AddRaisesOneRegister(b, regs, x);
    AddRaisesOneRegister(b, regs, y);
    AddRaisesOneRegister(b, AddSpec(b, regs, x), y);
    AddRaisesOneRegister(b, AddSpec(b, regs, y), x);
    assert forall j :: 0 <= j < |regs| ==> r1[j] == r2[j];
  }

  /** The registers after adding the hashes of `xs` in order. */
  function AddAll(b: uint8, regs: seq<uint8>, xs: seq<bv32>): (regs': seq<uint8>)
    requires Fits(b, regs)
    ensures Fits(b, regs')
    decreases |xs|
  {
    if xs == [] then regs else AddSpec(b, AddAll(b, regs, xs[..|xs| - 1]), xs[|xs| - 1])
  }

  lemma AddAllSnoc(b: uint8, regs: seq<uint8>, xs: seq<bv32>, x: bv32)
    requires Fits(b, regs)
    ensures AddAll(b, regs, xs + [x]) == AddSpec(b, AddAll(b, regs, xs), x)
  {
    assert (xs + [x])[..|xs|] == xs;
  }

  /** Adding `xs + ys` is adding `xs`, then `ys`: a stream can be fed in chunks. */
  lemma {:induction false} AddAllAppend(b: uint8, regs: seq<uint8>, xs: seq<bv32>, ys: seq<bv32>)
    requires Fits(b, regs)
    ensures AddAll(b, regs, xs + ys) == AddAll(b, AddAll(b, regs, xs), ys)
    decreases |ys|
  {
    if ys == [] {
      assert xs + ys == xs;
    } else {
      var init := ys[..|ys| - 1];
      var last := ys[|ys| - 1];
      assert ys == init + [last];
      assert xs + ys == (xs + init) + [last];
      AddAllAppend(b, regs, xs, init);
      AddAllSnoc(b, regs, xs + init, last);
      AddAllSnoc(b, AddAll(b, regs, xs), init, last);
    }
  }

  /** The largest rank among the hashes of `xs` whose index is `j`, or 0 if there are none. */
  function MaxRank(b: uint8, xs: seq<bv32>, j: nat): uint8
    requires ValidPrecision(b)
    decreases |xs|
  {
    if xs == [] then 0
    else
      var x := xs[|xs| - 1];
      var prev := MaxRank(b, xs[..|xs| - 1], j);
      if Index(b, x) == j then Max(prev, Rank(b, x)) else prev
  }

  /** Each register ends as the larger of its start value and the largest rank routed to it. */
  lemma {:induction false} AddAllRegister(b: uint8, regs: seq<uint8>, xs: seq<bv32>, j: nat)
    requires Fits(b, regs) && j < |regs|
    ensures AddAll(b, regs, xs)[j] == Max(regs[j], MaxRank(b, xs, j))
    decreases |xs|
  {
    if xs != [] {
      var init := xs[..|xs| - 1];
      AddAllRegister(b, regs, init, j);
      AddRaisesOneRegister(b, AddAll(b, regs, init), xs[|xs| - 1]);
    }
  }

  /** MaxRank is the maximum: it bounds every rank routed to `j` and is one of them, unless it is 0. */
  lemma {:induction false} MaxRankIsMaximum(b: uint8, xs: seq<bv32>, j: nat)
    requires ValidPrecision(b)
    ensures forall x :: x in xs && Index(b, x) == j ==> Rank(b, x) <= MaxRank(b, xs, j)
    ensures MaxRank(b, xs, j) == 0 || exists x :: x in xs && Index(b, x) == j && Rank(b, x) == MaxRank(b, xs, j)
    decreases |xs|
  {
    if xs != [] {
      var init := xs[..|xs| - 1];
      MaxRankIsMaximum(b, init, j);
      assert xs == init + [xs[|xs| - 1]];
      assert forall x :: x in init ==> x in xs;
    }
  }

  /** MaxRank depends only on the set of hashes, not on their order or repetitions. */
  lemma MaxRankSameSet(b: uint8, xs: seq<bv32>, ys: seq<bv32>, j: nat)
    requires ValidPrecision(b)
    requires forall x :: x in xs <==> x in ys
    ensures MaxRank(b, xs, j) == MaxRank(b, ys, j)
  {
    MaxRankIsMaximum(b, xs, j);
    MaxRankIsMaximum(b, ys, j);
  }

  /**
   * A sketch built from fresh registers depends only on the set of hashes added: reordering
   * or repeating hashes gives the same registers.
   */
  lemma AddAllSameSet(b: uint8, xs: seq<bv32>, ys: seq<bv32>)
    requires ValidPrecision(b)
    requires forall x :: x in xs <==> x in ys
    ensures AddAll(b, Zeros(RegisterCount(b)), xs) == AddAll(b, Zeros(RegisterCount(b)), ys)
  {
    var z := Zeros(RegisterCount(b));
    forall j | 0 <= j < |z|
      ensures AddAll(b, z, xs)[j] == AddAll(b, z, ys)[j]
    {
      AddAllRegister(b, z, xs, j);
      AddAllRegister(b, z, ys, j);
      MaxRankSameSet(b, xs, ys, j);
    }
  }

  /** Registers stay within [0, 33 - B] under any sequence of adds from fresh registers. */
  lemma {:induction false} AddAllBounded(b: uint8, regs: seq<uint8>, xs: seq<bv32>)
    requires Fits(b, regs)
    requires forall j :: 0 <= j < |regs| ==> regs[j] as int <= 33 - b as int
    ensures forall j :: 0 <= j < |regs| ==> AddAll(b, regs, xs)[j] as int <= 33 - b as int
    decreases |xs|
  {
    if xs != [] {
      var before := AddAll(b, regs, xs[..|xs| - 1]);
      AddAllBounded(b, regs, xs[..|xs| - 1]);
      AddRaisesOneRegister(b, before, xs[|xs| - 1]);
    }
  }

  // ---------------------------------------------------------------------------------------
  // Estimate (real-valued)

  /** The bias-correction constant for `m` registers. */
  function Alpha(m: nat): (a: real)
    requires m > 0
    ensures 0.0 < a < 0.7213
  {
    if m == 16 then 0.673
    else if m == 32 then 0.697
    else if m == 64 then 0.709
    else 0.7213 / (1.0 + 1.079 / m as real)
  }

  /** 2^-v, the weight of a register holding v. */
  function Weight(v: uint8): (w: real)
    ensures 0.0 < w <= 1.0
  {
    1.0 / Pow2(v as nat) as real
  }

  /** The harmonic sum of the registers: the sum of 2^-v over the registers. */
  function RegisterSum(regs: seq<uint8>): (z: real)
    ensures 0.0 <= z <= |regs| as real
    ensures regs != [] ==> z > 0.0
    decreases |regs|
  {
    if regs == [] then 0.0 else RegisterSum(regs[..|regs| - 1]) + Weight(regs[|regs| - 1])
  }

  /** The raw HyperLogLog estimate `alpha(m) * m * m / z` for `m` registers with harmonic sum `z`. */
  function Raw(m: nat, z: real): real
    requires m > 0 && z > 0.0
  {
    Alpha(m) * m as real * m as real / z
  }

  /** The raw HyperLogLog estimate of a register array. */
  function EstimateOf(regs: seq<uint8>): real
    requires regs != []
  {
    Raw(|regs|, RegisterSum(regs))
  }

  /** The sum over one more register adds that register's weight. */
  lemma RegisterSumStep(regs: seq<uint8>, i: nat)
    requires i < |regs|
    ensures RegisterSum(regs[..i + 1]) == RegisterSum(regs[..i]) + Weight(regs[i])
  {
    assert regs[..i + 1][..i] == regs[..i];
  }

  lemma {:induction false} ZerosSum(m: nat)
    ensures RegisterSum(Zeros(m)) == m as real
  {
    if m > 0 {
      ZerosSum(m - 1);
      assert Zeros(m)[..m - 1] == Zeros(m - 1);
    }
  }

  /** A fresh sketch estimates alpha(m) * m. */
  lemma FreshEstimate(m: nat)
    requires m > 0
    ensures EstimateOf(Zeros(m)) == Alpha(m) * m as real
  {
    ZerosSum(m);
  }

  lemma {:induction false} Pow2Monotone(p: nat, q: nat)
    requires p <= q
    ensures Pow2(p) <= Pow2(q)
    decreases q
  {
    if p < q {
      Pow2Monotone(p, q - 1);
    }
  }

  lemma DivAntitone(c: real, z: real, z': real)
    requires c >= 0.0 && 0.0 < z' <= z
    ensures c / z <= c / z'
  {}

  /** A larger register value weighs less. */
  lemma WeightAntitone(u: uint8, v: uint8)
    requires u <= v
    ensures Weight(v) <= Weight(u)
  {
    Pow2Monotone(u as nat, v as nat);
    DivAntitone(1.0, Pow2(v as nat) as real, Pow2(u as nat) as real);
  }

  /** Raising one register never increases the harmonic sum. */
  lemma {:induction false} RaiseLowersSum(regs: seq<uint8>, i: nat, v: uint8)
    requires i < |regs| && regs[i] <= v
    ensures RegisterSum(regs[i := v]) <= RegisterSum(regs)
    decreases |regs|
  {
    var n := |regs|;
    if i == n - 1 {
      assert regs[i := v][..n - 1] == regs[..n - 1];
      WeightAntitone(regs[i], v);
    } else {
      assert regs[i := v][..n - 1] == regs[..n - 1][i := v];
      RaiseLowersSum(regs[..n - 1], i, v);
    }
  }

  /** A smaller harmonic sum gives a larger raw estimate. */
  lemma RawAntitone(m: nat, z: real, z': real)
    requires m > 0 && 0.0 < z' <= z
    ensures Raw(m, z) <= Raw(m, z')
  {
    var am := Alpha(m) * m as real;
    assert am >= 0.0;
    DivAntitone(am * m as real, z, z');
  }

  /** Adding a hash never lowers the raw estimate. */
  lemma AddNeverLowersEstimate(b: uint8, regs: seq<uint8>, x: bv32)
    requires Fits(b, regs)
    ensures EstimateOf(regs) <= EstimateOf(AddSpec(b, regs, x))
  {
    var i, r := Index(b, x), Rank(b, x);
    if r > regs[i] {
      RaiseLowersSum(regs, i, r);
    }
    RawAntitone(|regs|, RegisterSum(regs), RegisterSum(AddSpec(b, regs, x)));
  }

  /** Adding any sequence of hashes never lowers the raw estimate. */
  lemma {:induction false} AddAllNeverLowersEstimate(b: uint8, regs: seq<uint8>, xs: seq<bv32>)
    requires Fits(b, regs)
    ensures EstimateOf(regs) <= EstimateOf(AddAll(b, regs, xs))
    decreases |xs|
  {
    if xs != [] {
      var init := xs[..|xs| - 1];
      AddAllNeverLowersEstimate(b, regs, init);
      AddNeverLowersEstimate(b, AddAll(b, regs, init), xs[|xs| - 1]);
    }
  }

  /** Since every register weighs at most 1, the raw estimate is at least alpha(m) * m. */
  lemma EstimateAtLeast(regs: seq<uint8>)
    requires regs != []
    ensures EstimateOf(regs) >= Alpha(|regs|) * |regs| as real
  {
    var m := |regs| as real;
    RawAntitone(|regs|, m, RegisterSum(regs));
    assert Alpha(|regs|) * m * m / m == Alpha(|regs|) * m;
  }

  // ---------------------------------------------------------------------------------------
  // The sketch object

  class HyperLogLog {
    const b: uint8
    const m: nat
    const regs: array<uint8>

    ghost predicate Valid() {
      ValidPrecision(b) && m == RegisterCount(b) && regs.Length == m
    }

    /** `m = 1u << B` registers, all zero. */
    constructor (b: uint8)
      requires ValidPrecision(b)
      ensures Valid() && fresh(regs)
      ensures this.b == b && m == Pow2(b as nat)
      ensures regs[..] == Zeros(m)
    {
      this.b := b;
      this.m := Pow2(b as nat);
      this.regs := new uint8[Pow2(b as nat)](_ => 0);
    }

    function B(): (b': uint8)
      requires Valid()
      ensures ValidPrecision(b')
    {
      b
    }

    /** The register count, 2^B. */
    function M(): (m': nat)
      requires Valid()
      ensures m' == Pow2(b as nat)
    {
      m
    }

    /** The current registers, one per index. */
    function Regs(): (r: seq<uint8>)
      requires Valid()
      reads regs
      ensures |r| == Pow2(b as nat)
    {
      regs[..]
    }

    /** Route the hash to its register and raise that register to the hash's rank if larger. */
    method Add(x: bv32)
      requires Valid()
      modifies regs
      ensures Valid()
      ensures regs[..] == AddSpec(b, old(regs[..]), x)
    {
      var idx := Index(b, x);
      var r := Rank(b, x);
      if r > regs[idx] {
        regs[idx] := r;
      }
    }

    /** The estimate, summing 2^-v over the registers in index order. */
    method Estimate() returns (e: real)
      requires Valid()
      ensures e == EstimateOf(regs[..])
    {
      var z := 0.0;
      for i := 0 to regs.Length
        invariant z == RegisterSum(regs[..i])
      {
        RegisterSumStep(regs[..], i);
        z := z + Weight(regs[i]);
      }
      assert regs[..regs.Length] == regs[..];
      e := Raw(m, z);
    }
  }
}
