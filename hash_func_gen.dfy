/**
 * The seeded 32-bit key hash: 64-bit FNV-1a over the key bytes, XOR with the seed,
 * the SplitMix64 finaliser, then truncation to the low 32 bits.
 *
 * Constants are written as literals so that the solver folds them.
 */
module Hashing {
  import opened Bytes

  /**
   * One FNV-1a round: XOR the byte into the state, then multiply (mod 2^64) by the 64-bit
   * FNV prime 1099511628211 of draft-eastlake-fnv, section 2.1.
   */
  function FnvStep(h: bv64, c: Byte): bv64 {
    (h ^ c as bv64) * 1099511628211
  }

  /** The FNV-1a state after absorbing the bytes of `s`, left to right, starting from state `h`. */
  function Fnv1aFrom(h: bv64, s: Key): bv64
    decreases |s|
  {
    if s == [] then h else Fnv1aFrom(FnvStep(h, s[0]), s[1..])
  }

  /**
   * 64-bit FNV-1a of a byte string, from the starting state 1469598103934665603 the code uses.
   * This is not the 64-bit offset basis 14695981039346656037 (0xcbf29ce484222325) of
   * draft-eastlake-fnv, section 2.2, but that number with its last digit dropped.
   */
  function Fnv1a(s: Key): bv64 {
    Fnv1aFrom(1469598103934665603, s)
  }

  /** The empty key does not hash to the standard 64-bit FNV offset basis: the starting state differs from it. */
  lemma Fnv1aBasisNotStandard()
    ensures Fnv1a([]) != 0xcbf29ce484222325
    ensures Fnv1a([]) as int * 10 + 7 == 0xcbf29ce484222325 as int
  {}

  /** Absorbing `s + t` is absorbing `s`, then `t`: the hash can be computed incrementally. */
  lemma {:induction false} Fnv1aFromAppend(h: bv64, s: Key, t: Key)
    ensures Fnv1aFrom(h, s + t) == Fnv1aFrom(Fnv1aFrom(h, s), t)
    decreases |s|
  {
    if s == [] {
      assert s + t == t;
    } else {
      assert (s + t)[0] == s[0];
      assert (s + t)[1..] == s[1..] + t;
      Fnv1aFromAppend(FnvStep(h, s[0]), s[1..], t);
    }
  }

  /** The empty key hashes to the offset basis; every further byte is one FNV-1a round on the hash so far. */
  lemma Fnv1aSnoc(s: Key, c: Byte)
    ensures Fnv1a([]) == 1469598103934665603
    ensures Fnv1a(s + [c]) == FnvStep(Fnv1a(s), c)
  {
    Fnv1aFromAppend(1469598103934665603, s, [c]);
    assert [c][1..] == [];
  }

  // The stages of SplitMix64 and their inverses. An xor-shift by k >= 22 is undone by XORing
  // in the shifts by k and 2k; a multiplication by an odd constant is undone by multiplying
  // by its inverse modulo 2^64; adding the golden-ratio increment is undone by subtracting it.

  function AddGamma(x: bv64): bv64 { x + 0x9e3779b97f4a7c15 }
  function SubGamma(y: bv64): bv64 { y - 0x9e3779b97f4a7c15 }
  function XorShift30(x: bv64): bv64 { x ^ (x >> 30) }
  function UnXorShift30(y: bv64): bv64 { y ^ (y >> 30) ^ (y >> 60) }
  function MulFirst(x: bv64): bv64 { x * 0xbf58476d1ce4e5b9 }
  function UnMulFirst(y: bv64): bv64 { y * 0x96de1b173f119089 }
  function XorShift27(x: bv64): bv64 { x ^ (x >> 27) }
  function UnXorShift27(y: bv64): bv64 { y ^ (y >> 27) ^ (y >> 54) }
  function MulSecond(x: bv64): bv64 { x * 0x94d049bb133111eb }
  function UnMulSecond(y: bv64): bv64 { y * 0x319642b2d24d8ec3 }
  function XorShift31(x: bv64): bv64 { x ^ (x >> 31) }
  function UnXorShift31(y: bv64): bv64 { y ^ (y >> 31) ^ (y >> 62) }

  /** The SplitMix64 finaliser, all arithmetic modulo 2^64. */
  function SplitMix64(x: bv64): bv64 {
    XorShift31(MulSecond(XorShift27(MulFirst(XorShift30(AddGamma(x))))))
  }

  /** The inverse of SplitMix64: the inverse stages in reverse order. */
  function Unmix64(y: bv64): bv64 {
    SubGamma(UnXorShift30(UnMulFirst(UnXorShift27(UnMulSecond(UnXorShift31(y))))))
  }

  // Each stage fact is first proved on the bare bit-vector expression, then lifted to the
  // stage functions one unfolding at a time.

  lemma GammaUndone(x: bv64)
    ensures (x + 0x9e3779b97f4a7c15) - 0x9e3779b97f4a7c15 == x
  {}

  lemma XorShift30Undone(x: bv64)
    ensures (x ^ (x >> 30)) ^ ((x ^ (x >> 30)) >> 30) ^ ((x ^ (x >> 30)) >> 60) == x
  {}

  lemma MulFirstUndone(x: bv64)
    ensures (x * 0xbf58476d1ce4e5b9) * 0x96de1b173f119089 == x
  {}

  lemma XorShift27Undone(x: bv64)
    ensures (x ^ (x >> 27)) ^ ((x ^ (x >> 27)) >> 27) ^ ((x ^ (x >> 27)) >> 54) == x
  {}

  lemma MulSecondUndone(x: bv64)
    ensures (x * 0x94d049bb133111eb) * 0x319642b2d24d8ec3 == x
  {}

  lemma XorShift31Undone(x: bv64)
    ensures (x ^ (x >> 31)) ^ ((x ^ (x >> 31)) >> 31) ^ ((x ^ (x >> 31)) >> 62) == x
  {}

  lemma GammaInverse(x: bv64)
    ensures SubGamma(AddGamma(x)) == x
  {
    calc {
      SubGamma(AddGamma(x));
      SubGamma(x + 0x9e3779b97f4a7c15);
      (x + 0x9e3779b97f4a7c15) - 0x9e3779b97f4a7c15;
      == { GammaUndone(x); }
      x;
    }
  }

  lemma XorShift30Inverse(x: bv64)
    ensures UnXorShift30(XorShift30(x)) == x
  {
    calc {
      UnXorShift30(XorShift30(x));
      UnXorShift30(x ^ (x >> 30));
      (x ^ (x >> 30)) ^ ((x ^ (x >> 30)) >> 30) ^ ((x ^ (x >> 30)) >> 60);
      == { XorShift30Undone(x); }
      x;
    }
  }

  lemma MulFirstInverse(x: bv64)
    ensures UnMulFirst(MulFirst(x)) == x
  {
    calc {
      UnMulFirst(MulFirst(x));
      UnMulFirst(x * 0xbf58476d1ce4e5b9);
      (x * 0xbf58476d1ce4e5b9) * 0x96de1b173f119089;
      == { MulFirstUndone(x); }
      x;
    }
  }

  lemma XorShift27Inverse(x: bv64)
    ensures UnXorShift27(XorShift27(x)) == x
  {
    calc {
      UnXorShift27(XorShift27(x));
      UnXorShift27(x ^ (x >> 27));
      (x ^ (x >> 27)) ^ ((x ^ (x >> 27)) >> 27) ^ ((x ^ (x >> 27)) >> 54);
      == { XorShift27Undone(x); }
      x;
    }
  }

  lemma MulSecondInverse(x: bv64)
    ensures UnMulSecond(MulSecond(x)) == x
  {
    calc {
      UnMulSecond(MulSecond(x));
      UnMulSecond(x * 0x94d049bb133111eb);
      (x * 0x94d049bb133111eb) * 0x319642b2d24d8ec3;
      == { MulSecondUndone(x); }
      x;
    }
  }

  lemma XorShift31Inverse(x: bv64)
    ensures UnXorShift31(XorShift31(x)) == x
  {
    calc {
      UnXorShift31(XorShift31(x));
      UnXorShift31(x ^ (x >> 31));
      (x ^ (x >> 31)) ^ ((x ^ (x >> 31)) >> 31) ^ ((x ^ (x >> 31)) >> 62);
      == { XorShift31Undone(x); }
      x;
    }
  }

  /** Unmix64 recovers the input of SplitMix64: SplitMix64 is injective. */
  lemma SplitMix64RoundTrip(x: bv64)
    ensures Unmix64(SplitMix64(x)) == x
  {
    var a := AddGamma(x);
    var b := XorShift30(a);
    var c := MulFirst(b);
    var d := XorShift27(c);
    var e := MulSecond(d);
    calc {
      Unmix64(SplitMix64(x));
      SubGamma(UnXorShift30(UnMulFirst(UnXorShift27(UnMulSecond(UnXorShift31(XorShift31(e)))))));
      == { XorShift31Inverse(e); }
      SubGamma(UnXorShift30(UnMulFirst(UnXorShift27(UnMulSecond(MulSecond(d))))));
      == { MulSecondInverse(d); }
      SubGamma(UnXorShift30(UnMulFirst(UnXorShift27(XorShift27(c)))));
      == { XorShift27Inverse(c); }
      SubGamma(UnXorShift30(UnMulFirst(MulFirst(b))));
      == { MulFirstInverse(b); }
      SubGamma(UnXorShift30(XorShift30(a)));
      == { XorShift30Inverse(a); }
      SubGamma(AddGamma(x));
      == { GammaInverse(x); }
      x;
    }
  }

  lemma GammaRedone(y: bv64)
    ensures (y - 0x9e3779b97f4a7c15) + 0x9e3779b97f4a7c15 == y
  {}

  lemma XorShift30Redone(y: bv64)
    ensures (y ^ (y >> 30) ^ (y >> 60)) ^ ((y ^ (y >> 30) ^ (y >> 60)) >> 30) == y
  {}

  lemma MulFirstRedone(y: bv64)
    ensures (y * 0x96de1b173f119089) * 0xbf58476d1ce4e5b9 == y
  {}

  lemma XorShift27Redone(y: bv64)
    ensures (y ^ (y >> 27) ^ (y >> 54)) ^ ((y ^ (y >> 27) ^ (y >> 54)) >> 27) == y
  {}

  lemma MulSecondRedone(y: bv64)
    ensures (y * 0x319642b2d24d8ec3) * 0x94d049bb133111eb == y
  {}

  lemma XorShift31Redone(y: bv64)
    ensures (y ^ (y >> 31) ^ (y >> 62)) ^ ((y ^ (y >> 31) ^ (y >> 62)) >> 31) == y
  {}

  lemma GammaRightInverse(y: bv64)
    ensures AddGamma(SubGamma(y)) == y
  {
    calc {
      AddGamma(SubGamma(y));
      AddGamma(y - 0x9e3779b97f4a7c15);
      (y - 0x9e3779b97f4a7c15) + 0x9e3779b97f4a7c15;
      == { GammaRedone(y); }
      y;
    }
  }

  lemma XorShift30RightInverse(y: bv64)
    ensures XorShift30(UnXorShift30(y)) == y
  {
    calc {
      XorShift30(UnXorShift30(y));
      XorShift30(y ^ (y >> 30) ^ (y >> 60));
      (y ^ (y >> 30) ^ (y >> 60)) ^ ((y ^ (y >> 30) ^ (y >> 60)) >> 30);
      == { XorShift30Redone(y); }
      y;
    }
  }

  lemma MulFirstRightInverse(y: bv64)
    ensures MulFirst(UnMulFirst(y)) == y
  {
    calc {
      MulFirst(UnMulFirst(y));
      MulFirst(y * 0x96de1b173f119089);
      (y * 0x96de1b173f119089) * 0xbf58476d1ce4e5b9;
      == { MulFirstRedone(y); }
      y;
    }
  }

  lemma XorShift27RightInverse(y: bv64)
    ensures XorShift27(UnXorShift27(y)) == y
  {
    calc {
      XorShift27(UnXorShift27(y));
      XorShift27(y ^ (y >> 27) ^ (y >> 54));
      (y ^ (y >> 27) ^ (y >> 54)) ^ ((y ^ (y >> 27) ^ (y >> 54)) >> 27);
      == { XorShift27Redone(y); }
      y;
    }
  }

  lemma MulSecondRightInverse(y: bv64)
    ensures MulSecond(UnMulSecond(y)) == y
  {
    calc {
      MulSecond(UnMulSecond(y));
      MulSecond(y * 0x319642b2d24d8ec3);
      (y * 0x319642b2d24d8ec3) * 0x94d049bb133111eb;
      == { MulSecondRedone(y); }
      y;
    }
  }

  lemma XorShift31RightInverse(y: bv64)
    ensures XorShift31(UnXorShift31(y)) == y
  {
    calc {
      XorShift31(UnXorShift31(y));
      XorShift31(y ^ (y >> 31) ^ (y >> 62));
      (y ^ (y >> 31) ^ (y >> 62)) ^ ((y ^ (y >> 31) ^ (y >> 62)) >> 31);
      == { XorShift31Redone(y); }
      y;
    }
  }

  /** SplitMix64 reaches every 64-bit value: applying it to Unmix64(y) gives back y. */
  lemma SplitMix64Onto(y: bv64)
    ensures SplitMix64(Unmix64(y)) == y
  {
    var a := UnXorShift31(y);
    var b := UnMulSecond(a);
    var c := UnXorShift27(b);
    var d := UnMulFirst(c);
    var e := UnXorShift30(d);
    calc {
      SplitMix64(Unmix64(y));
      XorShift31(MulSecond(XorShift27(MulFirst(XorShift30(AddGamma(SubGamma(e)))))));
      == { GammaRightInverse(e); }
      XorShift31(MulSecond(XorShift27(MulFirst(XorShift30(e)))));
      == { XorShift30RightInverse(d); }
      XorShift31(MulSecond(XorShift27(MulFirst(d))));
      == { MulFirstRightInverse(c); }
      XorShift31(MulSecond(XorShift27(c)));
      == { XorShift27RightInverse(b); }
      XorShift31(MulSecond(b));
      == { MulSecondRightInverse(a); }
      XorShift31(a);
      == { XorShift31RightInverse(y); }
      y;
    }
  }

  /** SplitMix64 never sends two different inputs to the same output. */
  lemma SplitMix64Injective(x: bv64, y: bv64)
    ensures SplitMix64(x) == SplitMix64(y) <==> x == y
  {
    SplitMix64RoundTrip(x);
    SplitMix64RoundTrip(y);
  }

  /** Truncation of a 64-bit value to its low 32 bits. */
  function Low32(y: bv64): bv32 {
    (y & 0xFFFF_FFFF) as bv32
  }

  /** What the hash does after the FNV-1a pass: XOR in the seed, mix, keep the low 32 bits. */
  function Finalise(seed: bv64, base: bv64): bv32 {
    Low32(SplitMix64(base ^ seed))
  }

  /** The seeded 32-bit hash of a key. */
  function HashOf(seed: bv64, s: Key): bv32 {
    Finalise(seed, Fnv1a(s))
  }

  lemma XorInjective(f: bv64, a: bv64, b: bv64)
    ensures f ^ a == f ^ b <==> a == b
  {}

  /**
   * For a fixed FNV-1a value of a key, two seeds give the same 64-bit mix exactly when they
   * are equal: every trial seed yields a different pre-truncation hash of each key.
   */
  lemma SeedsMixApart(base: bv64, seed1: bv64, seed2: bv64)
    ensures SplitMix64(base ^ seed1) == SplitMix64(base ^ seed2) <==> seed1 == seed2
  {
    SplitMix64Injective(base ^ seed1, base ^ seed2);
    XorInjective(base, seed1, seed2);
  }

  /** A hash function object; its seed is fixed at construction. */
  class HashFuncGen {
    const seed: bv64

    constructor (seed: bv64)
      ensures this.seed == seed
    {
      this.seed := seed;
    }

    /** 64-bit FNV-1a, computed byte by byte. */
    static method Fnv1a64(s: Key) returns (h: bv64)
      ensures h == Fnv1a(s)
    {
      h := 1469598103934665603;
      for i := 0 to |s|
        invariant h == Fnv1a(s[..i])
      {
        Fnv1aSnoc(s[..i], s[i]);
        assert s[..i + 1] == s[..i] + [s[i]];
        h := FnvStep(h, s[i]);
      }
      assert s[..|s|] == s;
    }

    /** The hash of a key under this object's seed. */
    method Hash(s: Key) returns (x: bv32)
      ensures x == HashOf(seed, s)
    {
      var base := Fnv1a64(s);
      x := Finalise(seed, base);
    }
  }
}
