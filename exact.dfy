/**
 * The exact distinct counter used as ground truth: the number of different keys in a prefix of
 * the stream, with keys compared byte by byte and bucketed by 64-bit FNV-1a.
 */
module Exact {
  import opened Bytes
  import Hashing

  /** The set of distinct keys in `p`. */
  function Distinct(p: seq<Key>): set<Key> {
    set s | s in p
  }

  /** F0: the number of distinct keys in `p`. */
  function F0(p: seq<Key>): nat {
    |Distinct(p)|
  }

  /** The empty prefix has no distinct keys. */
  lemma F0Empty()
    ensures F0([]) == 0
  {
    assert Distinct([]) == {};
  }

  /**
   * Appending a key already present leaves the count unchanged; appending a new key adds
   * exactly one.
   */
  lemma F0Snoc(p: seq<Key>, s: Key)
    ensures s in p ==> F0(p + [s]) == F0(p)
    ensures s !in p ==> F0(p + [s]) == F0(p) + 1
  {
    assert Distinct(p + [s]) == Distinct(p) + {s};
    assert s in Distinct(p) <==> s in p;
  }

  /** There are never more distinct keys than keys. */
  lemma {:induction false} F0AtMostLength(p: seq<Key>)
    ensures F0(p) <= |p|
    decreases |p|
  {
    if p == [] {
      F0Empty();
    } else {
      var init := p[..|p| - 1];
      assert p == init + [p[|p| - 1]];
      F0AtMostLength(init);
      F0Snoc(init, p[|p| - 1]);
    }
  }

  /** A longer prefix of the same stream has at least as many distinct keys. */
  lemma F0PrefixMonotone(p: seq<Key>, j: nat, k: nat)
    requires j <= k <= |p|
    ensures F0(p[..j]) <= F0(p[..k])
  {
    var small, large := Distinct(p[..j]), Distinct(p[..k]);
    forall s | s in small
      ensures s in large
    {
      var i :| 0 <= i < j && p[..j][i] == s;
      assert p[..k][i] == s;
    }
    assert large == small + (large - small);
  }

  /** The count does not depend on the order (or multiplicity) of the keys. */
  lemma F0SameKeys(p: seq<Key>, q: seq<Key>)
    requires forall s :: s in p <==> s in q
    ensures F0(p) == F0(q)
  {
    assert Distinct(p) == Distinct(q);
  }

  /** A permutation of the prefix has the same count. */
  lemma F0Permutation(p: seq<Key>, q: seq<Key>)
    requires multiset(p) == multiset(q)
    ensures F0(p) == F0(q)
  {
    forall s
      ensures s in p <==> s in q
    {
      assert s in p <==> s in multiset(p);
      assert s in q <==> s in multiset(q);
    }
    F0SameKeys(p, q);
  }

  /** Key equality: same length and the same byte at every position. */
  function SvEq(a: Key, b: Key): (r: bool)
    ensures r <==> |a| == |b| && forall i :: 0 <= i < |a| ==> a[i] == b[i]
  {
    a == b
  }

  /** The bucket hash of the set: 64-bit FNV-1a over the key bytes. */
  method SvHash(s: Key) returns (h: bv64)
    ensures h == Hashing.Fnv1a(s)
  {
    h := 1469598103934665603;
    for i := 0 to |s|
      invariant h == Hashing.Fnv1a(s[..i])
    {
      Hashing.Fnv1aSnoc(s[..i], s[i]);
      assert s[..i + 1] == s[..i] + [s[i]];
      h := Hashing.FnvStep(h, s[i]);
    }
    assert s[..|s|] == s;
  }

  /** Insert every key of the prefix into a set and report its size. */
  method ExactF0(prefix: seq<Key>) returns (count: nat)
    ensures count == F0(prefix)
  {
    var st: set<Key> := {};
    for i := 0 to |prefix|
      invariant st == Distinct(prefix[..i])
    {
      assert prefix[..i + 1] == prefix[..i] + [prefix[i]];
      assert Distinct(prefix[..i + 1]) == Distinct(prefix[..i]) + {prefix[i]};
      st := st + {prefix[i]};
    }
    assert prefix[..|prefix|] == prefix;
    count := |st|;
  }
}
