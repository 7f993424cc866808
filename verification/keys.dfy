/** Byte-string keys and their order (`compare_keys` in storage/src/btree.c).

    Keys compare bytewise, unsigned, and a tie on the shared bytes goes to the
    shorter key.  `Rank` embeds that order in the reals, so that everything
    above this module can reason about key intervals with plain arithmetic. */
module Keys {
  import opened Common

  type Key = seq<Byte>

  type Value = seq<Byte>

  const MAX_KEY_SIZE := 256
  const MAX_VALUE_SIZE := 1024

  /** The order the engine promises: lexicographic, a proper prefix first. */
  predicate Lt(a: Key, b: Key)
    decreases |a|
  {
    if |b| == 0 then false
    else if |a| == 0 then true
    else a[0] < b[0] || (a[0] == b[0] && Lt(a[1..], b[1..]))
  }

  /** memcmp over the first n bytes, reduced to the sign of the first difference. */
  function CompareBytes(a: Key, b: Key, n: nat): (r: int)
    requires n <= |a| && n <= |b|
    ensures r == 0 <==> a[..n] == b[..n]
    decreases n
  {
    if n == 0 then 0
    else
      assert a[..n] == [a[0]] + a[1..][..n - 1] && b[..n] == [b[0]] + b[1..][..n - 1];
      if a[0] < b[0] then -1
      else if a[0] > b[0] then 1
      else CompareBytes(a[1..], b[1..], n - 1)
  }

  /** compare_keys: memcmp over the shared length, then the lengths. */
  function CompareKeys(a: Key, b: Key): (r: int)
  {
    var n := if |a| < |b| then |a| else |b|;
    var c := CompareBytes(a, b, n);
    if c != 0 then c
    else if |a| < |b| then -1
    else if |a| > |b| then 1
    else 0
  }

  /** compare_keys decides the lexicographic order, in all three outcomes. */
  lemma {:induction false} CompareKeysDecides(a: Key, b: Key)
    ensures CompareKeys(a, b) < 0 <==> Lt(a, b)
    ensures CompareKeys(a, b) > 0 <==> Lt(b, a)
    ensures CompareKeys(a, b) == 0 <==> a == b
    decreases |a|
  {
    if |a| > 0 && |b| > 0 {
      CompareKeysDecides(a[1..], b[1..]);
      assert a == [a[0]] + a[1..] && b == [b[0]] + b[1..];
    }
  }

  /** An order embedding of keys into [0, 1): a base-257 expansion in which a
      missing byte counts as 0 and byte v as v + 1. */
  ghost function Rank(k: Key): (r: real)
    ensures 0.0 <= r < 1.0
  {
    if |k| == 0 then 0.0 else (k[0] as real + 1.0 + Rank(k[1..])) / 257.0
  }

  lemma {:induction false} RankOrders(a: Key, b: Key)
    ensures Lt(a, b) <==> Rank(a) < Rank(b)
    ensures a == b <==> Rank(a) == Rank(b)
    decreases |a|
  {
    if |a| > 0 && |b| > 0 {
      RankOrders(a[1..], b[1..]);
      assert a == [a[0]] + a[1..] && b == [b[0]] + b[1..];
      if a[0] < b[0] {
        assert a[0] as real + 1.0 <= b[0] as real;
      } else if b[0] < a[0] {
        assert b[0] as real + 1.0 <= a[0] as real;
      }
    }
  }

  /** The form the tree proofs use: the sign of compare_keys is the order of ranks. */
  lemma {:induction false} CompareIsRank(a: Key, b: Key)
    ensures CompareKeys(a, b) < 0 <==> Rank(a) < Rank(b)
    ensures CompareKeys(a, b) > 0 <==> Rank(a) > Rank(b)
    ensures CompareKeys(a, b) == 0 <==> a == b
    ensures a == b <==> Rank(a) == Rank(b)
  {
    CompareKeysDecides(a, b);
    RankOrders(a, b);
    RankOrders(b, a);
  }

  /** Keys that start with a prefix form an interval of the order: nothing below
      the prefix starts with it, and once a key at or above the prefix fails the
      test, so does every later key (what lets a scan stop at the first miss). */
  lemma {:induction false} PrefixInterval(p: Key, a: Key, b: Key)
    ensures p <= a ==> Rank(p) <= Rank(a)
    ensures Rank(p) <= Rank(a) < Rank(b) && !(p <= a) ==> !(p <= b)
    decreases |p|
  {
    if p <= a { PrefixRank(p, a); }
    if |p| > 0 && Rank(p) <= Rank(a) < Rank(b) && !(p <= a) && p <= b {
      assert p[0] == b[0];
      RankOrders(p, a);
      RankOrders(a, b);
      if |a| > 0 && a[0] == p[0] {
        assert p == [p[0]] + p[1..] && a == [a[0]] + a[1..] && b == [b[0]] + b[1..];
        RankOrders(p[1..], a[1..]);
        RankOrders(a[1..], b[1..]);
        assert p[1..] <= b[1..];
        PrefixInterval(p[1..], a[1..], b[1..]);
        assert false;
      }
    }
  }

  lemma {:induction false} PrefixRank(p: Key, a: Key)
    requires p <= a
    ensures Rank(p) <= Rank(a)
    decreases |p|
  {
    if |p| > 0 { PrefixRank(p[1..], a[1..]); }
  }
}
