/** The LRU cache (common/src/lru.c): a chained hash table and a doubly linked recency list
    that share their nodes. */
module LruSpec {
  import opened Common
  import opened Keys

  type Pair = (Key, Value)

  /** Recency order: the head is the least recently used entry. */
  ghost predicate Distinct(es: seq<Pair>) {
    forall i, j :: 0 <= i < j < |es| ==> es[i].0 != es[j].0
  }

  ghost predicate Holds(es: seq<Pair>, k: Key) {
    exists i :: 0 <= i < |es| && es[i].0 == k
  }

  /** The list without the entry of k. */
  function Without(es: seq<Pair>, k: Key): (r: seq<Pair>)
    ensures |r| <= |es|
  {
    if |es| == 0 then []
    else if es[|es| - 1].0 == k then Without(es[..|es| - 1], k)
    else Without(es[..|es| - 1], k) + [es[|es| - 1]]
  }

  /** The value cached for k. */
  function Lookup(es: seq<Pair>, k: Key): (r: seq<Value>)
    ensures |r| <= 1
  {
    if |es| == 0 then []
    else if es[|es| - 1].0 == k then [es[|es| - 1].1]
    else Lookup(es[..|es| - 1], k)
  }

  /** lru_get on a hit: the entry becomes the most recently used. */
  function Touched(es: seq<Pair>, k: Key): seq<Pair> {
    if Lookup(es, k) == [] then es else Without(es, k) + [(k, Lookup(es, k)[0])]
  }

  /** store: replace and touch, or append, evicting the least recently used entry when a
      new key arrives at capacity. */
  function Stored(es: seq<Pair>, capacity: nat, k: Key, v: Value): seq<Pair> {
    if Lookup(es, k) != [] then Without(es, k) + [(k, v)]
    else if |es| >= capacity && |es| > 0 then es[1..] + [(k, v)]
    else es + [(k, v)]
  }

  lemma {:induction false} LookupHolds(es: seq<Pair>, k: Key)
    ensures Lookup(es, k) != [] <==> Holds(es, k)
  {
    if |es| > 0 {
      var n := |es| - 1;
      LookupHolds(es[..n], k);
      if Holds(es[..n], k) {
        var i :| 0 <= i < n && es[..n][i].0 == k;
        assert es[i].0 == k;
      }
      if Holds(es, k) && es[n].0 != k {
        var i :| 0 <= i < |es| && es[i].0 == k;
        assert es[..n][i].0 == k;
      }
    }
  }

  /** With distinct keys, dropping the key at index i is dropping the entry at index i. */
  lemma {:induction false} WithoutAt(es: seq<Pair>, i: nat)
    requires Distinct(es) && i < |es|
    ensures Without(es, es[i].0) == RemoveAt(es, i)
    ensures Lookup(es, es[i].0) == [es[i].1]
    decreases |es|
  {
    var n := |es| - 1;
    if i == n {
      WithoutAbsent(es[..n], es[n].0);
    } else {
      WithoutAt(es[..n], i);
      assert RemoveAt(es, i) == RemoveAt(es[..n], i) + [es[n]];
    }
  }

  lemma {:induction false} WithoutAbsent(es: seq<Pair>, k: Key)
    requires forall i :: 0 <= i < |es| ==> es[i].0 != k
    ensures Without(es, k) == es && Lookup(es, k) == []
  {
    if |es| > 0 {
      WithoutAbsent(es[..|es| - 1], k);
      assert es == es[..|es| - 1] + [es[|es| - 1]];
    }
  }

  /** Without keeps exactly the other entries, in order. */
  lemma {:induction false} WithoutKeeps(es: seq<Pair>, k: Key, x: Key)
    ensures Lookup(Without(es, k), x) == if x == k then [] else Lookup(es, x)
  {
    if |es| > 0 {
      var n := |es| - 1;
      WithoutKeeps(es[..n], k, x);
      if es[n].0 != k {
        assert (Without(es[..n], k) + [es[n]])[..|Without(es[..n], k)|] == Without(es[..n], k);
      }
    }
  }

  lemma {:induction false} AppendLookup(es: seq<Pair>, k: Key, v: Value, x: Key)
    ensures Lookup(es + [(k, v)], x) == if x == k then [v] else Lookup(es, x)
  {
    assert (es + [(k, v)])[..|es|] == es;
  }

  lemma {:induction false} WithoutDistinct(es: seq<Pair>, k: Key)
    requires Distinct(es)
    ensures Distinct(Without(es, k))
    ensures forall i :: 0 <= i < |Without(es, k)| ==> Without(es, k)[i].0 != k
    ensures forall i :: 0 <= i < |Without(es, k)| ==> Holds(es, Without(es, k)[i].0)
  {
    hide Without, Lookup;
    if forall i :: 0 <= i < |es| ==> es[i].0 != k {
      WithoutAbsent(es, k);
    } else {
      var i :| 0 <= i < |es| && es[i].0 == k;
      WithoutAt(es, i);
      RemovedAt(es, i);
    }
  }

  lemma {:induction false} RemovedAt(es: seq<Pair>, i: nat)
    requires Distinct(es) && i < |es|
    ensures var r := RemoveAt(es, i);
            Distinct(r) && forall j :: 0 <= j < |r| ==> r[j].0 != es[i].0 && Holds(es, r[j].0)
  {
    var r := RemoveAt(es, i);
    forall j | 0 <= j < |r| ensures r[j] == es[if j < i then j else j + 1] && r[j].0 != es[i].0 && Holds(es, r[j].0) {
      assert es[if j < i then j else j + 1].0 == r[j].0;
    }
  }

  /** A store leaves at most `capacity` entries, all keys distinct, and answers for its key;
      every other key is answered as before, except that one key may go: the least recently
      used one, and only when the stored key is new and the cache was full. */
  lemma {:induction false} StoredIsLru(es: seq<Pair>, capacity: nat, k: Key, v: Value)
    requires Distinct(es) && |es| <= capacity && capacity > 0
    ensures var r := Stored(es, capacity, k, v);
            && Distinct(r) && |r| <= capacity
            && Lookup(r, k) == [v] && r[|r| - 1] == (k, v)
            && (forall x :: x != k && Lookup(r, x) != Lookup(es, x) ==>
                  |es| == capacity && x == es[0].0 && Lookup(r, x) == [] && !Holds(es, k))
  {
    hide Lookup, Without;
    var r := Stored(es, capacity, k, v);
    LookupHolds(es, k);
    if Holds(es, k) {
      WithoutDistinct(es, k);
      var i :| 0 <= i < |es| && es[i].0 == k;
      WithoutAt(es, i);
      forall x | x != k ensures Lookup(r, x) == Lookup(es, x) {
        AppendLookup(Without(es, k), k, v, x);
        WithoutKeeps(es, k, x);
      }
      AppendLookup(Without(es, k), k, v, k);
    } else if |es| == capacity {
      WithoutAt(es, 0);
      assert es[1..] == RemoveAt(es, 0);
      forall i | 0 <= i < |es| ensures es[i].0 != k { assert !Holds(es, k); }
      forall x | x != k ensures Lookup(r, x) == if x == es[0].0 then [] else Lookup(es, x) {
        AppendLookup(es[1..], k, v, x);
        WithoutKeeps(es, es[0].0, x);
      }
      AppendLookup(es[1..], k, v, k);
    } else {
      forall i | 0 <= i < |es| ensures es[i].0 != k { assert !Holds(es, k); }
      forall x ensures Lookup(r, x) == if x == k then [v] else Lookup(es, x) { AppendLookup(es, k, v, x); }
    }
  }

  // ---- eviction picks the least recent: the stack property -----------------------

  datatype Op = Put(key: Key, value: Value) | Get(key: Key) | Drop(key: Key)

  /** What an operation does to the cached entries. */
  function Step(es: seq<Pair>, capacity: nat, op: Op): seq<Pair> {
    match op
    case Put(k, v) => Stored(es, capacity, k, v)
    case Get(k) => Touched(es, k)
    case Drop(k) => Without(es, k)
  }

  /** Reference: every key ever stored and not dropped, with its last value, in order of last
      use, forgetting nothing.  A get that misses the cache uses nothing. */
  function Remembered(h: seq<Pair>, op: Op, hit: bool): seq<Pair> {
    match op
    case Put(k, v) => Without(h, k) + [(k, v)]
    case Get(k) => if hit then Touched(h, k) else h
    case Drop(k) => Without(h, k)
  }

  /** The cache after a run of operations, and the reference beside it. */
  function Cached(capacity: nat, ops: seq<Op>): (seq<Pair>, seq<Pair>) {
    if |ops| == 0 then ([], [])
    else
      var (es, h) := Cached(capacity, ops[..|ops| - 1]);
      var op := ops[|ops| - 1];
      (Step(es, capacity, op), Remembered(h, op, Lookup(es, op.key) != []))
  }

  function Newest(es: seq<Pair>, n: nat): seq<Pair> {
    if |es| <= n then es else es[|es| - n..]
  }

  lemma {:induction false} NewestRemoveInside(es: seq<Pair>, n: nat, i: nat, p: Pair)
    requires n > 0 && i < |Newest(es, n)|
    ensures var off := |es| - |Newest(es, n)|;
            RemoveAt(Newest(es, n), i) + [p] == Newest(RemoveAt(es, off + i) + [p], n)
  {
    var w := Newest(es, n);
    var off := |es| - |w|;
    assert RemoveAt(es, off + i)[off..] == RemoveAt(w, i);
    assert (RemoveAt(es, off + i) + [p])[off..] == RemoveAt(es, off + i)[off..] + [p];
  }

  lemma {:induction false} NewestAppend(es: seq<Pair>, n: nat, p: Pair)
    requires n > 0
    ensures Newest(es + [p], n) == if |es| >= n then Newest(es, n)[1..] + [p] else Newest(es, n) + [p]
  {
    if |es| >= n {
      var off := |es| - n;
      assert (es + [p])[off + 1..] == es[off + 1..] + [p];
      assert Newest(es, n)[1..] == es[off + 1..];
    }
  }

  lemma {:induction false} NewestDistinct(es: seq<Pair>, n: nat)
    requires Distinct(es)
    ensures var w := Newest(es, n);
            && |w| == (if |es| <= n then |es| else n) && Distinct(w)
            && (forall i :: 0 <= i < |w| ==> w[i] == es[|es| - |w| + i])
            && (forall j :: |es| - |w| <= j < |es| ==> Holds(w, es[j].0))
  {
    var w := Newest(es, n);
    forall j | |es| - |w| <= j < |es| ensures Holds(w, es[j].0) {
      assert w[j - (|es| - |w|)].0 == es[j].0;
    }
  }

  lemma {:induction false} RemovedDistinct(h: seq<Pair>, k: Key, v: Value)
    requires Distinct(h)
    ensures Distinct(Without(h, k)) && Distinct(Without(h, k) + [(k, v)])
  {
    hide Without;
    WithoutDistinct(h, k);
  }

  /** Where an entry of the newest n sits in the whole list. */
  lemma {:induction false} NewestAt(h: seq<Pair>, n: nat, i: nat)
    requires Distinct(h) && n <= |h| && i < n
    ensures var es := Newest(h, n); var k := es[i].0;
            && |es| == n && k == h[|h| - n + i].0
            && Without(es, k) == RemoveAt(es, i) && Without(h, k) == RemoveAt(h, |h| - n + i)
            && Lookup(es, k) == Lookup(h, k) == [es[i].1]
  {
    hide Without, Lookup, Newest, Distinct, RemoveAt, Holds;
    NewestDistinct(h, n);
    WithoutAt(Newest(h, n), i);
    WithoutAt(h, |h| - n + i);
  }

  /** Taking out an entry of the newest n leaves the newest n - 1. */
  lemma {:induction false} DropInside(h: seq<Pair>, n: nat, i: nat)
    requires Distinct(h) && n <= |h| && i < n
    ensures Without(Newest(h, n), Newest(h, n)[i].0) == Newest(Without(h, Newest(h, n)[i].0), n - 1)
  {
    hide Without, Lookup, Distinct;
    NewestAt(h, n, i);
    CutInside(h, |h| - n, i);
  }

  lemma {:induction false} CutInside(h: seq<Pair>, off: nat, i: nat)
    requires off + i < |h|
    ensures RemoveAt(h, off + i)[off..] == RemoveAt(h[off..], i) && h[off..][i] == h[off + i]
  {
  }

  lemma {:induction false} CutBefore(h: seq<Pair>, off: nat, i: nat)
    requires i < off <= |h|
    ensures RemoveAt(h, i)[off - 1..] == h[off..]
  {
  }

  lemma {:induction false} NewestIs(h: seq<Pair>, n: nat)
    requires n <= |h|
    ensures Newest(h, n) == h[|h| - n..]
  {
  }

  lemma {:induction false} OutsideNewest(h: seq<Pair>, n: nat, i: nat)
    requires n <= |h| && i < |h|
    ensures i >= |h| - n ==> Holds(h[|h| - n..], h[i].0)
  {
    assert i >= |h| - n ==> h[|h| - n..][i - (|h| - n)] == h[i];
  }

  /** Taking out any other entry leaves the newest n alone. */
  lemma {:induction false} DropOutside(h: seq<Pair>, n: nat, k: Key)
    requires Distinct(h) && n <= |h| && !Holds(Newest(h, n), k)
    ensures n <= |Without(h, k)| && Newest(Without(h, k), n) == Newest(h, n)
    ensures |Without(h, k)| == |h| - (if Holds(h, k) then 1 else 0)
  {
    hide Without, Lookup, Distinct, Newest, RemoveAt;
    NewestIs(h, n);
    if Holds(h, k) {
      var i :| 0 <= i < |h| && h[i].0 == k;
      WithoutAt(h, i);
      OutsideNewest(h, n, i);
      CutBefore(h, |h| - n, i);
      RemovedSize(h, i);
      NewestIs(RemoveAt(h, i), n);
    } else {
      WithoutAbsent(h, k);
    }
  }

  /** The cached entries are the most recently used of all; without drops, as many as fit. */
  ghost predicate MostRecent(es: seq<Pair>, h: seq<Pair>, capacity: nat, drops: bool) {
    && Distinct(h) && |es| <= |h| && |es| <= capacity && es == Newest(h, |es|)
    && (!drops ==> |es| == if |h| < capacity then |h| else capacity)
  }

  /** Storing a key that is cached keeps the number of entries. */
  lemma {:induction false} StoreHit(es: seq<Pair>, h: seq<Pair>, capacity: nat, drops: bool, i: nat, v: Value)
    requires MostRecent(es, h, capacity, drops) && i < |es|
    ensures var k := es[i].0;
            MostRecent(Without(es, k) + [(k, v)], Without(h, k) + [(k, v)], capacity, drops)
  {
    hide Without, Newest, Lookup, Distinct, RemoveAt;
    var k, n := es[i].0, |es|;
    NewestAt(h, n, i);
    RemovedDistinct(h, k, v);
    NewestRemoveInside(h, n, i, (k, v));
    RemovedSize(es, i);
    RemovedSize(h, |h| - n + i);
  }

  lemma {:induction false} RemovedSize(es: seq<Pair>, i: nat)
    requires i < |es|
    ensures |RemoveAt(es, i)| == |es| - 1
  {
  }

  lemma {:induction false} StoreMiss(es: seq<Pair>, h: seq<Pair>, capacity: nat, drops: bool, k: Key, v: Value)
    requires MostRecent(es, h, capacity, drops) && !Holds(es, k) && capacity > 0
    ensures MostRecent(Stored(es, capacity, k, v), Without(h, k) + [(k, v)], capacity, drops)
  {
    hide Without, Newest, Lookup, Distinct;
    var n := |es|;
    LookupHolds(es, k);
    RemovedDistinct(h, k, v);
    DropOutside(h, n, k);
    NewestAppend(Without(h, k), if n == capacity then n else n + 1, (k, v));
    NewestFewer(Without(h, k), n);
  }

  /** Dropping the oldest of the newest n + 1. */
  lemma {:induction false} NewestFewer(h: seq<Pair>, n: nat)
    ensures |h| > n ==> |Newest(h, n + 1)| == n + 1 && Newest(h, n + 1)[1..] == Newest(h, n)
    ensures |h| <= n ==> Newest(h, n + 1) == Newest(h, n) == h
  {
  }

  lemma {:induction false} StepMostRecent(es: seq<Pair>, h: seq<Pair>, capacity: nat, drops: bool, op: Op)
    requires MostRecent(es, h, capacity, drops) && capacity > 0 && (op.Drop? ==> drops)
    ensures MostRecent(Step(es, capacity, op), Remembered(h, op, Lookup(es, op.key) != []), capacity, drops)
  {
    hide Without, Newest, Lookup, Distinct, MostRecent, RemoveAt;
    var k := op.key;
    LookupHolds(es, k);
    if Holds(es, k) {
      var i :| 0 <= i < |es| && es[i].0 == k;
      if op.Drop? {
        DropHit(es, h, capacity, i);
      } else {
        AsBefore(es, h, capacity, drops, i);
        StoreHit(es, h, capacity, drops, i, if op.Put? then op.value else es[i].1);
      }
    } else if op.Put? {
      StoreMiss(es, h, capacity, drops, k, op.value);
    } else if op.Drop? {
      DropMiss(es, h, capacity, k);
    }
  }

  lemma {:induction false} AsBefore(es: seq<Pair>, h: seq<Pair>, capacity: nat, drops: bool, i: nat)
    requires MostRecent(es, h, capacity, drops) && i < |es|
    ensures Lookup(es, es[i].0) == Lookup(h, es[i].0) == [es[i].1]
  {
    hide Lookup, Without, Newest, Distinct;
    NewestAt(h, |es|, i);
  }

  lemma {:induction false} DropHit(es: seq<Pair>, h: seq<Pair>, capacity: nat, i: nat)
    requires MostRecent(es, h, capacity, true) && i < |es|
    ensures MostRecent(Without(es, es[i].0), Without(h, es[i].0), capacity, true)
  {
    hide Without, Newest, Lookup, Distinct, RemoveAt;
    var k, n := es[i].0, |es|;
    NewestAt(h, n, i);
    DropInside(h, n, i);
    RemovedDistinct(h, k, es[i].1);
    RemovedSize(es, i);
    RemovedSize(h, |h| - n + i);
  }

  lemma {:induction false} DropMiss(es: seq<Pair>, h: seq<Pair>, capacity: nat, k: Key)
    requires MostRecent(es, h, capacity, true) && !Holds(es, k)
    ensures MostRecent(Without(es, k), Without(h, k), capacity, true)
  {
    hide Without, Newest, Lookup;
    forall i | 0 <= i < |es| ensures es[i].0 != k { assert !Holds(es, k); }
    WithoutAbsent(es, k);
    WithoutDistinct(h, k);
    DropOutside(h, |es|, k);
  }

  /** In every run of stores, gets and invalidations the cache holds exactly the most recently
      used keys, with their last values, oldest first: nothing it has given up was used more
      recently than anything it holds.  Without invalidations it holds as many as fit. */
  lemma {:induction false} HoldsMostRecent(capacity: nat, ops: seq<Op>)
    requires capacity > 0
    ensures var (es, h) := Cached(capacity, ops);
            && Distinct(h) && |es| <= |h| && |es| <= capacity && es == Newest(h, |es|)
            && ((forall i :: 0 <= i < |ops| ==> !ops[i].Drop?) ==> |es| == if |h| < capacity then |h| else capacity)
  {
    MostRecentRun(capacity, ops, exists i :: 0 <= i < |ops| && ops[i].Drop?);
  }

  lemma {:induction false} MostRecentRun(capacity: nat, ops: seq<Op>, drops: bool)
    requires capacity > 0 && (forall i :: 0 <= i < |ops| && ops[i].Drop? ==> drops)
    ensures MostRecent(Cached(capacity, ops).0, Cached(capacity, ops).1, capacity, drops)
  {
    hide Step, Remembered, Lookup;
    if |ops| > 0 {
      var n := |ops| - 1;
      MostRecentRun(capacity, ops[..n], drops);
      var (es, h) := Cached(capacity, ops[..n]);
      StepMostRecent(es, h, capacity, drops, ops[n]);
    }
  }
}

/** The recency list: doubly linked, least recently used at the head. */
module LruList {
  import opened Common
  import opened Keys
  import opened LruSpec

  class Node {
    const key: Key
    var value: Value
    var prev: Node?
    var next: Node?
    var hashNext: Node?

    constructor (key: Key, value: Value)
      ensures this.key == key && this.value == value && prev == null && next == null && hashNext == null
    {
      this.key, this.value := key, value;
      prev, next, hashNext := null, null, null;
    }
  }

  /** The links of a node between its neighbours in a sequence. */
  ghost function Before(nodes: seq<Node>, i: nat): Node?
    requires i < |nodes|
  {
    if i == 0 then null else nodes[i - 1]
  }

  ghost function After(nodes: seq<Node>, i: nat): Node?
    requires i < |nodes|
  {
    if i == |nodes| - 1 then null else nodes[i + 1]
  }

  ghost predicate NoRepeats<T>(s: seq<T>) {
    forall i, j :: 0 <= i < j < |s| ==> s[i] != s[j]
  }

  lemma {:induction false} NoRepeatsWithout<T>(s: seq<T>, i: nat)
    requires i < |s| && NoRepeats(s)
    ensures NoRepeats(RemoveAt(s, i))
  {
    var r := RemoveAt(s, i);
    forall a, b | 0 <= a < b < |r| ensures r[a] != r[b] {
      assert r[a] == s[if a < i then a else a + 1];
      assert r[b] == s[if b < i then b else b + 1];
    }
  }

  lemma {:induction false} RemoveEnds(s: seq<Node>, i: nat)
    requires i < |s|
    ensures var r := RemoveAt(s, i);
            && |r| == |s| - 1
            && (|r| > 0 ==> r[0] == if i == 0 then s[1] else s[0])
            && (|r| > 0 ==> r[|r| - 1] == if i == |s| - 1 then s[|s| - 2] else s[|s| - 1])
  {
  }

  /** Once the neighbours of node i point past it, the rest of the list is linked. */
  lemma {:induction false} RelinkedAround(was: seq<Node>, i: nat)
    requires i < |was|
    requires forall j {:trigger was[j].prev} :: 0 <= j < |was| && j != i ==>
               was[j].prev == if j == i + 1 then Before(was, i) else Before(was, j)
    requires forall j {:trigger was[j].next} :: 0 <= j < |was| && j != i ==>
               was[j].next == if j == i - 1 then After(was, i) else After(was, j)
    ensures var r := RemoveAt(was, i);
            && (forall j {:trigger r[j].prev} :: 0 <= j < |r| ==> r[j].prev == Before(r, j))
            && (forall j {:trigger r[j].next} :: 0 <= j < |r| ==> r[j].next == After(r, j))
  {
    var r := RemoveAt(was, i);
    forall j | 0 <= j < |r| ensures r[j].prev == Before(r, j) && r[j].next == After(r, j) {
      assert r[j] == was[if j < i then j else j + 1];
      if j > 0 { assert r[j - 1] == was[if j - 1 < i then j - 1 else j]; }
      if j < |r| - 1 { assert r[j + 1] == was[if j + 1 < i then j + 1 else j + 2]; }
    }
  }

  class RecencyList {
    var head: Node?
    var tail: Node?
    var size: nat
    ghost var nodes: seq<Node>

    ghost predicate Valid()
      reads this, nodes`prev, nodes`next
      ensures Valid() ==> size == |nodes| && head == (if |nodes| == 0 then null else nodes[0])
    {
      && size == |nodes| && NoRepeats(nodes)
      && head == (if |nodes| == 0 then null else nodes[0])
      && tail == (if |nodes| == 0 then null else nodes[|nodes| - 1])
      && (forall i {:trigger nodes[i].prev} :: 0 <= i < |nodes| ==> nodes[i].prev == Before(nodes, i))
      && (forall i {:trigger nodes[i].next} :: 0 <= i < |nodes| ==> nodes[i].next == After(nodes, i))
    }

    constructor ()
      ensures Valid() && nodes == []
    {
      head, tail, size, nodes := null, null, 0, [];
    }

    /** list_unlink. */
    method Unlink(node: Node, ghost i: nat)
      requires Valid() && i < |nodes| && nodes[i] == node
      modifies this, nodes`prev, nodes`next
      ensures Valid() && nodes == RemoveAt(old(nodes), i)
    {
      hide RemoveAt;
      ghost var was := nodes;
      if node.prev != null {
        node.prev.next := node.next;
      } else {
        head := node.next;
      }
      if node.next != null {
        node.next.prev := node.prev;
      } else {
        tail := node.prev;
      }
      node.prev := null;
      node.next := null;
      size := size - 1;
      nodes := RemoveAt(nodes, i);
      RelinkedAround(was, i);
      NoRepeatsWithout(was, i);
      RemoveEnds(was, i);
    }

    /** list_push_back: the node becomes the most recently used. */
    method PushBack(node: Node)
      requires Valid() && node !in nodes
      modifies this, nodes`next, node`prev, node`next
      ensures Valid() && nodes == old(nodes) + [node]
    {
      ghost var was := nodes;
      node.prev := tail;
      node.next := null;
      if tail != null {
        tail.next := node;
      } else {
        head := node;
      }
      tail := node;
      size := size + 1;
      nodes := nodes + [node];
      forall j | 0 <= j < |was|
        ensures was[j].prev == Before(was, j)
        ensures was[j].next == (if j == |was| - 1 then node else After(was, j))
      {
      }
      forall j | 0 <= j < |nodes|
        ensures nodes[j].prev == Before(nodes, j) && nodes[j].next == After(nodes, j)
      {
        if j < |was| { assert nodes[j] == was[j]; }
      }
    }
  }
}

/** The chained hash table over the same nodes. */
module LruTable {
  import opened Common
  import opened Keys
  import opened LruSpec
  import opened LruList

  /** FNV-1a over the key's bytes, 64-bit. */
  function Fnv(key: Key): bv64 {
    if |key| == 0 then 1469598103934665603
    else (Fnv(key[..|key| - 1]) ^ (key[|key| - 1] as bv64)) * 1099511628211
  }

  /** get_hash_code. */
  function HashCode(key: Key, buckets: nat): (b: nat)
    requires buckets > 0
    ensures b < buckets
  {
    (Fnv(key) as int) % buckets
  }

  /** A bucket chain: linked through hashNext, without repeats, all in the given bucket. */
  ghost predicate Chained(c: seq<Node>, first: Node?)
    reads c`hashNext
  {
    && NoRepeats(c)
    && first == (if |c| == 0 then null else c[0])
    && (forall j {:trigger c[j].hashNext} :: 0 <= j < |c| ==> c[j].hashNext == After(c, j))
  }

  ghost predicate Filed(c: seq<Node>, b: nat, buckets: nat)
    requires buckets > 0
  {
    forall n :: n in c ==> HashCode(n.key, buckets) == b
  }

  /** The first half of hash_insert: the new node in front of a chain. */
  lemma {:induction false} ChainedFront(c: seq<Node>, first: Node?, node: Node)
    requires Chained(c, first) && node !in c && node.hashNext == first
    ensures Chained([node] + c, node)
  {
    var d := [node] + c;
    forall j | 0 <= j < |d| ensures d[j].hashNext == After(d, j) {
      if j > 0 { assert d[j] == c[j - 1]; }
    }
  }

  /** After the pointer to node i was moved past it, the rest is chained. */
  lemma {:induction false} ChainedWithout(c: seq<Node>, i: nat, first: Node?)
    requires i < |c| && NoRepeats(c)
    requires first == if i > 0 then c[0] else After(c, 0)
    requires forall j {:trigger c[j].hashNext} :: 0 <= j < |c| && j != i ==>
               c[j].hashNext == if j == i - 1 then After(c, i) else After(c, j)
    ensures Chained(RemoveAt(c, i), first)
  {
    var d := RemoveAt(c, i);
    NoRepeatsWithout(c, i);
    RemoveEnds(c, i);
    forall j | 0 <= j < |d| ensures d[j].hashNext == After(d, j) {
      assert d[j] == c[if j < i then j else j + 1];
      if j < |d| - 1 { assert d[j + 1] == c[if j + 1 < i then j + 1 else j + 2]; }
    }
  }

  class Table {
    const buckets: array<Node?>
    ghost var chains: seq<seq<Node>>
    /** All nodes in the chains. */
    ghost var members: set<Node>

    ghost predicate Valid()
      reads this, buckets, members`hashNext
    {
      && 0 < buckets.Length == |chains|
      && (forall b, n :: 0 <= b < |chains| && n in chains[b] ==> n in members)
      && (forall b :: 0 <= b < |chains| ==> Filed(chains[b], b, buckets.Length))
      && (forall b :: 0 <= b < |chains| ==> Chained(chains[b], buckets[b]))
      && (forall n :: n in members ==> n in chains[HashCode(n.key, buckets.Length)])
    }

    constructor (capacity: nat)
      requires capacity > 0
      ensures Valid() && members == {} && fresh(buckets) && buckets.Length == capacity
    {
      buckets := new Node?[capacity](_ => null);
      chains := seq(capacity, _ => []);
      members := {};
    }

    /** hash_find. */
    method Find(key: Key) returns (node: Node?)
      requires Valid()
      ensures node != null ==> node in members && node.key == key
      ensures node == null ==> forall n :: n in members ==> n.key != key
    {
      hide HashCode;
      var b := HashCode(key, buckets.Length);
      assert Chained(chains[b], buckets[b]) && Filed(chains[b], b, buckets.Length);
      ghost var c := chains[b];
      node := buckets[b];
      ghost var i := 0;
      while node != null && node.key != key
        invariant 0 <= i <= |c|
        invariant node == if i < |c| then c[i] else null
        invariant forall j :: 0 <= j < i ==> c[j].key != key
        decreases |c| - i
      {
        assert c[i].hashNext == After(c, i);
        node := node.hashNext;
        i := i + 1;
      }
      if node == null {
        forall n | n in members ensures n.key != key {
          assert n in chains[HashCode(n.key, buckets.Length)];
        }
      }
    }

    /** hash_insert: at the front of the bucket. */
    method Insert(node: Node)
      requires Valid() && node !in members
      modifies this, buckets, node`hashNext
      ensures Valid() && members == old(members) + {node}
    {
      hide HashCode, NoRepeats;
      var b := HashCode(node.key, buckets.Length);
      ghost var c := chains[b];
      assert Chained(c, buckets[b]) && Filed(c, b, buckets.Length);
      node.hashNext := buckets[b];
      ChainedFront(c, buckets[b], node);
      buckets[b] := node;
      chains := chains[b := [node] + c];
      members := members + {node};
      forall a | 0 <= a < |chains| ensures Chained(chains[a], buckets[a]) && Filed(chains[a], a, buckets.Length) {
        if a != b { assert old(Chained(chains[a], buckets[a])) && old(Filed(chains[a], a, buckets.Length)); }
      }
    }

    /** hash_remove: walk the bucket to the node and splice it out. */
    method Remove(node: Node)
      requires Valid() && node in members
      modifies this, buckets, members`hashNext
      ensures Valid() && members == old(members) - {node}
    {
      hide HashCode, RemoveAt;
      var b := HashCode(node.key, buckets.Length);
      ghost var c := chains[b];
      assert Chained(c, buckets[b]) && Filed(c, b, buckets.Length);
      var prev: Node? := null;
      var curr := buckets[b];
      ghost var i := 0;
      while curr != null && curr != node
        invariant 0 <= i <= |c| && node in c[i..]
        invariant curr == if i < |c| then c[i] else null
        invariant prev == if i == 0 then null else c[i - 1]
        decreases |c| - i
      {
        assert c[i].hashNext == After(c, i);
        prev, curr := curr, curr.hashNext;
        i := i + 1;
      }
      assert node == c[i] && node.hashNext == After(c, i);
      if prev == null {
        buckets[b] := node.hashNext;
      } else {
        prev.hashNext := node.hashNext;
      }
      node.hashNext := null;
      ChainedWithout(c, i, buckets[b]);
      RemoveMembers(c, i);
      chains := chains[b := RemoveAt(c, i)];
      members := members - {node};
      forall a | 0 <= a < |chains| ensures Chained(chains[a], buckets[a]) && Filed(chains[a], a, buckets.Length) {
        if a != b {
          assert old(Chained(chains[a], buckets[a])) && old(Filed(chains[a], a, buckets.Length));
          forall n | n in chains[a] ensures n !in c {
            assert HashCode(n.key, buckets.Length) == a;
          }
        }
      }
    }
  }

  lemma {:induction false} RemoveMembers(c: seq<Node>, i: nat)
    requires i < |c| && NoRepeats(c)
    ensures forall n :: n in RemoveAt(c, i) <==> n in c && n != c[i]
  {
    var d := RemoveAt(c, i);
    forall n | n in c && n != c[i] ensures n in d {
      var j :| 0 <= j < |c| && c[j] == n;
      assert d[if j < i then j else j - 1] == n;
    }
    forall n | n in d ensures n in c && n != c[i] {
      var j :| 0 <= j < |d| && d[j] == n;
      assert d[j] == c[if j < i then j else j + 1];
    }
  }
}

/** The cache: put, fill, get and invalidate over table and list. */
module LruCache {
  import opened Common
  import opened Keys
  import opened LruSpec
  import opened LruList
  import opened LruTable

  datatype FillResult = Cached | Outdated

  ghost function PairsOf(nodes: seq<Node>): (es: seq<Pair>)
    reads nodes`value
    ensures |es| == |nodes| && forall i :: 0 <= i < |es| ==> es[i] == (nodes[i].key, nodes[i].value)
  {
    if |nodes| == 0 then []
    else PairsOf(nodes[..|nodes| - 1]) + [(nodes[|nodes| - 1].key, nodes[|nodes| - 1].value)]
  }

  ghost predicate KeysDiffer(nodes: seq<Node>) {
    forall i, j :: 0 <= i < j < |nodes| ==> nodes[i].key != nodes[j].key
  }

  class Cache {
    const table: Table
    const list: RecencyList
    const capacity: nat
    var generation: nat
    var hits: nat
    var misses: nat
    var evictions: nat

    ghost predicate Valid()
      reads table, table.buckets, table.members, list, list.nodes
    {
      && table.Valid() && list.Valid()
      && 0 < capacity && list.size <= capacity
      && (forall n :: n in list.nodes ==> n in table.members)
      && (forall n :: n in table.members ==> n in list.nodes)
      && KeysDiffer(list.nodes)
    }

    /** The cached pairs, least recently used first. */
    ghost function Entries(): seq<Pair>
      reads list, list.nodes
    {
      PairsOf(list.nodes)
    }

    constructor (capacity: nat)
      requires capacity > 0
      ensures Valid() && Entries() == [] && generation == 0 && this.capacity == capacity
      ensures fresh(table) && fresh(table.buckets) && fresh(list)
    {
      table := new Table(capacity * 2);
      list := new RecencyList();
      this.capacity := capacity;
      generation, hits, misses, evictions := 0, 0, 0, 0;
    }

    /** touch: the node at index i becomes the most recently used. */
    method Touch(node: Node, ghost i: nat)
      requires Valid() && i < |list.nodes| && list.nodes[i] == node
      modifies list, list.nodes`prev, list.nodes`next
      ensures Valid() && list.nodes == RemoveAt(old(list.nodes), i) + [node]
      ensures Entries() == RemoveAt(old(Entries()), i) + [old(Entries())[i]]
    {
      hide NoRepeats, Table.Valid, RecencyList.Valid, KeysDiffer, PairsOf;
      ghost var was := list.nodes;
      RemoveListed(was, i);
      list.Unlink(node, i);
      list.PushBack(node);
      MovedLast(was, i);
    }

    /** evict_lru. */
    method EvictLru()
      requires Valid() && list.size > 0
      modifies this`evictions, table, table.buckets, list, list.nodes`prev, list.nodes`next, table.members`hashNext
      ensures Valid() && list.nodes == old(list.nodes)[1..] && Entries() == old(Entries())[1..]
      ensures evictions == old(evictions) + 1
    {
      hide NoRepeats, Table.Valid, KeysDiffer, PairsOf, Cache.Valid;
      var victim := Oldest();
      DropNode(victim, 0);
      evictions := evictions + 1;
    }

    method Oldest() returns (node: Node)
      requires Valid() && list.size > 0
      ensures |list.nodes| > 0 && node == list.nodes[0]
    {
      return list.head;
    }

    /** The node of a key and its place in the recency list. */
    method FindNode(key: Key) returns (node: Node?, ghost i: nat)
      requires Valid()
      ensures node == null ==> !Holds(Entries(), key) && Lookup(Entries(), key) == []
      ensures node != null ==> i < |list.nodes| && list.nodes[i] == node && node.key == key && node in table.members
      ensures node != null ==> Holds(Entries(), key) && Lookup(Entries(), key) == [node.value]
                               && Without(Entries(), key) == RemoveAt(Entries(), i)
      ensures Distinct(Entries())
    {
      hide NoRepeats, Table.Valid, RecencyList.Valid, PairsOf, Lookup, Without;
      node := table.Find(key);
      i := 0;
      PairsDistinct(list.nodes);
      if node != null {
        i :| 0 <= i < |list.nodes| && list.nodes[i] == node;
        WithoutAt(Entries(), i);
      } else {
        WithoutAbsent(Entries(), key);
      }
    }

    /** lru_get: on a hit copies up to `room` bytes, reports the full length and marks the
        entry most recently used; a miss changes nothing but the counter. */
    method Get(key: Key, room: nat) returns (hit: bool, out: Value, length: nat)
      requires Valid()
      modifies this`hits, this`misses, list, list.nodes`prev, list.nodes`next
      ensures Valid()
      ensures hit <==> Lookup(old(Entries()), key) != []
      ensures hit ==> length == |Lookup(old(Entries()), key)[0]|
                      && out == Lookup(old(Entries()), key)[0][..if length < room then length else room]
      ensures Entries() == Touched(old(Entries()), key)
      ensures hits == old(hits) + (if hit then 1 else 0) && misses == old(misses) + (if hit then 0 else 1)
      ensures forall n :: n in list.nodes ==> n in old(list.nodes)
    {
      hide NoRepeats, Table.Valid, RecencyList.Valid, PairsOf, Lookup, Without, KeysDiffer, Distinct, Holds;
      var node, i := FindNode(key);
      if node == null {
        misses := misses + 1;
        return false, [], 0;
      }
      Touch(node, i);
      hits := hits + 1;
      var v := node.value;
      return true, v[..if |v| < room then |v| else room], |v|;
    }

    /** store: replace and touch, or insert, evicting the least recently used entry first
        when the cache is full. */
    method Store(key: Key, value: Value)
      requires Valid()
      modifies this`evictions, table, table.buckets, table.members, list, list.nodes
      ensures Valid() && Entries() == Stored(old(Entries()), capacity, key, value)
      ensures evictions == old(evictions) +
                (if !Holds(old(Entries()), key) && |old(Entries())| == capacity then 1 else 0)
      ensures forall n :: n in list.nodes ==> n in old(list.nodes) || fresh(n)
    {
      hide NoRepeats, Table.Valid, RecencyList.Valid, PairsOf, Lookup, Without, KeysDiffer, Distinct, Holds;
      var existing, i := FindNode(key);
      if existing != null {
        Replace(existing, i, value);
        return;
      }
      var node := new Node(key, value);
      if list.size >= capacity {
        HoldsTail(Entries(), key);
        EvictLru();
      }
      AddNode(node);
    }

    /** The existing-key half of store. */
    method Replace(node: Node, ghost i: nat, value: Value)
      requires Valid() && i < |list.nodes| && list.nodes[i] == node
      modifies list, list.nodes`prev, list.nodes`next, node`value
      ensures Valid() && Entries() == RemoveAt(old(Entries()), i) + [(node.key, value)]
      ensures forall n :: n in list.nodes ==> n in old(list.nodes)
    {
      hide NoRepeats, Table.Valid, RecencyList.Valid, PairsOf, KeysDiffer;
      ghost var was := Entries();
      node.value := value;
      assert Entries() == was[i := (node.key, value)] by { NodesDiffer(list.nodes); }
      Touch(node, i);
      assert RemoveAt(was[i := (node.key, value)], i) == RemoveAt(was, i);
    }

    /** The new-key half of store: hash_insert and list_push_back. */
    method AddNode(node: Node)
      requires Valid() && list.size < capacity && node !in list.nodes && !Holds(Entries(), node.key)
      modifies table, table.buckets, node`hashNext, list, list.nodes`next, node`prev, node`next
      ensures Valid() && Entries() == old(Entries()) + [(node.key, node.value)]
      ensures list.nodes == old(list.nodes) + [node]
    {
      hide NoRepeats, Table.Valid, RecencyList.Valid, KeysDiffer, PairsOf;
      ghost var was := list.nodes;
      KeysStayDifferent(was, node);
      table.Insert(node);
      list.PushBack(node);
      assert list.nodes == was + [node];
    }

    /** lru_put: an authoritative write outdates every fill already under way. */
    method Put(key: Key, value: Value)
      requires Valid()
      modifies this`generation, this`evictions, table, table.buckets, table.members, list, list.nodes
      ensures Valid() && Entries() == Stored(old(Entries()), capacity, key, value)
      ensures generation == old(generation) + 1
      ensures forall n :: n in list.nodes ==> n in old(list.nodes) || fresh(n)
    {
      hide Valid, Stored, PairsOf;
      generation := generation + 1;
      Store(key, value);
    }

    /** lru_fill: stores only when no write has happened since the snapshot. */
    method Fill(key: Key, value: Value, snapshot: nat) returns (r: FillResult)
      requires Valid()
      modifies this`evictions, table, table.buckets, table.members, list, list.nodes
      ensures Valid() && (r.Cached? <==> generation == snapshot)
      ensures Entries() == if r.Cached? then Stored(old(Entries()), capacity, key, value) else old(Entries())
      ensures forall n :: n in list.nodes ==> n in old(list.nodes) || fresh(n)
    {
      hide Valid, Stored, PairsOf;
      if generation != snapshot {
        return Outdated;
      }
      Store(key, value);
      return Cached;
    }

    /** lru_invalidate. */
    method Invalidate(key: Key) returns (removed: bool)
      requires Valid()
      modifies this`generation, table, table.buckets, table.members`hashNext, list, list.nodes`prev, list.nodes`next
      ensures Valid() && Entries() == Without(old(Entries()), key)
      ensures removed <==> Holds(old(Entries()), key)
      ensures generation == old(generation) + 1
      ensures forall n :: n in list.nodes ==> n in old(list.nodes)
    {
      hide NoRepeats, Table.Valid, RecencyList.Valid, PairsOf, Lookup, Without, KeysDiffer, Distinct, Holds;
      generation := generation + 1;
      var node, i := FindNode(key);
      if node == null {
        WithoutAbsentHolds(Entries(), key);
        return false;
      }
      DropNode(node, i);
      return true;
    }

    /** list_unlink and hash_remove of one node. */
    method DropNode(node: Node, ghost i: nat)
      requires Valid() && i < |list.nodes| && list.nodes[i] == node
      modifies table, table.buckets, table.members`hashNext, list, list.nodes`prev, list.nodes`next
      ensures Valid() && Entries() == RemoveAt(old(Entries()), i)
      ensures list.nodes == RemoveAt(old(list.nodes), i)
    {
      hide NoRepeats, Table.Valid, RecencyList.Valid, KeysDiffer, PairsOf;
      ghost var was := list.nodes;
      RemoveListed(was, i);
      list.Unlink(node, i);
      table.Remove(node);
    }
  }

  lemma {:induction false} HoldsTail(es: seq<Pair>, k: Key)
    requires !Holds(es, k) && |es| > 0
    ensures !Holds(es[1..], k)
  {
    assert forall i :: 0 <= i < |es[1..]| ==> es[1..][i] == es[i + 1];
  }

  lemma {:induction false} WithoutAbsentHolds(es: seq<Pair>, k: Key)
    requires !Holds(es, k)
    ensures Without(es, k) == es
  {
    forall i | 0 <= i < |es| ensures es[i].0 != k {}
    WithoutAbsent(es, k);
  }

  lemma {:induction false} NodesDiffer(nodes: seq<Node>)
    requires KeysDiffer(nodes)
    ensures forall i, j :: 0 <= i < j < |nodes| ==> nodes[i] != nodes[j]
  {
  }

  lemma {:induction false} KeysStayDifferent(was: seq<Node>, node: Node)
    requires KeysDiffer(was) && !Holds(PairsOf(was), node.key)
    ensures KeysDiffer(was + [node]) && forall n :: n in was ==> n.key != node.key
  {
    hide PairsOf;
    forall j | 0 <= j < |was| ensures was[j].key != node.key { assert PairsOf(was)[j].0 == was[j].key; }
  }

  lemma {:induction false} PairsDistinct(nodes: seq<Node>)
    requires KeysDiffer(nodes)
    ensures Distinct(PairsOf(nodes))
  {
  }

  lemma {:induction false} RemoveListed(was: seq<Node>, i: nat)
    requires i < |was| && KeysDiffer(was)
    ensures forall n :: n in RemoveAt(was, i) ==> n in was && n != was[i]
    ensures forall n :: n in was && n != was[i] ==> n in RemoveAt(was, i)
    ensures KeysDiffer(RemoveAt(was, i)) && KeysDiffer(RemoveAt(was, i) + [was[i]])
    ensures was[i] !in RemoveAt(was, i)
  {
    var d := RemoveAt(was, i);
    forall j | 0 <= j < |d| ensures d[j] == was[if j < i then j else j + 1] && d[j].key != was[i].key {}
    forall n | n in was && n != was[i] ensures n in d {
      var j :| 0 <= j < |was| && was[j] == n;
      assert d[if j < i then j else j - 1] == n;
    }
  }

  lemma {:induction false} MovedLast(was: seq<Node>, i: nat)
    requires i < |was|
    ensures PairsOf(RemoveAt(was, i) + [was[i]]) == RemoveAt(PairsOf(was), i) + [PairsOf(was)[i]]
  {
  }
}
