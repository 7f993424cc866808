/** Ordered scans along the leaf chain (scan_range in storage/src/db.c). */
module Scan {
  import opened Common
  import opened Keys
  import opened Pages
  import opened Trees
  import opened Contents
  import opened Routing

  type Pair = (Key, Value)

  ghost predicate Holds(seen: seq<Pair>, k: Key) {
    exists i :: 0 <= i < |seen| && seen[i].0 == k
  }

  /** seen lists, in ascending order and once each, exactly the pairs of m that start with
      the prefix and rank at or below a bound. */
  ghost predicate Lists(m: map<Key, Value>, prefix: Key, seen: seq<Pair>, upto: real) {
    && (forall i, j :: 0 <= i < j < |seen| ==> Rank(seen[i].0) < Rank(seen[j].0))
    && (forall i :: 0 <= i < |seen| ==>
          && seen[i].0 in m && m[seen[i].0] == seen[i].1
          && prefix <= seen[i].0 && Rank(seen[i].0) <= upto)
    && (forall k :: k in m && prefix <= k && Rank(k) <= upto ==> Holds(seen, k))
  }

  /** The callback did not ask to stop before the last pair. */
  ghost predicate Unstopped(halt: seq<Pair> -> bool, seen: seq<Pair>) {
    forall n :: 0 < n < |seen| ==> !halt(seen[..n])
  }

  /** What a scan reports: everything under the prefix, or everything up to the pair at
      which the callback asked to stop. */
  ghost predicate IsScan(m: map<Key, Value>, prefix: Key, halt: seq<Pair> -> bool, seen: seq<Pair>) {
    && Unstopped(halt, seen)
    && (if |seen| > 0 && halt(seen) then Lists(m, prefix, seen, Rank(seen[|seen| - 1].0))
        else Lists(m, prefix, seen, TOP))
  }

  /** Nothing below the prefix starts with it. */
  lemma {:induction false} ListsNothing(m: map<Key, Value>, prefix: Key, upto: real)
    requires upto < Rank(prefix)
    ensures Lists(m, prefix, [], upto)
  {
    forall k | k in m && prefix <= k ensures !(Rank(k) <= upto) {
      PrefixRank(prefix, k);
    }
  }

  /** No key of the map lies strictly between two bounds: the list is unchanged. */
  lemma {:induction false} ListsWiden(m: map<Key, Value>, prefix: Key, seen: seq<Pair>, a: real, b: real)
    requires Lists(m, prefix, seen, a) && a <= b
    requires forall k :: k in m && a < Rank(k) <= b ==> !(prefix <= k)
    ensures Lists(m, prefix, seen, b)
  {
  }

  /** One more pair, next in order. */
  lemma {:induction false} ListsExtend(m: map<Key, Value>, prefix: Key, seen: seq<Pair>, a: real, k: Key)
    requires Lists(m, prefix, seen, a) && k in m && prefix <= k && a < Rank(k)
    requires forall x :: x in m && a < Rank(x) <= Rank(k) ==> x == k
    ensures Lists(m, prefix, seen + [(k, m[k])], Rank(k))
  {
    var s := seen + [(k, m[k])];
    forall x | x in m && prefix <= x && Rank(x) <= Rank(k) ensures Holds(s, x) {
      HoldsMore(seen, (k, m[k]), x);
    }
  }

  lemma {:induction false} HoldsMore(seen: seq<Pair>, p: Pair, x: Key)
    ensures Holds(seen, x) || x == p.0 ==> Holds(seen + [p], x)
  {
    var s := seen + [p];
    if i :| 0 <= i < |seen| && seen[i].0 == x { assert s[i].0 == x; }
    if x == p.0 { assert s[|seen|].0 == x; }
  }

  /** The bound reached before entry i of a leaf. */
  ghost function Before(es: seq<Entry>, s: Span, i: nat): real
    requires i <= |es|
  {
    if i == 0 then s.lo else Rank(es[i - 1].key)
  }

  ghost predicate SoundLeaf(es: seq<Entry>, s: Span, m: map<Key, Value>) {
    && s.lo < s.hi <= TOP && Sorted(es) && LeafAgrees(es, s, m)
    && (forall i :: 0 <= i < |es| ==> s.lo < Rank(es[i].key) <= s.hi)
  }

  /** Between two neighbouring entries of a leaf the map has no key. */
  lemma {:induction false} NoGap(es: seq<Entry>, s: Span, m: map<Key, Value>, i: nat, x: Key)
    requires SoundLeaf(es, s, m) && i <= |es| && x in m && Before(es, s, i) < Rank(x)
    requires Rank(x) <= if i < |es| then Rank(es[i].key) else s.hi
    ensures i < |es| && x == es[i].key
  {
    assert s.lo <= Before(es, s, i);
    if i < |es| { assert Rank(es[i].key) <= s.hi; }
    assert HasKey(es, x);
    var j :| 0 <= j < |es| && es[j].key == x;
    SortedPair(es, j, i - 1);
    SortedPair(es, i, j);
  }

  lemma {:induction false} ListsEntry(es: seq<Entry>, s: Span, m: map<Key, Value>, prefix: Key, seen: seq<Pair>, i: nat)
    requires SoundLeaf(es, s, m) && i < |es| && Lists(m, prefix, seen, Before(es, s, i)) && prefix <= es[i].key
    ensures Lists(m, prefix, seen + [(es[i].key, es[i].value)], Before(es, s, i + 1))
    ensures Before(es, s, i + 1) == Rank(es[i].key)
  {
    assert m[es[i].key] == es[i].value;
    assert Before(es, s, i) < Rank(es[i].key);
    forall x | x in m && Before(es, s, i) < Rank(x) <= Rank(es[i].key) ensures x == es[i].key {
      NoGap(es, s, m, i, x);
    }
    ListsExtend(m, prefix, seen, Before(es, s, i), es[i].key);
  }

  lemma {:induction false} ListsLeaf(es: seq<Entry>, s: Span, m: map<Key, Value>, prefix: Key, seen: seq<Pair>)
    requires SoundLeaf(es, s, m) && Lists(m, prefix, seen, Before(es, s, |es|))
    ensures Lists(m, prefix, seen, s.hi)
  {
    if |es| > 0 { assert Rank(es[|es| - 1].key) <= s.hi; }
    forall x | x in m && Before(es, s, |es|) < Rank(x) ensures !(Rank(x) <= s.hi) {
      if Rank(x) <= s.hi { NoGap(es, s, m, |es|, x); }
    }
    ListsWiden(m, prefix, seen, Before(es, s, |es|), s.hi);
  }

  /** The inner loop of scan_range over one leaf.  done: the scan is over, either at the
      callback's request or at the first key outside the prefix. */
  method ScanLeaf(es: seq<Entry>, start: nat, prefix: Key, halt: seq<Pair> -> bool, before: seq<Pair>,
                  ghost s: Span, ghost m: map<Key, Value>)
    returns (seen: seq<Pair>, done: bool)
    requires SoundLeaf(es, s, m) && start <= |es|
    requires Lists(m, prefix, before, Before(es, s, start)) && Unstopped(halt, before)
    requires |before| > 0 ==> !halt(before)
    requires forall i :: start <= i < |es| ==> Rank(prefix) <= Rank(es[i].key)
    ensures Unstopped(halt, seen)
    ensures done ==> IsScan(m, prefix, halt, seen)
    ensures !done ==> Lists(m, prefix, seen, s.hi) && (|seen| > 0 ==> !halt(seen))
  {
    hide Lists, Unstopped, SoundLeaf, Before;
    seen := before;
    for i := start to |es|
      invariant Lists(m, prefix, seen, Before(es, s, i)) && Unstopped(halt, seen)
      invariant |seen| > 0 ==> !halt(seen)
    {
      if !(prefix <= es[i].key) {
        PrefixEnds(es, s, m, prefix, seen, i);
        return seen, true;
      }
      ListsEntry(es, s, m, prefix, seen, i);
      ghost var was := seen;
      seen := seen + [(es[i].key, es[i].value)];
      UnstoppedExtend(halt, was, seen[|was|]);
      if halt(seen) {
        return seen, true;
      }
    }
    ListsLeaf(es, s, m, prefix, seen);
    done := false;
  }

  lemma {:induction false} UnstoppedExtend(halt: seq<Pair> -> bool, seen: seq<Pair>, p: Pair)
    requires Unstopped(halt, seen) && (|seen| > 0 ==> !halt(seen))
    ensures Unstopped(halt, seen + [p])
  {
    var s := seen + [p];
    forall n | 0 < n < |s| ensures !halt(s[..n]) {
      assert s[..n] == seen[..n];
      if n == |seen| { assert seen[..n] == seen; }
    }
  }

  /** At the first key at or above the prefix that does not start with it, the range is over. */
  lemma {:induction false} PrefixEnds(es: seq<Entry>, s: Span, m: map<Key, Value>, prefix: Key, seen: seq<Pair>, i: nat)
    requires SoundLeaf(es, s, m) && i < |es| && Lists(m, prefix, seen, Before(es, s, i))
    requires Rank(prefix) <= Rank(es[i].key) && !(prefix <= es[i].key)
    ensures Lists(m, prefix, seen, TOP)
  {
    forall x | x in m && Before(es, s, i) < Rank(x) <= TOP ensures !(prefix <= x) {
      if Rank(x) <= Rank(es[i].key) {
        NoGap(es, s, m, i, x);
      } else {
        PrefixInterval(prefix, es[i].key, x);
      }
    }
    assert Before(es, s, i) <= TOP by { assert es[i].key in m; }
    ListsWiden(m, prefix, seen, Before(es, s, i), TOP);
  }

  /** A valid leaf is sound for its own interval. */
  lemma {:induction false} LeafIsSound(t: Tree, p: PageId, m: map<Key, Value>)
    requires Inv(t) && Agrees(t, m) && p in t.span && t.span[p].level == 0
    ensures p in t.pages && SoundLeaf(t.pages[p].entries, t.span[p], m) && Sorted(t.pages[p].entries)
    ensures ChainOk(t, p)
  {
    assert NodeOk(t, p);
    var es := t.pages[p].entries;
    assert LeafAgrees(es, t.span[p], m);
    forall i | 0 <= i < |es| ensures t.span[p].lo < Rank(es[i].key) <= t.span[p].hi {
      assert EntryOk(true, es[i], t.span[p]);
    }
  }

  /** The leaves from p on, along the chain. */
  ghost function LeavesFrom(t: Tree, p: PageId): set<PageId>
    requires p in t.span
  {
    set q | q in t.span && t.span[q].level == 0 && t.span[q].lo >= t.span[p].lo
  }

  /** A scan about to read a leaf from a position on. */
  ghost predicate ScanAt(t: Tree, m: map<Key, Value>, prefix: Key, halt: seq<Pair> -> bool, seen: seq<Pair>,
                         leaf: PageId, start: nat) {
    && Inv(t) && Agrees(t, m)
    && leaf in t.span && t.span[leaf].level == 0 && leaf in t.pages
    && start <= |t.pages[leaf].entries|
    && Lists(m, prefix, seen, Before(t.pages[leaf].entries, t.span[leaf], start))
    && Unstopped(halt, seen) && (|seen| > 0 ==> !halt(seen))
    && (forall i :: start <= i < |t.pages[leaf].entries| ==> Rank(prefix) <= Rank(t.pages[leaf].entries[i].key))
    && Rank(prefix) <= t.span[leaf].hi
  }

  /** Where a scan begins: everything before the searched position ranks below the prefix. */
  lemma {:induction false} ScanStarts(t: Tree, m: map<Key, Value>, prefix: Key, halt: seq<Pair> -> bool,
                                      leaf: PageId, start: nat)
    requires Inv(t) && Agrees(t, m) && LeafFor(t, leaf, prefix)
    requires IsPosition(t.pages[leaf].entries, prefix, start)
    ensures ScanAt(t, m, prefix, halt, [], leaf, start)
  {
    ListsNothing(m, prefix, Before(t.pages[leaf].entries, t.span[leaf], start));
  }

  /** Where a scan goes on: the next leaf holds only later keys, and fewer leaves remain. */
  lemma {:induction false} ScanMoves(t: Tree, m: map<Key, Value>, prefix: Key, halt: seq<Pair> -> bool,
                                     seen: seq<Pair>, leaf: PageId)
    requires Inv(t) && Agrees(t, m) && leaf in t.span && t.span[leaf].level == 0 && leaf in t.pages
    requires Lists(m, prefix, seen, t.span[leaf].hi) && Unstopped(halt, seen) && (|seen| > 0 ==> !halt(seen))
    requires Rank(prefix) <= t.span[leaf].hi
    ensures var next := t.pages[leaf].next;
            if next == 0 then IsScan(m, prefix, halt, seen)
            else ScanAt(t, m, prefix, halt, seen, next, 0) && LeavesFrom(t, next) < LeavesFrom(t, leaf)
  {
    LeafIsSound(t, leaf, m);
    var next := t.pages[leaf].next;
    if next != 0 {
      LeafIsSound(t, next, m);
      assert leaf in LeavesFrom(t, leaf) && leaf !in LeavesFrom(t, next);
    } else {
      assert 0 !in t.span;
    }
  }

  lemma {:induction false} ListsPair(m: map<Key, Value>, prefix: Key, a: seq<Pair>, upto: real, i: int, j: int)
    requires Lists(m, prefix, a, upto)
    ensures 0 <= i < j < |a| ==> Rank(a[i].0) < Rank(a[j].0)
  {
  }

  lemma {:induction false} ListsNonempty(m: map<Key, Value>, prefix: Key, a: seq<Pair>, b: seq<Pair>, upto: real)
    requires Lists(m, prefix, a, upto) && Lists(m, prefix, b, upto) && |a| > 0
    ensures |b| > 0
  {
    assert Holds(b, a[0].0);
  }

  /** A scan's report is determined by the map: two complete lists are the same list, in
      the order of Lt. */
  lemma {:induction false} ListsUnique(m: map<Key, Value>, prefix: Key, a: seq<Pair>, b: seq<Pair>, upto: real)
    requires Lists(m, prefix, a, upto) && Lists(m, prefix, b, upto)
    ensures a == b
    ensures forall i, j :: 0 <= i < j < |a| ==> Lt(a[i].0, a[j].0)
    decreases |a|
  {
    ListsAscend(m, prefix, a, upto);
    hide Lists;
    if |b| > 0 { ListsNonempty(m, prefix, b, a, upto); }
    if |a| > 0 {
      ListsNonempty(m, prefix, a, b, upto);
      LastAgrees(m, prefix, a, b, upto);
      var x := a[|a| - 1].0;
      DropLast(m, prefix, a, upto);
      DropLast(m, prefix, b, upto);
      ListsUnique(m - {x}, prefix, a[..|a| - 1], b[..|b| - 1], upto);
      assert a == a[..|a| - 1] + [a[|a| - 1]] && b == b[..|b| - 1] + [b[|b| - 1]];
    }
  }

  lemma {:induction false} ListsAscend(m: map<Key, Value>, prefix: Key, a: seq<Pair>, upto: real)
    requires Lists(m, prefix, a, upto)
    ensures forall i, j :: 0 <= i < j < |a| ==> Lt(a[i].0, a[j].0)
  {
    forall i, j | 0 <= i < j < |a| ensures Lt(a[i].0, a[j].0) { RankOrders(a[i].0, a[j].0); }
  }

  lemma {:induction false} LastAgrees(m: map<Key, Value>, prefix: Key, a: seq<Pair>, b: seq<Pair>, upto: real)
    requires Lists(m, prefix, a, upto) && Lists(m, prefix, b, upto) && |a| > 0 && |b| > 0
    ensures a[|a| - 1] == b[|b| - 1]
  {
    var x, y := a[|a| - 1].0, b[|b| - 1].0;
    assert Holds(b, x) && Holds(a, y);
    var i :| 0 <= i < |b| && b[i].0 == x;
    var j :| 0 <= j < |a| && a[j].0 == y;
    RankOrders(x, y);
    ListsPair(m, prefix, b, upto, i, |b| - 1);
    ListsPair(m, prefix, a, upto, j, |a| - 1);
  }

  lemma {:induction false} DropLast(m: map<Key, Value>, prefix: Key, a: seq<Pair>, upto: real)
    requires Lists(m, prefix, a, upto) && |a| > 0
    ensures Lists(m - {a[|a| - 1].0}, prefix, a[..|a| - 1], upto)
  {
    var x := a[|a| - 1].0;
    var s := a[..|a| - 1];
    forall k | k in m - {x} && prefix <= k && Rank(k) <= upto ensures Holds(s, k) {
      assert Holds(a, k);
      var i :| 0 <= i < |a| && a[i].0 == k;
      assert s[i].0 == k;
    }
    forall i | 0 <= i < |s| ensures s[i].0 in m - {x} {
      assert Rank(a[i].0) < Rank(a[|a| - 1].0);
    }
  }

  lemma {:induction false} DropSize(m: map<Key, Value>, x: Key)
    requires x in m
    ensures |m| == |m - {x}| + 1
  {
    assert m.Keys == (m - {x}).Keys + {x};
    assert |m| == |m.Keys| && |m - {x}| == |(m - {x}).Keys|;
  }

  /** db_scan: with the empty prefix the report is the whole map, once per key. */
  lemma {:induction false} EmptyPrefixListsAll(m: map<Key, Value>, seen: seq<Pair>)
    requires Lists(m, [], seen, TOP)
    ensures |seen| == |m|
    ensures forall k :: k in m <==> Holds(seen, k)
    decreases |seen|
  {
    forall k | k in m ensures Holds(seen, k) { assert [] <= k; }
    if |seen| == 0 {
      assert m.Keys == {};
    } else {
      DropLast(m, [], seen, TOP);
      EmptyPrefixListsAll(m - {seen[|seen| - 1].0}, seen[..|seen| - 1]);
      DropSize(m, seen[|seen| - 1].0);
    }
  }
}
