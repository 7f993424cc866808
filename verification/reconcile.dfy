/** Bringing the owner index back in step with the todo rows (todo_index_reconcile in
    api/src/todo_index.c). */
module Reconcile {
  import opened Common
  import opened Keys
  import opened Decimal
  import opened IndexKeys
  import Json
  import TodoRow
  import Scan
  import Trees

  /** One (owner, todo) pair. */
  datatype Pair = Pair(user: Id, id: Id)

  type Stored = (Key, Value)

  /** The owner a row names, None for a row without one. */
  function OwnerOf(v: Value): Option<Id> {
    match Json.GetUint64(v, TodoRow.USER_ID)
    case Some(u) => Some(u)
    case None => None
  }

  /** pair_compare. */
  predicate Less(p: Pair, q: Pair) {
    p.user < q.user || (p.user == q.user && p.id < q.id)
  }

  ghost predicate Ascending(ps: seq<Pair>) {
    forall i, j :: 0 <= i < j < |ps| ==> !Less(ps[j], ps[i])
  }

  ghost predicate Strict(ps: seq<Pair>) {
    forall i, j :: 0 <= i < j < |ps| ==> Less(ps[i], ps[j])
  }

  /** The store holds the index entry of the pair. */
  ghost predicate Entry(m: map<Key, Value>, p: Pair) {
    IndexKey(p.user, p.id) in m
  }

  /** A stored row calls for the pair. */
  predicate Calls(kv: Stored, p: Pair) {
    RowId(kv.0) == Some(p.id) && OwnerOf(kv.1) == Some(p.user)
  }

  ghost predicate Wanted(m: map<Key, Value>, p: Pair) {
    exists k :: k in m && Calls((k, m[k]), p)
  }

  /** The index entries are exactly the pairs the rows call for. */
  ghost predicate Exact(m: map<Key, Value>) {
    forall p: Pair :: Entry(m, p) <==> Wanted(m, p)
  }

  /** Every row sits under the key its id prints to. */
  ghost predicate Canonical(m: map<Key, Value>) {
    forall k :: k in m && RowId(k).Some? ==> k == RowKey(RowId(k).value)
  }

  /** Everything but index entries is as before. */
  ghost predicate RowsKept(m: map<Key, Value>, n: map<Key, Value>) {
    forall k :: IndexIds(k) == None ==> (k in m <==> k in n) && (k in m ==> m[k] == n[k])
  }

  // ---- sorting ---------------------------------------------------------------------------------

  /** Where a pair goes in an ascending list. */
  method Place(ps: seq<Pair>, p: Pair) returns (i: nat)
    requires Ascending(ps)
    ensures i <= |ps|
    ensures forall j :: 0 <= j < i ==> !Less(p, ps[j])
    ensures forall j :: i <= j < |ps| ==> Less(p, ps[j])
  {
    i := |ps|;
    while i > 0 && Less(p, ps[i - 1])
      invariant 0 <= i <= |ps| && forall j :: i <= j < |ps| ==> Less(p, ps[j])
    {
      i := i - 1;
    }
  }

  lemma {:induction false} Inserted(ps: seq<Pair>, p: Pair, i: nat)
    requires Ascending(ps) && i <= |ps|
    requires forall j :: 0 <= j < i ==> !Less(p, ps[j])
    requires forall j :: i <= j < |ps| ==> Less(p, ps[j])
    ensures Ascending(ps[..i] + [p] + ps[i..])
    ensures multiset(ps[..i] + [p] + ps[i..]) == multiset(ps) + multiset{p}
  {
    assert ps == ps[..i] + ps[i..];
  }

  /** What qsort with pair_compare gives: the same pairs, ascending. */
  method SortPairs(ps: seq<Pair>) returns (r: seq<Pair>)
    ensures Ascending(r) && multiset(r) == multiset(ps)
  {
    r := [];
    for n := 0 to |ps|
      invariant Ascending(r) && multiset(r) == multiset(ps[..n])
    {
      var i := Place(r, ps[n]);
      Inserted(r, ps[n], i);
      assert ps[..n + 1] == ps[..n] + [ps[n]];
      r := r[..i] + [ps[n]] + r[i..];
    }
    assert ps[..|ps|] == ps;
  }

  lemma {:induction false} SameMembers(a: seq<Pair>, b: seq<Pair>, p: Pair)
    requires multiset(a) == multiset(b)
    ensures p in a <==> p in b
  {
    assert p in a <==> p in multiset(a);
    assert p in b <==> p in multiset(b);
  }

  ghost predicate NoRepeat(ps: seq<Pair>) {
    forall i, j :: 0 <= i < j < |ps| ==> ps[i] != ps[j]
  }

  lemma {:induction false} NoRepeatCounts(ps: seq<Pair>)
    ensures NoRepeat(ps) <==> forall p :: multiset(ps)[p] <= 1
  {
    if |ps| > 0 {
      var front, last := ps[..|ps| - 1], ps[|ps| - 1];
      assert ps == front + [last];
      NoRepeatCounts(front);
      if NoRepeat(ps) {
        assert last !in front && multiset(front)[last] == 0;
      } else if NoRepeat(front) {
        var i, j :| 0 <= i < j < |ps| && ps[i] == ps[j];
        assert j == |ps| - 1 && front[i] == last && last in multiset(front);
        assert multiset(ps)[last] >= 2;
      } else {
        var p :| multiset(front)[p] > 1;
        assert multiset(ps)[p] > 1;
      }
    }
  }

  /** Without repeats, ascending is strict. */
  lemma {:induction false} SortedStrict(ps: seq<Pair>, r: seq<Pair>)
    requires NoRepeat(ps) && multiset(r) == multiset(ps) && Ascending(r)
    ensures Strict(r)
  {
    NoRepeatCounts(ps);
    NoRepeatCounts(r);
  }

  /** Strict lists with the same members are equal. */
  lemma {:induction false} StrictUnique(a: seq<Pair>, b: seq<Pair>)
    requires Strict(a) && Strict(b) && forall p :: p in a <==> p in b
    ensures a == b
    decreases |a|
  {
    assert |a| > 0 ==> a[0] in a;
    assert |b| > 0 ==> b[0] in b;
    if |a| > 0 {
      var n, m := |a| - 1, |b| - 1;
      assert a[n] in b && b[m] in a;
      assert a[n] == b[m];
      var c, d := a[..n], b[..m];
      forall p: Pair ensures p in c <==> p in d {
        Front(a, p);
        Front(b, p);
      }
      StrictUnique(c, d);
    }
  }

  lemma {:induction false} Front(a: seq<Pair>, p: Pair)
    requires |a| > 0 && Strict(a)
    ensures p in a[..|a| - 1] <==> p in a && p != a[|a| - 1]
  {
    if p in a && p != a[|a| - 1] {
      var i :| 0 <= i < |a| && a[i] == p;
      assert a[..|a| - 1][i] == p;
    }
    if p in a[..|a| - 1] {
      var i :| 0 <= i < |a| - 1 && a[..|a| - 1][i] == p;
      assert Less(a[i], a[|a| - 1]);
    }
  }

  // ---- reading the store --------------------------------------------------------------------------

  ghost predicate InStored(seen: seq<Stored>, n: nat, p: Pair)
    requires n <= |seen|
  {
    exists i :: 0 <= i < n && Calls(seen[i], p)
  }

  ghost predicate InIndex(seen: seq<Stored>, n: nat, p: Pair)
    requires n <= |seen|
  {
    exists i :: 0 <= i < n && IndexIds(seen[i].0) == Some((p.user, p.id))
  }

  ghost predicate DistinctRows(seen: seq<Stored>) {
    forall i, j :: 0 <= i < j < |seen| && RowId(seen[i].0).Some? ==> RowId(seen[i].0) != RowId(seen[j].0)
  }

  ghost predicate DistinctEntries(seen: seq<Stored>) {
    forall i, j :: 0 <= i < j < |seen| && IndexIds(seen[i].0).Some? ==> IndexIds(seen[i].0) != IndexIds(seen[j].0)
  }

  lemma {:induction false} NewRow(seen: seq<Stored>, n: nat, p: Pair)
    requires n < |seen| && Calls(seen[n], p)
    ensures DistinctRows(seen) ==> !InStored(seen, n, p)
  {
  }

  lemma {:induction false} NewEntry(seen: seq<Stored>, n: nat, p: Pair)
    requires n < |seen| && IndexIds(seen[n].0) == Some((p.user, p.id))
    ensures DistinctEntries(seen) ==> !InIndex(seen, n, p)
  {
  }

  /** reconcile_scan_cb over everything the scan reports. */
  method Collect(seen: seq<Stored>) returns (wanted: seq<Pair>, have: seq<Pair>, maxId: Id)
    ensures forall p: Pair :: p in wanted <==> InStored(seen, |seen|, p)
    ensures forall p: Pair :: p in have <==> InIndex(seen, |seen|, p)
    ensures forall i :: 0 <= i < |seen| && RowId(seen[i].0).Some? ==> RowId(seen[i].0).value <= maxId
    ensures maxId == 0 || exists i :: 0 <= i < |seen| && RowId(seen[i].0) == Some(maxId)
    ensures DistinctRows(seen) ==> NoRepeat(wanted)
    ensures DistinctEntries(seen) ==> NoRepeat(have)
  {
    hide RowId, IndexIds, OwnerOf, DistinctRows, DistinctEntries;
    wanted, have, maxId := [], [], 0;
    for n := 0 to |seen|
      invariant forall p: Pair :: p in wanted <==> InStored(seen, n, p)
      invariant forall p: Pair :: p in have <==> InIndex(seen, n, p)
      invariant forall i :: 0 <= i < n && RowId(seen[i].0).Some? ==> RowId(seen[i].0).value <= maxId
      invariant maxId == 0 || exists i :: 0 <= i < n && RowId(seen[i].0) == Some(maxId)
      invariant DistinctRows(seen) ==> NoRepeat(wanted)
      invariant DistinctEntries(seen) ==> NoRepeat(have)
    {
      var row, entry := RowId(seen[n].0), IndexIds(seen[n].0);
      RowsAreNotEntries(seen[n].0);
      if row.Some? {
        if row.value > maxId {
          maxId := row.value;
        }
        var owner := OwnerOf(seen[n].1);
        if owner.Some? {
          NewRow(seen, n, Pair(owner.value, row.value));
          wanted := wanted + [Pair(owner.value, row.value)];
        }
      } else if entry.Some? {
        NewEntry(seen, n, Pair(entry.value.0, entry.value.1));
        have := have + [Pair(entry.value.0, entry.value.1)];
      }
    }
  }

  // ---- repairing -----------------------------------------------------------------------------------

  lemma {:induction false} EntryAdded(m: map<Key, Value>, p: Pair, q: Pair)
    ensures Entry(m[IndexKey(p.user, p.id) := []], q) <==> Entry(m, q) || q == p
    ensures Entry(m - {IndexKey(p.user, p.id)}, q) <==> Entry(m, q) && q != p
  {
    hide IndexKey;
    IndexOrder(p.user, p.id, q.user, q.id);
  }

  lemma {:induction false} OnlyEntryChanged(m: map<Key, Value>, p: Pair)
    ensures RowsKept(m, m[IndexKey(p.user, p.id) := []]) && RowsKept(m, m - {IndexKey(p.user, p.id)})
  {
    hide IndexKey, IndexIds;
    IndexKeyParses(p.user, p.id, []);
  }

  /** What the repairs have achieved so far: the index holds the wanted pairs already passed
      and the present entries still to come. */
  ghost predicate Halfway(m: map<Key, Value>, wanted: seq<Pair>, have: seq<Pair>, i: nat, j: nat)
    requires i <= |wanted| && j <= |have|
  {
    && (forall p: Pair :: Entry(m, p) <==> p in wanted[..i] || p in have[j..])
    && (forall a, b :: 0 <= a < i && j <= b < |have| ==> Less(wanted[a], have[b]))
  }

  lemma {:induction false} StepBoth(m: map<Key, Value>, wanted: seq<Pair>, have: seq<Pair>, i: nat, j: nat)
    requires i < |wanted| && j < |have| && Strict(have) && Halfway(m, wanted, have, i, j) && wanted[i] == have[j]
    ensures Halfway(m, wanted, have, i + 1, j + 1)
  {
    hide Entry;
    assert wanted[..i + 1] == wanted[..i] + [wanted[i]] && have[j..] == [have[j]] + have[j + 1..];
  }

  lemma {:induction false} StepInsert(m: map<Key, Value>, wanted: seq<Pair>, have: seq<Pair>, i: nat, j: nat)
    requires i < |wanted| && j <= |have| && Strict(have) && Halfway(m, wanted, have, i, j)
    requires j < |have| ==> Less(wanted[i], have[j])
    ensures Halfway(m[IndexKey(wanted[i].user, wanted[i].id) := []], wanted, have, i + 1, j)
  {
    hide Entry, IndexKey;
    var p := wanted[i];
    var u := m[IndexKey(p.user, p.id) := []];
    assert wanted[..i + 1] == wanted[..i] + [p];
    forall q: Pair ensures Entry(u, q) <==> q in wanted[..i + 1] || q in have[j..] { EntryAdded(m, p, q); }
    forall b | j <= b < |have| ensures Less(p, have[b]) {
      if b > j { assert Less(have[j], have[b]); }
    }
  }

  /** The next wanted pair is not in the index when the wanted pairs are distinct. */
  lemma {:induction false} NotThereYet(m: map<Key, Value>, wanted: seq<Pair>, have: seq<Pair>, i: nat, j: nat)
    requires i < |wanted| && j <= |have| && Strict(have) && Halfway(m, wanted, have, i, j)
    requires j < |have| ==> Less(wanted[i], have[j])
    ensures Strict(wanted) ==> !Entry(m, wanted[i])
  {
    hide Entry;
    forall b | j <= b < |have| ensures Less(wanted[i], have[b]) {
      if b > j { assert Less(have[j], have[b]); }
    }
  }

  lemma {:induction false} StepDelete(m: map<Key, Value>, wanted: seq<Pair>, have: seq<Pair>, i: nat, j: nat)
    requires i <= |wanted| && j < |have| && Strict(have) && Halfway(m, wanted, have, i, j)
    ensures Entry(m, have[j]) && Halfway(m - {IndexKey(have[j].user, have[j].id)}, wanted, have, i, j + 1)
  {
    hide Entry;
    var p := have[j];
    forall q: Pair { EntryAdded(m, p, q); }
    assert have[j..] == [p] + have[j + 1..];
  }

  /** The shared store as reconcile sees it; every write may also fail for lack of room. */
  class Store {
    var contents: map<Key, Value>
    /** Cleared while the index may be out of step. */
    var ready: bool
    /** Writes attempted so far. */
    ghost var writes: nat

    constructor (contents: map<Key, Value>)
      ensures this.contents == contents && !ready && writes == 0
    {
      this.contents, ready, writes := contents, false, 0;
    }

    /** todo_index_insert. */
    method IndexInsert(p: Pair, room: bool) returns (ok: bool)
      modifies this`contents, this`writes
      ensures writes == old(writes) + 1
      ensures ok <==> room && !Entry(old(contents), p)
      ensures contents == if ok then old(contents)[IndexKey(p.user, p.id) := []] else old(contents)
    {
      writes := writes + 1;
      var key := IndexKey(p.user, p.id);
      if key in contents || !room {
        return false;
      }
      contents := contents[key := []];
      return true;
    }

    /** todo_index_delete. */
    method IndexDelete(p: Pair, room: bool) returns (ok: bool)
      modifies this`contents, this`writes
      ensures writes == old(writes) + 1
      ensures ok <==> room && Entry(old(contents), p)
      ensures contents == if ok then old(contents) - {IndexKey(p.user, p.id)} else old(contents)
    {
      writes := writes + 1;
      var key := IndexKey(p.user, p.id);
      if key !in contents || !room {
        return false;
      }
      contents := contents - {key};
      return true;
    }

    /** apply_index_repairs: walks both lists in step, with a transaction opened at the first
        change.  room(n): whether the n-th write finds room. */
    method ApplyRepairs(wanted: seq<Pair>, have: seq<Pair>, txnOk: bool, room: nat -> bool)
      returns (inserted: nat, deleted: nat, failed: nat)
      requires Strict(have) && forall p: Pair :: Entry(contents, p) <==> p in have
      modifies this`contents, this`writes
      ensures RowsKept(old(contents), contents)
      ensures failed == 0 ==> forall p: Pair :: Entry(contents, p) <==> p in wanted
      ensures wanted == have ==>
                inserted == deleted == failed == 0 && contents == old(contents) && writes == old(writes)
      ensures txnOk && (forall n :: room(n)) && Strict(wanted) ==> failed == 0
    {
      hide Entry, IndexKey, RowsKept, Halfway;
      inserted, deleted, failed := 0, 0, 0;
      var open, i, j, n := false, 0, 0, 0;
      StartHalfway(contents, wanted, have);
      RowsKeptSelf(contents);
      while i < |wanted| || j < |have|
        invariant 0 <= i <= |wanted| && 0 <= j <= |have|
        invariant failed == 0 ==> Halfway(contents, wanted, have, i, j)
        invariant RowsKept(old(contents), contents)
        invariant wanted == have ==> i == j && inserted == deleted == failed == 0 && contents == old(contents)
        invariant wanted == have ==> writes == old(writes)
        invariant txnOk && (forall n :: room(n)) && Strict(wanted) ==> failed == 0
        decreases |wanted| - i + |have| - j
      {
        if i < |wanted| && j < |have| && wanted[i] == have[j] {
          if failed == 0 { StepBoth(contents, wanted, have, i, j); }
          i, j := i + 1, j + 1;
          continue;
        }
        if !open {
          if !txnOk {
            failed := failed + 1;
            break;
          }
          open := true;
        }
        ghost var was := contents;
        if j >= |have| || (i < |wanted| && Less(wanted[i], have[j])) {
          OnlyEntryChanged(contents, wanted[i]);
          if failed == 0 {
            StepInsert(contents, wanted, have, i, j);
            NotThereYet(contents, wanted, have, i, j);
          }
          var ok := IndexInsert(wanted[i], room(n));
          inserted, failed := if ok then inserted + 1 else inserted, if ok then failed else failed + 1;
          i := i + 1;
        } else {
          OnlyEntryChanged(contents, have[j]);
          if failed == 0 { StepDelete(contents, wanted, have, i, j); }
          var ok := IndexDelete(have[j], room(n));
          deleted, failed := if ok then deleted + 1 else deleted, if ok then failed else failed + 1;
          j := j + 1;
        }
        RowsKeptTrans(old(contents), was, contents);
        n := n + 1;
      }
      if failed == 0 { EndHalfway(contents, wanted, have, i, j); }
    }

    /** todo_index_reconcile, given what the full scan reported and whether it got through.
        It returns 0 (ok) exactly when the scan and every repair succeeded; the highest id
        seeds the id counter. */
    method Run(seen: seq<Stored>, scanOk: bool, txnOk: bool, room: nat -> bool) returns (ok: bool, maxId: Id)
      requires scanOk ==> Scan.Lists(contents, [], seen, Trees.TOP)
      modifies this
      ensures RowsKept(old(contents), contents) && ready == ok
      ensures ok ==> forall p: Pair :: Entry(contents, p) <==> Wanted(old(contents), p)
      ensures ok ==> Exact(contents)
      ensures !scanOk ==> !ok && contents == old(contents) && writes == old(writes)
      ensures scanOk && Canonical(old(contents)) && Exact(old(contents)) ==>
                ok && contents == old(contents) && writes == old(writes)
      ensures scanOk && Canonical(old(contents)) && txnOk && (forall n :: room(n)) ==> ok
      ensures scanOk ==> forall k :: k in contents && RowId(k).Some? ==> RowId(k).value <= maxId
      ensures scanOk ==> maxId == 0 || exists k :: k in contents && RowId(k) == Some(maxId)
    {
      hide Scan.Lists, Entry, Wanted, Strict, Ascending, NoRepeat, RowsKept, Canonical,
           Exact, DistinctRows, DistinctEntries;
      hide InStored, InIndex, RowId, IndexIds;
      ready := false;
      var wanted, have;
      wanted, have, maxId := Collect(seen);
      if !scanOk {
        RowsKeptSelf(contents);
        return false, maxId;
      }
      ScanFacts(contents, seen, wanted, have, maxId);
      var w := SortPairs(wanted);
      var h := SortPairs(have);
      forall p: Pair ensures (p in w <==> p in wanted) && (p in h <==> p in have) {
        SameMembers(w, wanted, p);
        SameMembers(h, have, p);
      }
      SortedStrict(have, h);
      ExactMeansEqual(contents, wanted, w, h);
      var inserted, deleted, failed := ApplyRepairs(w, h, txnOk, room);
      KeptFacts(old(contents), contents, maxId);
      if failed == 0 { NowExact(old(contents), contents); }
      ok := failed == 0;
      ready := ok;
    }
  }

  lemma {:induction false} StartHalfway(m: map<Key, Value>, wanted: seq<Pair>, have: seq<Pair>)
    requires forall p: Pair :: Entry(m, p) <==> p in have
    ensures Halfway(m, wanted, have, 0, 0)
  {
    assert have[0..] == have;
  }

  lemma {:induction false} EndHalfway(m: map<Key, Value>, wanted: seq<Pair>, have: seq<Pair>, i: nat, j: nat)
    requires i == |wanted| && j == |have| && Halfway(m, wanted, have, i, j)
    ensures forall p: Pair :: Entry(m, p) <==> p in wanted
  {
    assert wanted[..i] == wanted;
  }

  lemma {:induction false} RowsKeptSelf(m: map<Key, Value>)
    ensures RowsKept(m, m)
  {
  }

  lemma {:induction false} RowsKeptTrans(a: map<Key, Value>, b: map<Key, Value>, c: map<Key, Value>)
    requires RowsKept(a, b) && RowsKept(b, c)
    ensures RowsKept(a, c)
  {
  }

  /** What the scan says about the store. */
  lemma {:induction false} ScanFacts(m: map<Key, Value>, seen: seq<Stored>, wanted: seq<Pair>,
                                     have: seq<Pair>, maxId: Id)
    requires Scan.Lists(m, [], seen, Trees.TOP)
    requires forall p: Pair :: p in wanted <==> InStored(seen, |seen|, p)
    requires forall p: Pair :: p in have <==> InIndex(seen, |seen|, p)
    requires forall i :: 0 <= i < |seen| && RowId(seen[i].0).Some? ==> RowId(seen[i].0).value <= maxId
    requires maxId == 0 || exists i :: 0 <= i < |seen| && RowId(seen[i].0) == Some(maxId)
    ensures forall p: Pair :: p in wanted <==> Wanted(m, p)
    ensures forall p: Pair :: p in have <==> Entry(m, p)
    ensures DistinctEntries(seen) && (Canonical(m) ==> DistinctRows(seen))
    ensures forall k :: k in m && RowId(k).Some? ==> RowId(k).value <= maxId
    ensures maxId == 0 || exists k :: k in m && RowId(k) == Some(maxId)
  {
    hide RowId, IndexIds, OwnerOf, IndexKey;
    Scan.EmptyPrefixListsAll(m, seen);
    forall p: Pair ensures InStored(seen, |seen|, p) <==> Wanted(m, p) { StoredIsWanted(m, seen, p); }
    forall p: Pair ensures InIndex(seen, |seen|, p) <==> Entry(m, p) { IndexedIsEntry(m, seen, p); }
    forall i, j | 0 <= i < j < |seen|
      ensures IndexIds(seen[i].0).Some? ==> IndexIds(seen[i].0) != IndexIds(seen[j].0)
      ensures RowId(seen[i].0).Some? && Canonical(m) ==> RowId(seen[i].0) != RowId(seen[j].0)
    {
      assert seen[i].0 != seen[j].0;
      if IndexIds(seen[i].0).Some? && IndexIds(seen[i].0) == IndexIds(seen[j].0) {
        var e := IndexIds(seen[i].0).value;
        IndexKeyParses(e.0, e.1, seen[i].0);
        IndexKeyParses(e.0, e.1, seen[j].0);
      }
    }
    forall k | k in m && RowId(k).Some? ensures RowId(k).value <= maxId {
      assert Scan.Holds(seen, k);
    }
  }

  lemma {:induction false} StoredIsWanted(m: map<Key, Value>, seen: seq<Stored>, p: Pair)
    requires Scan.Lists(m, [], seen, Trees.TOP) && forall k :: k in m <==> Scan.Holds(seen, k)
    ensures InStored(seen, |seen|, p) <==> Wanted(m, p)
  {
    hide RowId, OwnerOf;
    if InStored(seen, |seen|, p) {
      var i :| 0 <= i < |seen| && Calls(seen[i], p);
      assert seen[i] == (seen[i].0, m[seen[i].0]);
    }
    if Wanted(m, p) {
      var k :| k in m && Calls((k, m[k]), p);
      assert Scan.Holds(seen, k);
      var i :| 0 <= i < |seen| && seen[i].0 == k;
      assert seen[i] == (k, m[k]);
    }
  }

  lemma {:induction false} IndexedIsEntry(m: map<Key, Value>, seen: seq<Stored>, p: Pair)
    requires Scan.Lists(m, [], seen, Trees.TOP) && forall k :: k in m <==> Scan.Holds(seen, k)
    ensures InIndex(seen, |seen|, p) <==> Entry(m, p)
  {
    hide IndexIds, IndexKey;
    if InIndex(seen, |seen|, p) {
      var i :| 0 <= i < |seen| && IndexIds(seen[i].0) == Some((p.user, p.id));
      IndexKeyParses(p.user, p.id, seen[i].0);
    }
    if Entry(m, p) {
      var k := IndexKey(p.user, p.id);
      assert Scan.Holds(seen, k);
      var i :| 0 <= i < |seen| && seen[i].0 == k;
      IndexKeyParses(p.user, p.id, k);
    }
  }

  /** An exact index and canonical rows leave nothing to do. */
  lemma {:induction false} ExactMeansEqual(m: map<Key, Value>, wanted: seq<Pair>, w: seq<Pair>, h: seq<Pair>)
    requires forall p: Pair :: p in w <==> Wanted(m, p)
    requires forall p: Pair :: p in h <==> Entry(m, p)
    requires Strict(h) && Ascending(w) && multiset(w) == multiset(wanted)
    requires Canonical(m) ==> NoRepeat(wanted)
    ensures Canonical(m) && Exact(m) ==> w == h
    ensures Canonical(m) ==> Strict(w)
  {
    hide Entry, Wanted, Canonical;
    if Canonical(m) { SortedStrict(wanted, w); }
    if Canonical(m) && Exact(m) { StrictUnique(w, h); }
  }

  /** Rows that are kept call for the same pairs and have the same ids. */
  lemma {:induction false} KeptFacts(m: map<Key, Value>, n: map<Key, Value>, maxId: Id)
    requires RowsKept(m, n)
    requires forall k :: k in m && RowId(k).Some? ==> RowId(k).value <= maxId
    requires maxId == 0 || exists k :: k in m && RowId(k) == Some(maxId)
    ensures forall k :: k in n && RowId(k).Some? ==> RowId(k).value <= maxId
    ensures maxId == 0 || exists k :: k in n && RowId(k) == Some(maxId)
  {
    hide RowId, IndexIds;
    forall k | RowId(k).Some? ensures IndexIds(k) == None { RowsAreNotEntries(k); }
  }

  lemma {:induction false} NowExact(m: map<Key, Value>, n: map<Key, Value>)
    requires RowsKept(m, n) && forall p: Pair :: Entry(n, p) <==> Wanted(m, p)
    ensures Exact(n)
  {
    hide Entry, RowId, IndexIds, OwnerOf;
    forall p: Pair ensures Wanted(m, p) <==> Wanted(n, p) {
      forall k | RowId(k).Some? ensures IndexIds(k) == None { RowsAreNotEntries(k); }
      if Wanted(m, p) {
        var k :| k in m && Calls((k, m[k]), p);
        assert k in n && Calls((k, n[k]), p);
      }
      if Wanted(n, p) {
        var k :| k in n && Calls((k, n[k]), p);
        assert k in m && Calls((k, m[k]), p);
      }
    }
  }
}
