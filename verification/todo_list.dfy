/** Listing one user's todos through the owner index (todo_index_lookup in
    api/src/todo_index.c, list_from_index and list_consider_row in api/src/todo_handlers.c). */
module TodoList {
  import opened Common
  import opened Keys
  import opened IndexKeys
  import opened Reconcile
  import Scan
  import Trees
  import Engine

  ghost predicate AscendingIds(ids: seq<Id>) {
    forall i, j :: 0 <= i < j < |ids| ==> ids[i] < ids[j]
  }

  /** The ids the index lists for a user, ascending and complete. */
  ghost predicate Listed(m: map<Key, Value>, user: Id, ids: seq<Id>) {
    AscendingIds(ids) && forall t: Id :: t in ids <==> Entry(m, Reconcile.Pair(user, t))
  }

  /** lookup_scan_cb over what the prefix scan reports. */
  method CollectIds(seen: seq<Stored>, user: Id, ghost m: map<Key, Value>) returns (ids: seq<Id>)
    requires Scan.Lists(m, UserPrefix(user), seen, Trees.TOP)
    ensures Listed(m, user, ids)
  {
    hide IndexIds, IndexKey, UserPrefix, Scan.Lists;
    ids := [];
    for n := 0 to |seen|
      invariant AscendingIds(ids)
      invariant forall t: Id :: t in ids <==> exists i :: 0 <= i < n && IndexIds(seen[i].0) == Some((user, t))
    {
      var e := IndexIds(seen[n].0);
      if e.Some? && e.value.0 == user {
        forall a | 0 <= a < |ids| ensures ids[a] < e.value.1 {
          var t := ids[a];
          assert t in ids;
          var i :| 0 <= i < n && IndexIds(seen[i].0) == Some((user, t));
          InOrder(m, seen, user, i, n, t, e.value.1);
        }
        ids := ids + [e.value.1];
      }
    }
    forall t: Id ensures t in ids <==> Entry(m, Reconcile.Pair(user, t)) { SeenIsEntry(m, seen, user, t); }
  }

  lemma {:induction false} InOrder(m: map<Key, Value>, seen: seq<Stored>, user: Id, i: nat, j: nat, s: Id, t: Id)
    requires Scan.Lists(m, UserPrefix(user), seen, Trees.TOP) && i < j < |seen|
    requires IndexIds(seen[i].0) == Some((user, s)) && IndexIds(seen[j].0) == Some((user, t))
    ensures s < t
  {
    hide IndexIds, IndexKey, UserPrefix, Rank;
    IndexKeyParses(user, s, seen[i].0);
    IndexKeyParses(user, t, seen[j].0);
    RankOrders(seen[i].0, seen[j].0);
    IndexOrder(user, s, user, t);
  }

  lemma {:induction false} SeenIsEntry(m: map<Key, Value>, seen: seq<Stored>, user: Id, t: Id)
    requires Scan.Lists(m, UserPrefix(user), seen, Trees.TOP)
    ensures (exists i :: 0 <= i < |seen| && IndexIds(seen[i].0) == Some((user, t)))
            <==> Entry(m, Reconcile.Pair(user, t))
  {
    hide IndexIds, IndexKey, UserPrefix, Rank;
    var k := IndexKey(user, t);
    IndexKeyParses(user, t, k);
    PrefixSelects(user, user, t);
    if i :| 0 <= i < |seen| && IndexIds(seen[i].0) == Some((user, t)) {
      IndexKeyParses(user, t, seen[i].0);
    }
    if k in m {
      assert Scan.Holds(seen, k);
      var i :| 0 <= i < |seen| && seen[i].0 == k;
      assert IndexIds(seen[i].0) == Some((user, t));
    }
  }

  /** todo_index_lookup: a prefix scan of the store gives the user's ids. */
  method Lookup(db: Engine.Db, user: Id) returns (ids: seq<Id>)
    requires db.Valid()
    ensures Listed(db.contents, user, ids)
  {
    hide Engine.Db.Valid, Listed;
    IndexKeyPieces(user, 0);
    assert |UserPrefix(user)| == 30;
    var never := (s: seq<Scan.Pair>) => false;
    var ok, seen := db.ScanRange(true, UserPrefix(user), never);
    ids := CollectIds(seen, user, db.contents);
  }

  // ---- one page ----------------------------------------------------------------------------------

  const ROW_ROOM: nat := MAX_VALUE_SIZE

  /** The row of an id if it is stored and names the user as its owner. */
  function OwnedRow(m: map<Key, Value>, user: Id, t: Id): Option<Value> {
    if RowKey(t) !in m then None
    else
      var v := m[RowKey(t)];
      var cut := v[..if |v| < ROW_ROOM then |v| else ROW_ROOM];
      if OwnerOf(cut) == Some(user) then Some(cut) else None
  }

  /** The user's rows among some ids, in their order. */
  function RowsOf(m: map<Key, Value>, user: Id, ids: seq<Id>): seq<Value> {
    if |ids| == 0 then []
    else
      var front := RowsOf(m, user, ids[..|ids| - 1]);
      match OwnedRow(m, user, ids[|ids| - 1])
      case Some(v) => front + [v]
      case None => front
  }

  function Selected(vs: seq<Value>, matches: Value -> bool): seq<Value> {
    if |vs| == 0 then []
    else
      var front := Selected(vs[..|vs| - 1], matches);
      if matches(vs[|vs| - 1]) then front + [vs[|vs| - 1]] else front
  }

  /** The requested page of a list: skip `offset`, then at most `limit`, all when negative. */
  function Page(vs: seq<Value>, offset: nat, limit: int): seq<Value> {
    var from := if offset < |vs| then vs[offset..] else [];
    if 0 <= limit < |from| then from[..limit] else from
  }

  /** One more row at the end of a list changes its page as list_consider_row does. */
  lemma {:induction false} PageGrows(vs: seq<Value>, v: Value, offset: nat, limit: int)
    ensures Page(vs + [v], offset, limit) ==
            if |vs| < offset || (limit >= 0 && |Page(vs, offset, limit)| >= limit) then Page(vs, offset, limit)
            else Page(vs, offset, limit) + [v]
  {
    if |vs| < offset {
    } else if |vs| == offset {
      assert (vs + [v])[offset..] == [v];
    } else {
      assert (vs + [v])[offset..] == vs[offset..] + [v];
    }
  }

  /** The id's row is stored, names the user as its owner, and passes the filter. */
  ghost predicate Wants(m: map<Key, Value>, user: Id, t: Id, matches: Value -> bool) {
    RowKey(t) in m && OwnerOf(m[RowKey(t)]) == Some(user) && matches(m[RowKey(t)])
  }

  /** The positions, in order, of the ids whose rows are wanted. */
  ghost predicate Picks(m: map<Key, Value>, user: Id, ids: seq<Id>, matches: Value -> bool, at: seq<nat>) {
    && (forall i, j :: 0 <= i < j < |at| ==> at[i] < at[j])
    && (forall j :: 0 <= j < |at| ==> at[j] < |ids| && RowKey(ids[at[j]]) in m)
    && (forall i :: 0 <= i < |ids| ==> (i in at <==> Wants(m, user, ids[i], matches)))
  }

  /** The page holds the rows of those ids from `offset` on, `limit` of them unless negative, and
      all there are if they are fewer. */
  ghost predicate PageOf(m: map<Key, Value>, ids: seq<Id>, at: seq<nat>, offset: nat, limit: int, page: seq<Value>)
    requires forall j :: 0 <= j < |at| ==> at[j] < |ids| && RowKey(ids[at[j]]) in m
  {
    var left := if offset < |at| then |at| - offset else 0;
    && |page| == (if 0 <= limit < left then limit else left)
    && forall k :: 0 <= k < |page| ==> page[k] == m[RowKey(ids[at[offset + k]])]
  }

  lemma {:induction false} OwnedWants(m: map<Key, Value>, user: Id, t: Id, matches: Value -> bool)
    requires SmallValues(m)
    ensures var row := OwnedRow(m, user, t);
            Wants(m, user, t, matches) <==> row.Some? && row.value == m[RowKey(t)] && matches(row.value)
    ensures OwnedRow(m, user, t).Some? ==> RowKey(t) in m && OwnedRow(m, user, t).value == m[RowKey(t)]
  {
    hide OwnerOf;
    if RowKey(t) in m {
      var v := m[RowKey(t)];
      assert v[..|v|] == v;
    }
  }

  /** The filtered rows are those of the wanted ids: each once, none besides, in order. */
  lemma {:induction false} SelectedRows(m: map<Key, Value>, user: Id, ids: seq<Id>, matches: Value -> bool)
    returns (at: seq<nat>)
    requires SmallValues(m)
    ensures Picks(m, user, ids, matches, at)
    ensures var all := Selected(RowsOf(m, user, ids), matches);
            |all| == |at| && forall j :: 0 <= j < |all| ==> all[j] == m[RowKey(ids[at[j]])]
    decreases |ids|
  {
    hide OwnedRow, Wants, SmallValues;
    at := [];
    if |ids| > 0 {
      var n := |ids| - 1;
      var front, t := ids[..n], ids[n];
      var rows := RowsOf(m, user, front);
      at := SelectedRows(m, user, front, matches);
      OwnedWants(m, user, t, matches);
      assert forall i :: 0 <= i < n ==> front[i] == ids[i];
      var row := OwnedRow(m, user, t);
      if row.Some? { assert (rows + [row.value])[..|rows|] == rows; }
      if Wants(m, user, t, matches) { at := at + [n]; }
    }
  }

  lemma {:induction false} PageRows(m: map<Key, Value>, ids: seq<Id>, at: seq<nat>, all: seq<Value>,
                                    offset: nat, limit: int)
    requires forall j :: 0 <= j < |at| ==> at[j] < |ids| && RowKey(ids[at[j]]) in m
    requires |all| == |at| && forall j :: 0 <= j < |all| ==> all[j] == m[RowKey(ids[at[j]])]
    ensures PageOf(m, ids, at, offset, limit, Page(all, offset, limit))
  {
  }

  lemma {:induction false} ValuesSmall(db: Engine.Db)
    requires db.Valid()
    ensures SmallValues(db.contents)
  {
    forall k | k in db.contents ensures |db.contents[k]| <= ROW_ROOM { db.ValueFits(k); }
  }

  /** list_from_index when a filter has to read every row: the requested page of the rows that
      are stored, the user's, and pass the filter, and how many of them there are. */
  method ListFiltered(db: Engine.Db, user: Id, ids: seq<Id>, matches: Value -> bool, offset: nat, limit: int)
    returns (page: seq<Value>, matched: nat)
    requires db.Valid()
    ensures var all := Selected(RowsOf(db.contents, user, ids), matches);
            page == Page(all, offset, limit) && matched == |all|
    ensures exists at :: Picks(db.contents, user, ids, matches, at)
                         && PageOf(db.contents, ids, at, offset, limit, page) && matched == |at|
  {
    hide Engine.Db.Valid, OwnedRow, Page, SmallValues, Picks, PageOf;
    ghost var m := db.contents;
    page, matched := [], 0;
    EmptyPage(offset, limit);
    for i := 0 to |ids|
      invariant var all := Selected(RowsOf(m, user, ids[..i]), matches);
                page == Page(all, offset, limit) && matched == |all|
    {
      assert ids[..i + 1][..i] == ids[..i];
      ghost var rows := RowsOf(m, user, ids[..i]);
      var row := ReadOwned(db, user, ids[i]);
      if row.Some? {
        assert (rows + [row.value])[..|rows|] == rows;
        if matches(row.value) {
          PageGrows(Selected(rows, matches), row.value, offset, limit);
          var index := matched;
          matched := matched + 1;
          if index >= offset && !(limit >= 0 && |page| >= limit) {
            page := page + [row.value];
          }
        }
      }
    }
    assert ids[..|ids|] == ids;
    ValuesSmall(db);
    ghost var at := PageIs(m, user, ids, matches, offset, limit);
  }

  lemma {:induction false} PageIs(m: map<Key, Value>, user: Id, ids: seq<Id>, matches: Value -> bool,
                                  offset: nat, limit: int)
    returns (at: seq<nat>)
    requires SmallValues(m)
    ensures var all := Selected(RowsOf(m, user, ids), matches);
            && Picks(m, user, ids, matches, at) && |all| == |at|
            && PageOf(m, ids, at, offset, limit, Page(all, offset, limit))
  {
    hide SmallValues, Page, RowsOf, Selected, PageOf;
    at := SelectedRows(m, user, ids, matches);
    PageRows(m, ids, at, Selected(RowsOf(m, user, ids), matches), offset, limit);
  }

  lemma {:induction false} EmptyPage(offset: nat, limit: int)
    ensures Page([], offset, limit) == []
  {
  }

  /** db_search for the row of an id, and the ownership check on what it returns. */
  method ReadOwned(db: Engine.Db, user: Id, t: Id) returns (r: Option<Value>)
    requires db.Valid()
    ensures r == OwnedRow(db.contents, user, t)
  {
    var ok, v, length := db.Search(true, RowKey(t), ROW_ROOM);
    if !ok || OwnerOf(v) != Some(user) {
      return None;
    }
    return Some(v);
  }

  function Take(vs: seq<Value>, limit: int): seq<Value> {
    if 0 <= limit < |vs| then vs[..limit] else vs
  }

  /** list_from_index without a filter: only the rows of the page are read, and the total is
      the number of entries. */
  method ListPage(db: Engine.Db, user: Id, ids: seq<Id>, offset: nat, limit: int)
    returns (page: seq<Value>, matched: nat)
    requires db.Valid()
    ensures matched == |ids|
    ensures page == Take(RowsOf(db.contents, user, if offset < |ids| then ids[offset..] else []), limit)
    ensures var left := if offset < |ids| then ids[offset..] else [];
            exists at :: Picks(db.contents, user, left, _ => true, at) && PageOf(db.contents, left, at, 0, limit, page)
  {
    hide Engine.Db.Valid, OwnedRow, SmallValues, Picks, PageOf;
    ghost var m := db.contents;
    page, matched := [], |ids|;
    var i := 0;
    while i < |ids|
      invariant 0 <= i <= |ids|
      invariant i <= offset ==> page == []
      invariant i > offset ==> page == RowsOf(m, user, ids[offset..i])
      invariant limit >= 0 ==> |page| <= limit
    {
      if i >= offset {
        if limit >= 0 && |page| >= limit {
          break;
        }
        assert ids[offset..i + 1][..i - offset] == ids[offset..i];
        var row := ReadOwned(db, user, ids[i]);
        if row.Some? {
          page := page + [row.value];
        }
      }
      i := i + 1;
    }
    if offset < |ids| {
      if i < |ids| {
        RowsPrefix(m, user, ids[offset..], if i < offset then 0 else i - offset);
        assert i >= offset ==> ids[offset..][..i - offset] == ids[offset..i];
      } else {
        assert ids[offset..i] == ids[offset..];
      }
    }
    ValuesSmall(db);
    ghost var at := TakeIs(m, user, if offset < |ids| then ids[offset..] else [], limit);
  }

  lemma {:induction false} TakeIs(m: map<Key, Value>, user: Id, ids: seq<Id>, limit: int) returns (at: seq<nat>)
    requires SmallValues(m)
    ensures Picks(m, user, ids, _ => true, at) && PageOf(m, ids, at, 0, limit, Take(RowsOf(m, user, ids), limit))
  {
    hide SmallValues, RowsOf, Picks, PageOf, Selected;
    at := PageIs(m, user, ids, _ => true, 0, limit);
    SelectedAll(RowsOf(m, user, ids), _ => true);
    var all := RowsOf(m, user, ids);
    assert all[0..] == all && Page(all, 0, limit) == Take(all, limit);
  }

  lemma {:induction false} RowsPrefix(m: map<Key, Value>, user: Id, ids: seq<Id>, n: nat)
    requires n <= |ids|
    ensures RowsOf(m, user, ids[..n]) <= RowsOf(m, user, ids)
    decreases |ids|
  {
    hide OwnedRow;
    if n < |ids| {
      assert ids[..|ids| - 1][..n] == ids[..n];
      RowsPrefix(m, user, ids[..|ids| - 1], n);
    } else {
      assert ids[..n] == ids;
    }
  }

  // ---- with an exact index the short cut changes nothing ---------------------------------------------

  ghost predicate SmallValues(m: map<Key, Value>) {
    forall k :: k in m ==> |m[k]| <= ROW_ROOM
  }

  lemma {:induction false} ListedAreOwned(m: map<Key, Value>, user: Id, ids: seq<Id>, t: Id)
    requires Exact(m) && Canonical(m) && SmallValues(m) && Listed(m, user, ids) && t in ids
    ensures OwnedRow(m, user, t).Some?
  {
    hide RowId, OwnerOf, IndexKey;
    var p := Reconcile.Pair(user, t);
    assert Entry(m, p) && Wanted(m, p);
    var k :| k in m && Calls((k, m[k]), p);
    assert k == RowKey(t);
    assert m[k][..|m[k]|] == m[k];
  }

  lemma {:induction false} AllOwned(m: map<Key, Value>, user: Id, ids: seq<Id>, n: nat)
    requires n <= |ids| && forall t :: t in ids ==> OwnedRow(m, user, t).Some?
    ensures |RowsOf(m, user, ids)| == |ids|
    ensures RowsOf(m, user, ids[n..]) == RowsOf(m, user, ids)[n..]
    decreases |ids|
  {
    hide OwnedRow;
    if |ids| == 0 {
      assert ids[n..] == [];
    } else {
      var front, last := ids[..|ids| - 1], ids[|ids| - 1];
      assert last in ids && forall t :: t in front ==> t in ids;
      if n == |ids| {
        AllOwned(m, user, front, 0);
        assert ids[n..] == [];
      } else {
        AllOwned(m, user, front, n);
        assert ids[n..][..|ids| - 1 - n] == front[n..];
      }
    }
  }

  lemma {:induction false} SelectedAll(vs: seq<Value>, matches: Value -> bool)
    requires forall v :: matches(v)
    ensures Selected(vs, matches) == vs
  {
    if |vs| > 0 {
      SelectedAll(vs[..|vs| - 1], matches);
      assert vs == vs[..|vs| - 1] + [vs[|vs| - 1]];
    }
  }

  /** With an exact index the unfiltered page, which reads only its own rows, is the page and
      total that reading and counting every row gives. */
  lemma {:induction false} FastPageIsSlowPage(m: map<Key, Value>, user: Id, ids: seq<Id>, offset: nat, limit: int,
                                              matches: Value -> bool)
    requires Exact(m) && Canonical(m) && SmallValues(m) && Listed(m, user, ids) && forall v :: matches(v)
    ensures var all := Selected(RowsOf(m, user, ids), matches);
            && Take(RowsOf(m, user, if offset < |ids| then ids[offset..] else []), limit) == Page(all, offset, limit)
            && |ids| == |all|
  {
    hide Exact, Canonical, SmallValues, Listed, OwnedRow;
    forall t | t in ids ensures OwnedRow(m, user, t).Some? { ListedAreOwned(m, user, ids, t); }
    SelectedAll(RowsOf(m, user, ids), matches);
    AllOwned(m, user, ids, if offset < |ids| then offset else 0);
  }

  /** So it is for every sound database: the size limit on values is its own. */
  lemma {:induction false} FastPageOfDatabase(db: Engine.Db, user: Id, ids: seq<Id>, offset: nat, limit: int,
                                              matches: Value -> bool)
    requires db.Valid() && Exact(db.contents) && Canonical(db.contents) && Listed(db.contents, user, ids)
    requires forall v :: matches(v)
    ensures var m := db.contents;
            var all := Selected(RowsOf(m, user, ids), matches);
            && Take(RowsOf(m, user, if offset < |ids| then ids[offset..] else []), limit) == Page(all, offset, limit)
            && |ids| == |all|
  {
    ValuesSmall(db);
    FastPageIsSlowPage(db.contents, user, ids, offset, limit, matches);
  }

  /** And the rows are those the full scan would have kept. */
  lemma {:induction false} SameRowsAsFullScan(m: map<Key, Value>, user: Id, ids: seq<Id>, k: Key)
    requires Exact(m) && Canonical(m) && Listed(m, user, ids)
    ensures k in m && RowId(k).Some? && OwnerOf(m[k]) == Some(user)
            <==> exists t: Id :: t in ids && k == RowKey(t)
  {
    hide OwnerOf, IndexKey, RowId;
    if k in m && RowId(k).Some? && OwnerOf(m[k]) == Some(user) {
      var t := RowId(k).value;
      assert Calls((k, m[k]), Reconcile.Pair(user, t)) && Wanted(m, Reconcile.Pair(user, t));
      assert t in ids && k == RowKey(t);
    }
    if t: Id :| t in ids && k == RowKey(t) {
      assert Entry(m, Reconcile.Pair(user, t)) && Wanted(m, Reconcile.Pair(user, t));
      var r :| r in m && Calls((r, m[r]), Reconcile.Pair(user, t));
      assert r == RowKey(t);
    }
  }
}
