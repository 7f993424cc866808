/** The map a paged tree stands for, and how the tree's steps act on it.

    Every leaf answers for the keys in its interval: its entries are exactly
    the map's pairs there.  Because the intervals of the leaves partition the
    key space, one leaf decides whether a key is present. */
module Contents {
  import opened Common
  import opened Keys
  import opened Pages
  import opened Trees

  ghost predicate HasKey(es: seq<Entry>, k: Key) {
    exists i :: 0 <= i < |es| && es[i].key == k
  }

  ghost predicate LeafAgrees(es: seq<Entry>, s: Span, m: map<Key, Value>) {
    && (forall i :: 0 <= i < |es| ==> es[i].key in m && m[es[i].key] == es[i].value)
    && (forall k :: k in m && s.lo < Rank(k) <= s.hi ==> HasKey(es, k))
  }

  ghost predicate Agrees(t: Tree, m: map<Key, Value>) {
    forall p :: p in t.span && p in t.pages && t.span[p].level == 0
                ==> LeafAgrees(t.pages[p].entries, t.span[p], m)
  }

  /** Growing the root does not change the map. */
  lemma {:induction false} GrowAgrees(t: Tree, id: PageId, m: map<Key, Value>)
    requires Inv(t) && Fresh(t, id) && ROOT in t.pages && Agrees(t, m)
    ensures Agrees(Grow(t, id), m)
  {
    var r := Grow(t, id);
    forall p | p in r.span && p in r.pages && r.span[p].level == 0
      ensures LeafAgrees(r.pages[p].entries, r.span[p], m)
    {
      var o := if p == id then ROOT else p;
      assert NodeOk(t, o);
      assert LeafAgrees(t.pages[o].entries, t.span[o], m);
    }
  }

  /** Both halves of a carved leaf answer for their part of its interval. */
  lemma {:induction false} CarveHalvesAgree(p: Page, s: Span, r: PageId, mid: nat, m: map<Key, Value>)
    requires PageOk(p, s) && p.leaf && 0 < mid < |p.entries| && LeafAgrees(p.entries, s, m)
    ensures var c := CarveAt(p, mid, r);
            && LeafAgrees(c.left.entries, Span(s.level, s.lo, Rank(c.sep)), m)
            && LeafAgrees(c.right.entries, Span(s.level, Rank(c.sep), s.hi), m)
  {
    var es := p.entries;
    var c := CarveAt(p, mid, r);
    CarveSep(p, s, r, mid);
    forall k | k in m && s.lo < Rank(k) <= Rank(c.sep) ensures HasKey(c.left.entries, k) {
      assert HasKey(es, k);
      var i :| 0 <= i < |es| && es[i].key == k;
      assert c.left.entries[i].key == k;
    }
    forall k | k in m && Rank(c.sep) < Rank(k) <= s.hi ensures HasKey(c.right.entries, k) {
      assert HasKey(es, k);
      var i :| 0 <= i < |es| && es[i].key == k;
      assert c.right.entries[i - mid].key == k;
    }
  }

  /** Carving a node does not change the map. */
  lemma {:induction false} CarveAgrees(t: Tree, n: PageId, r: PageId, mid: nat, m: map<Key, Value>)
    requires CanCarve(t, n, r, mid) && Agrees(t, m)
    ensures Agrees(Carve(t, n, r, mid), m)
  {
    var u := Carve(t, n, r, mid);
    assert NodeOk(t, n);
    if t.span[n].level == 0 {
      assert LeafAgrees(t.pages[n].entries, t.span[n], m);
      CarveHalvesAgree(t.pages[n], t.span[n], r, mid, m);
    }
    forall p | p in u.span && p in u.pages && u.span[p].level == 0
      ensures LeafAgrees(u.pages[p].entries, u.span[p], m)
    {
      if p != n && p != r {
        assert NodeOk(t, p);
        assert LeafAgrees(t.pages[p].entries, t.span[p], m);
      }
    }
  }

  /** Publishing a separator does not change the map. */
  lemma {:induction false} PublishAgrees(t: Tree, p: PageId, idx: nat, sep: Key, m: map<Key, Value>)
    requires CanPublish(t, p, idx, sep) && Agrees(t, m)
    ensures Agrees(Publish(t, p, idx, sep), m)
  {
    hide LeafAgrees;
    var u := Publish(t, p, idx, sep);
    forall q | q in u.span && q in u.pages && u.span[q].level == 0
      ensures LeafAgrees(u.pages[q].entries, u.span[q], m)
    {
      assert q != p && LeafAgrees(t.pages[q].entries, t.span[q], m);
    }
  }

  /** A leaf that covers k decides membership: the position search either lands on k
      or k is absent from the whole map. */
  lemma {:induction false} LeafDecides(es: seq<Entry>, s: Span, m: map<Key, Value>, k: Key, pos: nat)
    requires Sorted(es) && LeafAgrees(es, s, m) && s.lo < Rank(k) <= s.hi && IsPosition(es, k, pos)
    ensures k in m <==> pos < |es| && es[pos].key == k
    ensures pos < |es| && es[pos].key == k ==> m[k] == es[pos].value
  {
    if k in m {
      assert HasKey(es, k);
      var i :| 0 <= i < |es| && es[i].key == k;
      assert i >= pos;
      SortedPair(es, pos, i);
    }
  }

  /** Replacing a leaf's page when the map changes only inside that leaf's interval. */
  lemma {:induction false} LeafUpdateAgrees(t: Tree, p: PageId, pg: Page, m: map<Key, Value>, m': map<Key, Value>)
    requires Inv(t) && Agrees(t, m) && p in t.span && t.span[p].level == 0
    requires LeafAgrees(pg.entries, t.span[p], m')
    requires forall k :: !(t.span[p].lo < Rank(k) <= t.span[p].hi) ==>
                           (k in m <==> k in m') && (k in m ==> m[k] == m'[k])
    ensures Agrees(t.(pages := t.pages[p := pg]), m')
  {
    var u := t.(pages := t.pages[p := pg]);
    forall q | q in u.span && q in u.pages && u.span[q].level == 0
      ensures LeafAgrees(u.pages[q].entries, u.span[q], m')
    {
      if q != p { OtherLeafAgrees(t, p, q, m, m'); }
    }
  }

  lemma {:induction false} OtherLeafAgrees(t: Tree, p: PageId, q: PageId, m: map<Key, Value>, m': map<Key, Value>)
    requires Inv(t) && Agrees(t, m) && p in t.span && t.span[p].level == 0
    requires q in t.span && q in t.pages && t.span[q].level == 0 && q != p
    requires forall k :: !(t.span[p].lo < Rank(k) <= t.span[p].hi) ==>
                           (k in m <==> k in m') && (k in m ==> m[k] == m'[k])
    ensures LeafAgrees(t.pages[q].entries, t.span[q], m')
  {
    assert Apart(t.span[p], t.span[q]);
    assert NodeOk(t, q);
    var es := t.pages[q].entries;
    assert LeafAgrees(es, t.span[q], m);
    forall i | 0 <= i < |es| ensures es[i].key in m' && m'[es[i].key] == es[i].value {
      assert EntryOk(true, es[i], t.span[q]);
    }
  }

  lemma {:induction false} LeafFacts(t: Tree, p: PageId, m: map<Key, Value>)
    requires Inv(t) && Agrees(t, m) && p in t.span && t.span[p].level == 0
    ensures p in t.pages && PageOk(t.pages[p], t.span[p]) && t.pages[p].leaf
    ensures Sorted(t.pages[p].entries) && LeafAgrees(t.pages[p].entries, t.span[p], m)
  {
    assert NodeOk(t, p);
  }

  /** A leaf after insert_kv_pair at the searched position. */
  lemma {:induction false} LeafInsertOk(pg: Page, s: Span, pos: nat, k: Key, v: Value, m: map<Key, Value>)
    requires PageOk(pg, s) && pg.leaf && LeafAgrees(pg.entries, s, m) && k !in m
    requires 1 <= |k| <= MAX_KEY_SIZE && |v| <= MAX_VALUE_SIZE
    requires s.lo < Rank(k) <= s.hi && IsPosition(pg.entries, k, pos)
    requires InsertPair(pg, pos, Entry(k, v, 0)).Some?
    ensures var q := InsertPair(pg, pos, Entry(k, v, 0)).value;
            PageOk(q, s) && q.next == pg.next && LeafAgrees(q.entries, s, m[k := v])
  {
    var es := pg.entries;
    var e := Entry(k, v, 0);
    var q := InsertPair(pg, pos, e).value;
    UsedInsert(es, pos, e);
    forall i | 0 <= i < |es| ensures es[i].key != k { assert es[i].key in m; }
    InsertSorted(es, pos, e);
    forall i | 0 <= i < |q.entries| ensures EntryOk(true, q.entries[i], s) {
      if i != pos { assert EntryOk(true, es[if i < pos then i else i - 1], s); }
    }
    InsertAgrees(es, s, pos, k, v, m);
  }

  lemma {:induction false} InsertSorted(es: seq<Entry>, pos: nat, e: Entry)
    requires Sorted(es) && IsPosition(es, e.key, pos)
    requires forall i :: 0 <= i < |es| ==> es[i].key != e.key
    ensures Sorted(InsertAt(es, pos, e))
  {
    var q := InsertAt(es, pos, e);
    forall i, j | 0 <= i < j < |q| ensures Rank(q[i].key) < Rank(q[j].key) {
      var a := if i < pos then i else i - 1;
      var b := if j < pos then j else j - 1;
      if i == pos {
        RankOrders(e.key, es[b].key);
        assert Rank(e.key) <= Rank(es[b].key);
      } else if j == pos {
        assert Rank(es[a].key) < Rank(e.key);
      } else {
        assert Rank(es[a].key) < Rank(es[b].key);
      }
    }
  }

  lemma {:induction false} InsertAgrees(es: seq<Entry>, s: Span, pos: nat, k: Key, v: Value, m: map<Key, Value>)
    requires LeafAgrees(es, s, m) && k !in m && pos <= |es|
    ensures LeafAgrees(InsertAt(es, pos, Entry(k, v, 0)), s, m[k := v])
  {
    var q := InsertAt(es, pos, Entry(k, v, 0));
    forall x | x in m[k := v] && s.lo < Rank(x) <= s.hi ensures HasKey(q, x) {
      if x == k {
        assert q[pos].key == x;
      } else {
        assert HasKey(es, x);
        var i :| 0 <= i < |es| && es[i].key == x;
        assert q[if i < pos then i else i + 1].key == x;
      }
    }
  }

  lemma {:induction false} RemoveEntries(es: seq<Entry>, pos: nat, i: nat)
    requires pos < |es| && i < |es| - 1
    ensures RemoveAt(es, pos)[i] == es[if i < pos then i else i + 1]
  {
  }

  lemma {:induction false} RemoveSorted(es: seq<Entry>, pos: nat)
    requires Sorted(es) && pos < |es|
    ensures Sorted(RemoveAt(es, pos))
  {
    var q := RemoveAt(es, pos);
    forall i, j | 0 <= i < j < |q| ensures Rank(q[i].key) < Rank(q[j].key) {
      RemoveEntries(es, pos, i);
      RemoveEntries(es, pos, j);
    }
  }

  lemma {:induction false} RemoveAgrees(es: seq<Entry>, s: Span, pos: nat, m: map<Key, Value>)
    requires Sorted(es) && LeafAgrees(es, s, m) && pos < |es|
    ensures LeafAgrees(RemoveAt(es, pos), s, m - {es[pos].key})
  {
    var q := RemoveAt(es, pos);
    var m' := m - {es[pos].key};
    forall i | 0 <= i < |q| ensures q[i].key in m' && m'[q[i].key] == q[i].value {
      RemoveEntries(es, pos, i);
      if i < pos {
        assert Rank(es[i].key) < Rank(es[pos].key);
      } else {
        assert Rank(es[pos].key) < Rank(es[i + 1].key);
      }
    }
    forall x | x in m' && s.lo < Rank(x) <= s.hi ensures HasKey(q, x) {
      assert HasKey(es, x);
      var i :| 0 <= i < |es| && es[i].key == x;
      var a := if i < pos then i else i - 1;
      RemoveEntries(es, pos, a);
      assert q[a].key == x;
    }
  }

  /** A leaf after delete_kv_pair. */
  lemma {:induction false} LeafDeleteOk(pg: Page, s: Span, pos: nat, m: map<Key, Value>)
    requires PageOk(pg, s) && pg.leaf && LeafAgrees(pg.entries, s, m) && pos < |pg.entries|
    ensures DeletePair(pg, pos).Some?
    ensures var q := DeletePair(pg, pos).value;
            PageOk(q, s) && q.next == pg.next && LeafAgrees(q.entries, s, m - {pg.entries[pos].key})
  {
    var es := pg.entries;
    var q := DeletePair(pg, pos).value;
    UsedRemove(es, pos);
    RemoveSorted(es, pos);
    RemoveAgrees(es, s, pos, m);
    forall i | 0 <= i < |q.entries| ensures EntryOk(true, q.entries[i], s) {
      RemoveEntries(es, pos, i);
      assert EntryOk(true, es[if i < pos then i else i + 1], s);
    }
  }
}
