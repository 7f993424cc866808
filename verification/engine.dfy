/** The key-value API over the paged tree (storage/src/db.c) and the page allocator
    (storage/src/pager.c). */
module Engine {
  import opened Common
  import opened Keys
  import opened Pages
  import opened Trees
  import opened Contents
  import opened Routing
  import opened Height
  import opened Scan

  const MAX_PAGES: nat := 1000000
  const BTREE_MAX_DEPTH: nat := 32

  /** Page ids an insert may use: at most four splits, each of a path of nine pages that
      may gain one. */
  const INSERT_PAGES: nat := 4 * (MAX_ROOT_LEVEL + 3)

  /** The allocator never hands out a live id, nor the same id twice. */
  ghost predicate AllocatorOk(live: set<PageId>, next: nat, free: seq<PageId>) {
    && ROOT < next <= MAX_PAGES
    && (forall p :: p in live ==> p < next)
    && (forall i :: 0 <= i < |free| ==> free[i] !in live && ROOT < free[i] < next)
    && (forall i, j :: 0 <= i < j < |free| ==> free[i] != free[j])
  }

  lemma {:induction false} AllocatorAdopts(live: set<PageId>, next: nat, free: seq<PageId>, id: PageId)
    requires AllocatorOk(live, next, free) && id < next && id !in free
    ensures AllocatorOk(live + {id}, next, free)
  {
    forall i | 0 <= i < |free| ensures free[i] !in live + {id} { assert free[i] in free; }
  }

  /** Within the page-id limit the root is at level 8 or below. */
  lemma {:induction false} Shallow(t: Tree, next: nat, free: seq<PageId>)
    requires Inv(t) && Wide(t) && AllocatorOk(t.span.Keys, next, free)
    ensures ROOT in t.span && t.span[ROOT].level <= MAX_ROOT_LEVEL
  {
    calc {
      Pow(7, 8);
      7 * Pow(7, 7);
      7 * 7 * Pow(7, 6);
      7 * 7 * 7 * Pow(7, 5);
      7 * 7 * 7 * 7 * Pow(7, 4);
      7 * 7 * 7 * 7 * 7 * Pow(7, 3);
      5764801;
    }
    HeightBound(t, next);
  }

  /** The size limits on a stored pair. */
  predicate Legal(k: Key, v: Value) {
    1 <= |k| <= MAX_KEY_SIZE && |v| <= MAX_VALUE_SIZE
  }

  /** What the leaf at the end of a descent says about a key: it holds every stored key that
      is not in an unpublished half, and none that is. */
  lemma {:induction false} LeafAnswers(t: Tree, leaf: PageId, m: map<Key, Value>, k: Key, pos: nat)
    requires Inv(t) && Agrees(t, m) && leaf in t.pages && OnWay(t, leaf, k) && t.span[leaf].level == 0
    requires IsPosition(t.pages[leaf].entries, k, pos)
    ensures var es := t.pages[leaf].entries;
            && (k in m && !Hidden(t, k, 0) <==> pos < |es| && es[pos].key == k)
            && (pos < |es| && es[pos].key == k ==> m[k] == es[pos].value)
  {
    hide Inv, Agrees, Hidden, IsPosition, LeafAgrees;
    LeafFacts(t, leaf, m);
    var es := t.pages[leaf].entries;
    if Hidden(t, k, 0) {
      if pos < |es| { assert EntryOk(true, es[pos], t.span[leaf]); }
    } else {
      LeafDecides(es, t.span[leaf], m, k, pos);
    }
  }

  class Db {
    var pages: map<PageId, Page>
    var nextPageId: nat
    var freePages: seq<PageId>

    /** What the pages stand for: see Trees and Contents. */
    ghost var span: map<PageId, Span>
    ghost var pend: map<PageId, PageId>
    ghost var contents: map<Key, Value>

    ghost function T(): Tree
      reads this
    {
      Tree(pages, span, pend)
    }

    /** Holds throughout, even while a split is half done. */
    ghost predicate Sound()
      reads this
    {
      Inv(T()) && Wide(T()) && Agrees(T(), contents) && AllocatorOk(span.Keys, nextPageId, freePages)
    }

    /** Holds between operations: sound, and every split is published. */
    ghost predicate Valid()
      reads this
    {
      Sound() && pend == map[]
    }

    ghost function RootLevel(): nat
      requires ROOT in span
      reads this
    {
      span[ROOT].level
    }

    /** Page ids that can still be handed out. */
    function Available(): int
      reads this
    {
      |freePages| + MAX_PAGES - nextPageId
    }

    /** A fresh data file: page 1 is an empty leaf. */
    constructor ()
      ensures Valid() && contents == map[] && RootLevel() == 0
    {
      pages := map[ROOT := Page(true, [], PAGE_CAPACITY, 0)];
      nextPageId := ROOT + 1;
      freePages := [];
      span := map[ROOT := Span(0, BOTTOM, TOP)];
      pend := map[];
      contents := map[];
    }

    /** allocate_page: a recycled id first, then the next unused one, 0 when none is left. */
    method AllocatePage() returns (id: PageId)
      requires Sound()
      modifies this`nextPageId, this`freePages
      ensures Sound()
      ensures old(Available()) > 0 ==> Fresh(T(), id) && id < nextPageId && id !in freePages
                                       && Available() == old(Available()) - 1
      ensures old(Available()) <= 0 ==> id == 0 && Available() == old(Available())
    {
      if |freePages| > 0 {
        id := freePages[|freePages| - 1];
        freePages := freePages[..|freePages| - 1];
      } else if nextPageId < MAX_PAGES {
        id := nextPageId;
        nextPageId := nextPageId + 1;
      } else {
        id := 0;
      }
    }

    /** descend_path: the chain of pages from the root towards k.  It succeeds exactly
        when the tree is at most BTREE_MAX_DEPTH pages deep. */
    method DescendPath(k: Key, ghost settled: nat) returns (ok: bool, path: seq<PageId>)
      requires Sound() && SettledFrom(T(), settled + 1)
      ensures ok <==> RootLevel() < BTREE_MAX_DEPTH
      ensures ok ==> |path| == RootLevel() + 1 && PathOk(T(), path, k, settled)
    {
      hide Wide, Agrees, AllocatorOk;
      path := [];
      var pageId := ROOT;
      assert NodeOk(T(), ROOT);
      for level := 0 to BTREE_MAX_DEPTH
        invariant |path| == level <= RootLevel()
        invariant PathOk(T(), path + [pageId], k, settled)
      {
        path := path + [pageId];
        assert pageId == path[level] && NodeOk(T(), pageId);
        var page := pages[pageId];
        if page.leaf {
          return true, path;
        }
        var pos := FindKeyPosition(page, k);
        var child := Child(page, pos);
        assert LinkOk(T(), pageId, pos);
        PathExtend(T(), path, k, settled, pos);
        if child == 0 || child == pageId {
          return false, path;
        }
        pageId := child;
      }
      return false, path;
    }

    /** grow_root: fails only when no page id is left. */
    method GrowRoot() returns (ok: bool, moved: PageId)
      requires Sound() && WideAt(T(), ROOT)
      modifies this
      ensures Sound() && contents == old(contents)
      ensures ok <==> old(Available()) > 0
      ensures ok ==> Fresh(old(T()), moved) && ROOT in old(pages) && T() == Grow(old(T()), moved)
                     && Available() == old(Available()) - 1
      ensures !ok ==> T() == old(T()) && Available() == old(Available())
    {
      hide Inv, Wide, Agrees, AllocatorOk;
      moved := AllocatePage();
      if moved == 0 {
        return false, moved;
      }
      GrowKeeps(T(), moved);
      GrowAgrees(T(), moved, contents);
      GrowWide(T(), moved);
      AllocatorAdopts(span.Keys, nextPageId, freePages, moved);
      pages := pages[moved := pages[ROOT]];
      pages := pages[ROOT := Page(false, [], PAGE_CAPACITY, moved)];
      span := Grow(old(T()), moved).span;
      assert span.Keys == old(span).Keys + {moved};
      return true, moved;
    }

    /** The first half of btree_split_node: allocate a right page and carve the node.  It fails
        only when no page id is left. */
    method CarveNode(n: PageId) returns (ok: bool, sep: Key, right: PageId, ghost mid: nat)
      requires Sound()
      requires n in span && n != ROOT && n in pages && SettledFrom(T(), span[n].level)
      requires |pages[n].entries| >= 2 && (span[n].level == 0 || pages[n].free < MAX_SEPARATOR)
      modifies this
      ensures Sound() && contents == old(contents)
      ensures ok <==> old(Available()) > 0
      ensures ok ==> IsSplitPoint(old(pages[n].entries), mid) && old(CanCarve(T(), n, right, mid))
      ensures ok ==> T() == Carve(old(T()), n, right, mid) && Available() == old(Available()) - 1
      ensures ok ==> sep == CarveAt(old(pages[n]), mid, right).sep
      ensures !ok ==> T() == old(T()) && Available() == old(Available())
    {
      hide Inv, Wide, Agrees, AllocatorOk;
      ok, sep, mid := true, [], 0;
      right := AllocatePage();
      if right == 0 {
        ok := false;
        return;
      }
      var carved, m := SplitPage(pages[n], right);
      mid := m;
      CarveKeeps(T(), n, right, mid);
      CarveAgrees(T(), n, right, mid, contents);
      CarveWide(T(), n, right, mid);
      AllocatorAdopts(span.Keys, nextPageId, freePages, right);
      sep := carved.value.sep;
      pages := pages[n := carved.value.left];
      pages := pages[right := carved.value.right];
      span, pend := Carve(old(T()), n, right, mid).span, Carve(old(T()), n, right, mid).pend;
      assert span.Keys == old(span).Keys + {right};
    }

    /** The last half of insert_separator: the parent, with the separator already in,
        hands the old pointer to the right half. */
    method PublishAt(p: PageId, idx: nat, sep: Key, n: PageId, right: PageId, inserted: Page)
      requires Sound() && CanPublish(T(), p, idx, sep) && n == Child(pages[p], idx) && right == pend[n]
      requires InsertPair(pages[p], idx, Entry(sep, [], n)) == Some(inserted)
      modifies this`pages, this`pend
      ensures Sound() && T() == Publish(old(T()), p, idx, sep)
    {
      hide Inv, Wide, Agrees;
      PublishKeeps(T(), p, idx, sep);
      PublishAgrees(T(), p, idx, sep, contents);
      PublishWide(T(), p, idx, sep);
      if idx < |pages[p].entries| {
        var moved := inserted.entries[idx + 1];
        pages := pages[p := inserted.(entries := inserted.entries[idx + 1 := moved.(child := right)])];
      } else {
        pages := pages[p := inserted.(next := right)];
      }
      pend := pend - {n};
    }

    /** The start of btree_split_node: the root is given a child to be split like any
        other node. */
    method PrepareSplit(x: PageId) returns (ok: bool, node: PageId)
      requires Sound() && Splittable(T(), x) && SettledFrom(T(), span[x].level)
      modifies this
      ensures Sound() && contents == old(contents)
      ensures ok <==> x != ROOT || old(Available()) > 0
      ensures ok ==> Prepared(old(T()), x, T(), node)
      ensures Available() == old(Available()) - (if ok && x == ROOT then 1 else 0)
      ensures ok ==> RootLevel() == old(RootLevel()) + (if x == ROOT then 1 else 0)
    {
      hide Inv, Wide, Agrees, AllocatorOk, SettledFrom, Splittable;
      RootLives(T());
      if x == ROOT {
        SplittableIsWide(T(), x);
        ok, node := GrowRoot();
        RootLives(T());
      } else {
        ok, node := true, x;
      }
    }

    /** btree_split_node: split x in two and publish its right half, growing the root
        first when x is the root.  The depth budget and the page ids it needs are
        linear in the number of levels above x.  Short of page ids it may fail half way,
        with a right half carved off and not published; the stored map is the same. */
    method SplitNode(x: PageId, depth: int) returns (ok: bool)
      requires Sound() && Splittable(T(), x) && SettledFrom(T(), span[x].level)
      requires RootLevel() + 1 < BTREE_MAX_DEPTH && span[x].level <= RootLevel()
      requires depth >= 2 * (RootLevel() - span[x].level) + 2
      modifies this
      ensures Sound() && contents == old(contents) && Available() <= old(Available())
      ensures old(Available() >= RootLevel() - span[x].level + 2) ==> ok
      ensures ok ==> pend == old(pend) && SameUpTo(old(T()), T(), old(span[x].level) - 1) && Halved(old(T()), T(), x)
      ensures ok ==> RootKept(old(T()), T()) || RootGrew(old(T()), T())
      ensures ok ==> ROOT in span && RootLevel() > old(span[x].level)
      ensures ok ==> Available() >= old(Available()) - (old(RootLevel()) - old(span[x].level) + 2)
      decreases depth
    {
      hide Inv, Wide, Agrees, AllocatorOk, SettledFrom, SameUpTo, Halved, Roomy, IsSplitPoint;
      hide Carve, CarveAt, CanCarve, Grow, Prepared;
      if depth <= 0 {
        return false;
      }
      ghost var t := T();
      var prepared, node := PrepareSplit(x);
      if !prepared {
        return false;
      }
      ghost var u := T();
      PreparedFacts(t, x, u, node);
      var carved, sep, right, mid := CarveNode(node);
      if !carved {
        return false;
      }
      ghost var v := T();
      CarvedHalves(t, x, u, node, right, mid);
      CarvedSame(u, node, right, mid);
      CarvedPends(u, node, right, mid);
      if x == ROOT { GrownIsRoomy(t, u, node, right, mid); }
      ok := InsertSeparator(node, sep, right, depth - 1);
      if ok { SplitDone(t, x, u, node, v, T()); }
    }

    /** insert_separator: publish the right half carved off n in n's parent. */
    method InsertSeparator(n: PageId, sep: Key, right: PageId, depth: int) returns (ok: bool)
      requires Sound() && n in pend && n in span && pend[n] == right
      requires 1 <= |sep| <= MAX_KEY_SIZE && Rank(sep) == span[n].hi
      requires SettledFrom(T(), span[n].level + 1)
      requires RootLevel() < BTREE_MAX_DEPTH && span[n].level < RootLevel()
      requires depth >= 1
      requires !Roomy(T(), n) ==>
                 RootLevel() + 1 < BTREE_MAX_DEPTH && depth >= 2 * (RootLevel() - span[n].level) + 1
      modifies this
      ensures Sound() && contents == old(contents) && Available() <= old(Available())
      ensures old(Roomy(T(), n) || Available() >= RootLevel() - span[n].level + 1) ==> ok
      ensures ok ==> pend == old(pend) - {n} && SameUpTo(old(T()), T(), old(span[n].level))
      ensures ok ==> RootKept(old(T()), T()) || RootGrew(old(T()), T())
      ensures old(Roomy(T(), n)) ==> RootKept(old(T()), T()) && Available() == old(Available())
      ensures old(Roomy(T(), n)) && old(RootLevel()) > old(span[n].level) + 1 ==> RootSame(old(T()), T())
      ensures ok ==> Available() >= old(Available()) - (old(RootLevel()) - old(span[n].level) + 1)
      decreases depth
    {
      hide Inv, Wide, Agrees, AllocatorOk, SettledFrom, PathOk, SameUpTo, Halved, Roomy, Splittable;
      hide Publish, CanPublish;
      if depth <= 0 {
        return false;
      }
      ghost var t := T();
      HasRoot(t);
      var found, path := DescendPath(sep, span[n].level);
      if !found {
        return false;
      }
      SeparatorRoutes(t, n, sep, path);
      var level := IndexOf(path, n);
      if level <= 0 {
        return false;
      }
      var parentId := path[level - 1];
      var parent := pages[parentId];
      var oldPos := FindPointer(parent, n);
      if oldPos < 0 && parent.next != n {
        return false;
      }
      var pos := if oldPos >= 0 then oldPos else |parent.entries|;
      var inserted := InsertPair(parent, pos, Entry(sep, [], n));
      if inserted.None? {
        ParentSplits(t, n, sep, parentId, pos);
        ok := SplitNode(parentId, depth - 1);
        if !ok {
          return false;
        }
        ghost var u := T();
        StillAwaits(t, u, n, sep, parentId, pos);
        ok := InsertSeparator(n, sep, right, depth - 1);
        RootLives(t);
        SameTransitive(t, u, T(), t.span[n].level, t.span[n].level);
      } else {
        PublishFrame(t, n, sep, parentId, pos);
        PublishAt(parentId, pos, sep, n, right, inserted.value);
        ok := true;
      }
    }

    /** descend_to_leaf: the leaf whose interval holds k. */
    method DescendToLeaf(k: Key) returns (leaf: PageId)
      requires Sound()
      ensures leaf in pages && OnWay(T(), leaf, k) && span[leaf].level == 0
      ensures pend == map[] ==> LeafFor(T(), leaf, k)
    {
      hide Wide, Agrees, AllocatorOk, OnWay;
      leaf := ROOT;
      assert NodeOk(T(), ROOT);
      OnWayStarts(T(), k);
      while !pages[leaf].leaf
        invariant leaf in pages && leaf in span && OnWay(T(), leaf, k)
        invariant pages[leaf].leaf <==> span[leaf].level == 0
        decreases span[leaf].level
      {
        assert NodeOk(T(), leaf);
        var pos := FindKeyPosition(pages[leaf], k);
        assert LinkOk(T(), leaf, pos);
        OnWayMoves(T(), leaf, k, pos);
        leaf := Child(pages[leaf], pos);
        assert NodeOk(T(), leaf);
      }
      NothingHidden(T(), leaf, k);
    }

    /** The position of k in its leaf and whether the entry there is k (the test that
        db_search, db_delete and db_insert share). */
    method ReadLeaf(leaf: PageId, k: Key) returns (pos: nat, present: bool)
      requires Sound() && leaf in pages && OnWay(T(), leaf, k) && span[leaf].level == 0
      ensures IsPosition(pages[leaf].entries, k, pos)
      ensures present <==> k in contents && !Hidden(T(), k, 0)
      ensures present ==> pos < |pages[leaf].entries| && pages[leaf].entries[pos].key == k
                          && pages[leaf].entries[pos].value == contents[k]
    {
      hide Inv, Wide, Agrees, AllocatorOk, PageOk, LeafAgrees, IsPosition;
      LeafFacts(T(), leaf, contents);
      var page := pages[leaf];
      pos := FindKeyPosition(page, k);
      LeafAnswers(T(), leaf, contents, k, pos);
      if pos < |page.entries| { CompareIsRank(k, page.entries[pos].key); }
      present := pos < |page.entries| && CompareKeys(k, page.entries[pos].key) == 0;
    }

    /** db_search: copies up to `room` bytes of the value and reports its full length.  It
        finds every stored key but those of a half that a failed split has left unpublished. */
    method Search(active: bool, k: Key, room: nat) returns (ok: bool, out: Value, length: nat)
      requires Sound()
      ensures ok <==> active && k in contents && !Hidden(T(), k, 0)
      ensures ok ==> length == |contents[k]| && out == contents[k][..if length < room then length else room]
    {
      ok, out, length := false, [], 0;
      if !active {
        return;
      }
      hide Inv, Wide, Agrees, AllocatorOk, IsPosition;
      var leaf := DescendToLeaf(k);
      var pos, present := ReadLeaf(leaf, k);
      if present {
        var v := pages[leaf].entries[pos].value;
        return true, v[..if |v| < room then |v| else room], |v|;
      }
    }

    /** Every stored pair is within the size limits. */
    lemma ValueFits(k: Key)
      requires Valid() && k in contents
      ensures 1 <= |k| <= MAX_KEY_SIZE && |contents[k]| <= MAX_VALUE_SIZE
    {
      assert NodeOk(T(), ROOT);
      var p := LeafCovering(T(), k);
      assert NodeOk(T(), p);
      assert LeafAgrees(pages[p].entries, span[p], contents);
      assert HasKey(pages[p].entries, k);
      var i :| 0 <= i < |pages[p].entries| && pages[p].entries[i].key == k;
      assert EntryOk(true, pages[p].entries[i], span[p]);
    }

    /** The change of one leaf page and of the map it stands for. */
    method UpdateLeaf(leaf: PageId, page: Page, ghost m: map<Key, Value>)
      requires Valid() && leaf in span && leaf in pages && span[leaf].level == 0
      requires PageOk(page, span[leaf]) && page.next == pages[leaf].next
      requires LeafAgrees(page.entries, span[leaf], m)
      requires forall k :: !(span[leaf].lo < Rank(k) <= span[leaf].hi) ==>
                             (k in contents <==> k in m) && (k in contents ==> contents[k] == m[k])
      modifies this`pages, this`contents
      ensures Valid() && contents == m && pages == old(pages)[leaf := page]
    {
      hide Inv, Wide, Agrees, PageOk, LeafAgrees, AllocatorOk;
      LeafUpdateKeeps(T(), leaf, page);
      LeafUpdateAgrees(T(), leaf, page, contents, m);
      LeafUpdateWide(T(), leaf, page);
      pages := pages[leaf := page];
      contents := m;
      assert T() == old(T()).(pages := pages);
    }

    /** db_delete: removes the key, or fails and changes nothing when it is absent. */
    method Delete(active: bool, k: Key) returns (ok: bool)
      requires Valid()
      modifies this`pages, this`contents
      ensures Valid()
      ensures ok <==> active && k in old(contents)
      ensures contents == if ok then old(contents) - {k} else old(contents)
    {
      if !active {
        return false;
      }
      hide Inv, Wide, Agrees, AllocatorOk, PageOk, LeafAgrees, IsPosition;
      var leaf := DescendToLeaf(k);
      var pos, present := ReadLeaf(leaf, k);
      if !present {
        return false;
      }
      LeafFacts(T(), leaf, contents);
      LeafDeleteOk(pages[leaf], span[leaf], pos, contents);
      var deleted := DeletePair(pages[leaf], pos);
      UpdateLeaf(leaf, deleted.value, contents - {k});
      return true;
    }

    /** The final step of db_insert: the leaf has room. */
    method InsertIntoLeaf(leaf: PageId, pos: nat, k: Key, v: Value)
      requires Valid() && LeafFor(T(), leaf, k) && k !in contents
      requires 1 <= |k| <= MAX_KEY_SIZE && |v| <= MAX_VALUE_SIZE
      requires IsPosition(pages[leaf].entries, k, pos)
      requires pages[leaf].free >= PAIR_HEADER + |k| + |v|
      modifies this`pages, this`contents
      ensures Valid() && contents == old(contents)[k := v]
    {
      hide Inv, Wide, Agrees, AllocatorOk, PageOk, LeafAgrees;
      LeafFacts(T(), leaf, contents);
      LeafInsertOk(pages[leaf], span[leaf], pos, k, v, contents);
      var inserted := InsertPair(pages[leaf], pos, Entry(k, v, 0));
      UpdateLeaf(leaf, inserted.value, contents[k := v]);
    }

    /** One pass of db_insert's loop up to its decision: the leaf, the position, and
        whether the key is already there. */
    method Locate(k: Key) returns (leaf: PageId, pos: nat, present: bool)
      requires Valid() && RootLevel() < BTREE_MAX_DEPTH
      ensures LeafFor(T(), leaf, k) && IsPosition(pages[leaf].entries, k, pos)
      ensures PageOk(pages[leaf], span[leaf])
      ensures present <==> k in contents
    {
      hide Inv, Wide, Agrees, AllocatorOk, PageOk, LeafAgrees, IsPosition;
      var found, path := DescendPath(k, 0);
      leaf := path[|path| - 1];
      assert Covers(T(), leaf, k);
      NothingHidden(T(), leaf, k);
      LeafFacts(T(), leaf, contents);
      pos, present := ReadLeaf(leaf, k);
    }

    /** db_insert has to split: the pair is to be stored and its leaf has no room for it. */
    ghost predicate MustSplit(active: bool, k: Key, v: Value)
      reads this
    {
      && active && Legal(k, v) && k !in contents
      && exists q :: LeafFor(T(), q, k) && pages[q].free < PAIR_HEADER + |k| + |v|
    }

    /** Whether storing the pair has to split its leaf, read off the pages. */
    method Crowded(k: Key, v: Value) returns (crowded: bool)
      requires Valid()
      ensures crowded <==> MustSplit(true, k, v)
    {
      if !Legal(k, v) {
        return false;
      }
      hide Inv, Wide, Agrees, AllocatorOk, IsPosition, PageOk;
      Shallow(T(), nextPageId, freePages);
      var leaf, pos, present := Locate(k);
      forall q | LeafFor(T(), q, k) ensures q == leaf {
        CoverUnique(T(), q, leaf, k);
      }
      return !present && pages[leaf].free < PAIR_HEADER + |k| + |v|;
    }

    /** db_insert: stores a new key within the size limits, always, given page ids for the
        splits it needs; a duplicate key, an inactive transaction or an out-of-range size is
        refused and changes nothing.  An insert that runs out of page ids stores nothing, but
        may leave a half unpublished: see Search. */
    method Insert(active: bool, k: Key, v: Value) returns (ok: bool)
      requires Valid()
      modifies this
      ensures Sound() && Available() <= old(Available())
      ensures contents == if ok then old(contents)[k := v] else old(contents)
      ensures ok ==> Valid() && active && Legal(k, v) && k !in old(contents)
      ensures old(MustSplit(active, k, v) ==> Available() >= INSERT_PAGES) ==>
                Valid() && (ok <==> active && Legal(k, v) && k !in old(contents))
      ensures ok ==> Available() >= old(Available()) - if old(MustSplit(active, k, v)) then INSERT_PAGES else 0
      ensures old(!MustSplit(active, k, v)) ==> Available() == old(Available())
    {
      hide Inv, Wide, Agrees, AllocatorOk, LoadBound, Halved, SameUpTo, LoadAfter, IsPosition, PageOk, Splittable;
      if !active {
        return false;
      }
      if |k| == 0 || |k| > MAX_KEY_SIZE || |v| > MAX_VALUE_SIZE {
        return false;
      }
      RootLives(T());
      FourSplitsSuffice();
      LoadAtMostCapacity(T(), k);
      Shallow(T(), nextPageId, freePages);
      ghost var top := RootLevel();
      ghost var grew := false;
      var attempt: nat := 0;
      while attempt < BTREE_MAX_DEPTH
        invariant Valid() && contents == old(contents) && attempt <= 4
        invariant ROOT in span && ROOT in pages && top <= MAX_ROOT_LEVEL
        invariant RootLevel() == if grew then top + 1 else top
        invariant grew ==> Used(pages[ROOT].entries) <= attempt * MAX_SEPARATOR
        invariant LoadBound(T(), k, LoadAfter(attempt))
        invariant old(Available()) - attempt * (MAX_ROOT_LEVEL + 3) <= Available() <= old(Available())
        invariant if attempt == 0 then T() == old(T()) else old(MustSplit(active, k, v))
      {
        var leaf, pos, present := Locate(k);
        if present {
          return false;
        }
        if pages[leaf].free < PAIR_HEADER + |k| + |v| {
          ghost var t := T();
          SplitPreconditions(t, leaf, k, v, attempt);
          var split := SplitNode(leaf, BTREE_MAX_DEPTH);
          if !split {
            return false;
          }
          SplitLightens(t, T(), leaf, k, attempt);
          RootLives(T());
          if RootGrew(t, T()) {
            if grew { RootHasRoom(t, attempt); }
            grew := true;
          }
          attempt := attempt + 1;
        } else {
          InsertIntoLeaf(leaf, pos, k, v);
          return true;
        }
      }
      assert false;
      return false;
    }

    /** scan_range (db_scan with an empty prefix, db_scan_prefix otherwise): the callback
        is given the pairs under the prefix in key order until it asks to stop. */
    method ScanRange(active: bool, prefix: Key, halt: seq<Pair> -> bool) returns (ok: bool, seen: seq<Pair>)
      requires Valid()
      ensures ok <==> active && |prefix| <= MAX_KEY_SIZE
      ensures ok ==> IsScan(contents, prefix, halt, seen)
    {
      if !active || |prefix| > MAX_KEY_SIZE {
        return false, [];
      }
      hide Inv, Wide, Agrees, AllocatorOk, Lists, Unstopped, SoundLeaf, IsPosition, LeavesFrom, IsScan;
      hide Sorted, ChainOk, Before;
      var leaf := DescendToLeaf(prefix);
      LeafIsSound(T(), leaf, contents);
      var start := FindKeyPosition(pages[leaf], prefix);
      ScanStarts(T(), contents, prefix, halt, leaf, start);
      seen := [];
      while true
        invariant ScanAt(T(), contents, prefix, halt, seen, leaf, start)
        decreases LeavesFrom(T(), leaf)
      {
        LeafIsSound(T(), leaf, contents);
        var done;
        seen, done := ScanLeaf(pages[leaf].entries, start, prefix, halt, seen, span[leaf], contents);
        if done {
          return true, seen;
        }
        ScanMoves(T(), contents, prefix, halt, seen, leaf);
        var next := pages[leaf].next;
        if next == 0 {
          return true, seen;
        }
        leaf, start := next, 0;
      }
    }
  }

  /** The loop of insert_separator that looks for node_id in the recorded path. */
  method IndexOf(path: seq<PageId>, n: PageId) returns (level: int)
    ensures level == -1 ==> n !in path
    ensures level != -1 ==> 0 <= level < |path| && path[level] == n
  {
    for i := 0 to |path|
      invariant n !in path[..i]
    {
      if path[i] == n {
        return i;
      }
    }
    return -1;
  }

  /** The loop of insert_separator that looks for the pointer to node_id. */
  method FindPointer(p: Page, n: PageId) returns (pos: int)
    ensures pos == -1 ==> forall i :: 0 <= i < |p.entries| ==> p.entries[i].child != n
    ensures pos != -1 ==> 0 <= pos < |p.entries| && p.entries[pos].child == n
  {
    for i := 0 to |p.entries|
      invariant forall j :: 0 <= j < i ==> p.entries[j].child != n
    {
      if p.entries[i].child == n {
        return i;
      }
    }
    return -1;
  }

  // ---- whole runs --------------------------------------------------------------

  datatype Op = Put(key: Key, value: Value) | Remove(key: Key) | Find(key: Key)

  datatype Answer = Done(ok: bool) | Found(value: Option<Value>)

  /** The store as a plain finite map: what each operation does to it and answers. */
  function MapStep(m: map<Key, Value>, op: Op): (map<Key, Value>, Answer) {
    match op
    case Put(k, v) => if Legal(k, v) && k !in m then (m[k := v], Done(true)) else (m, Done(false))
    case Remove(k) => if k in m then (m - {k}, Done(true)) else (m, Done(false))
    case Find(k) => (m, Found(if k in m then Some(m[k]) else None))
  }

  function MapRun(m: map<Key, Value>, ops: seq<Op>): (map<Key, Value>, seq<Answer>) {
    if |ops| == 0 then (m, [])
    else
      var (m', done) := MapRun(m, ops[..|ops| - 1]);
      var (m'', a) := MapStep(m', ops[|ops| - 1]);
      (m'', done + [a])
  }

  /** The paged tree answers every sequence of operations as the finite map would; only an
      insert that runs out of page ids ends the run. */
  method Run(db: Db, ops: seq<Op>) returns (answers: seq<Answer>, n: nat)
    requires db.Valid()
    modifies db
    ensures n <= |ops| && db.Sound() && (n == |ops| ==> db.Valid())
    ensures (db.contents, answers) == MapRun(old(db.contents), ops[..n])
    ensures n < |ops| ==> ops[n].Put? && Legal(ops[n].key, ops[n].value) && ops[n].key !in db.contents
    ensures n < |ops| ==> db.Available() < INSERT_PAGES
  {
    hide Inv, Wide, Agrees, AllocatorOk, Hidden;
    answers, n := [], 0;
    while n < |ops|
      invariant db.Valid() && n <= |ops|
      invariant (db.contents, answers) == MapRun(old(db.contents), ops[..n])
    {
      assert ops[..n + 1][..n] == ops[..n];
      match ops[n] {
        case Put(k, v) =>
          var crowded := db.Crowded(k, v);
          var ok := db.Insert(true, k, v);
          if crowded && !ok {
            return;
          }
          answers := answers + [Done(ok)];
        case Remove(k) =>
          var ok := db.Delete(true, k);
          answers := answers + [Done(ok)];
        case Find(k) =>
          var ok, out, length := db.Search(true, k, MAX_VALUE_SIZE);
          NothingHidden(db.T(), ROOT, k);
          if ok {
            db.ValueFits(k);
            assert out == db.contents[k];
          }
          answers := answers + [Found(if ok then Some(out) else None)];
      }
      n := n + 1;
    }
  }
}
