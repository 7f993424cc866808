/** The invariant of the paged tree and the elementary steps that rewrite it.

    The source keeps no parent pointers and no bounds; `span` records, for every
    live page, its level and the key interval (lo, hi] it answers for.  `pend`
    holds the right halves that have been carved off a node but not yet
    published in the node's parent: until then the pointer to the node still
    covers both halves. */
module Trees {
  import opened Common
  import opened Keys
  import opened Pages

  const ROOT: PageId := 1
  /** Below and above every rank. */
  const BOTTOM := -1.0
  const TOP := 2.0

  datatype Span = Span(level: nat, lo: real, hi: real)

  datatype Tree = Tree(pages: map<PageId, Page>, span: map<PageId, Span>, pend: map<PageId, PageId>)

  function Child(p: Page, j: nat): PageId
  {
    if j < |p.entries| then p.entries[j].child else p.next
  }

  /** The bounds the separators of a page put on its child j. */
  ghost function Low(p: Page, s: Span, j: nat): real
    requires j <= |p.entries|
  {
    if j == 0 then s.lo else Rank(p.entries[j - 1].key)
  }

  ghost function High(p: Page, s: Span, j: nat): real
  {
    if j < |p.entries| then Rank(p.entries[j].key) else s.hi
  }

  /** The upper end of what a pointer to c covers: c's own interval plus that of
      its unpublished right half. */
  ghost function Reach(t: Tree, c: PageId): real
    requires c in t.span
  {
    if c in t.pend && t.pend[c] in t.span then t.span[t.pend[c]].hi else t.span[c].hi
  }

  ghost predicate EntryOk(leaf: bool, e: Entry, s: Span) {
    && 1 <= |e.key| <= MAX_KEY_SIZE
    && |e.value| <= MAX_VALUE_SIZE
    && s.lo < Rank(e.key)
    && (if leaf then Rank(e.key) <= s.hi else Rank(e.key) < s.hi && e.value == [])
  }

  ghost predicate PageOk(p: Page, s: Span) {
    && (p.leaf <==> s.level == 0)
    && BOTTOM <= s.lo < s.hi <= TOP
    && p.free == PAGE_CAPACITY - Used(p.entries)
    && 0 <= p.free
    && Sorted(p.entries)
    && forall i :: 0 <= i < |p.entries| ==> EntryOk(p.leaf, p.entries[i], s)
  }

  /** Child j of page p exists, sits one level down, and its pointer covers exactly
      the interval between the separators around it. */
  ghost predicate LinkOk(t: Tree, p: PageId, j: nat)
    requires p in t.pages && p in t.span && j <= |t.pages[p].entries|
  {
    var c := Child(t.pages[p], j);
    && c in t.span
    && t.span[c].level + 1 == t.span[p].level
    && t.span[c].lo == Low(t.pages[p], t.span[p], j)
    && Reach(t, c) == High(t.pages[p], t.span[p], j)
  }

  /** The sibling link of a leaf leads to the leaf that starts where it ends. */
  ghost predicate ChainOk(t: Tree, p: PageId)
    requires p in t.pages && p in t.span
  {
    var n := t.pages[p].next;
    if t.span[p].hi == TOP then n == 0
    else n in t.span && t.span[n].level == 0 && t.span[n].lo == t.span[p].hi
  }

  ghost predicate NodeOk(t: Tree, p: PageId)
    requires p in t.span
  {
    && p in t.pages
    && PageOk(t.pages[p], t.span[p])
    && (t.span[p].level > 0 ==> forall j :: 0 <= j <= |t.pages[p].entries| ==> LinkOk(t, p, j))
    && (t.span[p].level == 0 ==> ChainOk(t, p))
  }

  ghost predicate Apart(a: Span, b: Span) {
    a.hi <= b.lo || b.hi <= a.lo
  }

  ghost predicate PendOk(t: Tree, n: PageId)
    requires n in t.pend
  {
    var r := t.pend[n];
    && n in t.span && r in t.span
    && n != ROOT && r != ROOT && r !in t.pend
    && t.span[r].level == t.span[n].level
    && t.span[r].lo == t.span[n].hi
  }

  ghost predicate RootOk(t: Tree) {
    && ROOT in t.span && 0 !in t.span
    && t.span[ROOT].lo == BOTTOM && t.span[ROOT].hi == TOP
    && (forall p :: p in t.span ==> t.span[p].level <= t.span[ROOT].level)
  }

  ghost predicate NodesOk(t: Tree) {
    forall p :: p in t.span ==> NodeOk(t, p)
  }

  ghost predicate LevelsApart(t: Tree) {
    forall p, q :: p in t.span && q in t.span && p != q && t.span[p].level == t.span[q].level
                   ==> Apart(t.span[p], t.span[q])
  }

  ghost predicate PendsOk(t: Tree) {
    forall n :: n in t.pend ==> PendOk(t, n)
  }

  ghost predicate Inv(t: Tree) {
    RootOk(t) && NodesOk(t) && LevelsApart(t) && PendsOk(t)
  }

  ghost predicate Fresh(t: Tree, id: PageId) {
    id != 0 && id != ROOT && id !in t.span
  }

  /** Every page hangs below at most one pointer. */
  lemma {:induction false} ChildUnique(t: Tree, p: PageId, i: nat, q: PageId, j: nat)
    requires Inv(t)
    requires p in t.span && t.span[p].level > 0 && i <= |t.pages[p].entries|
    requires q in t.span && t.span[q].level > 0 && j <= |t.pages[q].entries|
    requires Child(t.pages[p], i) == Child(t.pages[q], j)
    ensures p == q && i == j
  {
    assert NodeOk(t, p) && NodeOk(t, q);
    assert LinkOk(t, p, i) && LinkOk(t, q, j);
    var c := Child(t.pages[p], i);
    LinkInside(t, p, i);
    LinkInside(t, q, j);
    assert NodeOk(t, c);
  }

  /** The interval of a pointer is non-empty and inside its page's interval. */
  lemma {:induction false} LinkInside(t: Tree, p: PageId, j: nat)
    requires Inv(t)
    requires p in t.span && t.span[p].level > 0 && j <= |t.pages[p].entries|
    ensures t.span[p].lo <= Low(t.pages[p], t.span[p], j) < High(t.pages[p], t.span[p], j) <= t.span[p].hi
  {
    assert NodeOk(t, p);
    var pg := t.pages[p];
    if j < |pg.entries| { assert EntryOk(pg.leaf, pg.entries[j], t.span[p]); }
    if 0 < j { assert EntryOk(pg.leaf, pg.entries[j - 1], t.span[p]); }
  }

  /** Only the root sits at the root's level. */
  lemma {:induction false} RootAlone(t: Tree, p: PageId)
    requires Inv(t) && p in t.span && t.span[p].level == t.span[ROOT].level
    ensures p == ROOT
  {
    assert NodeOk(t, p);
  }

  // ---- grow_root -------------------------------------------------------

  /** grow_root: the root's page moves to a fresh id and the root becomes an
      empty internal page above it. */
  function Grow(t: Tree, id: PageId): (r: Tree)
    requires ROOT in t.pages && ROOT in t.span
  {
    Tree(t.pages[id := t.pages[ROOT]][ROOT := Page(false, [], PAGE_CAPACITY, id)],
         t.span[id := t.span[ROOT]][ROOT := Span(t.span[ROOT].level + 1, BOTTOM, TOP)],
         t.pend)
  }

  lemma {:induction false} GrowRootNode(t: Tree, id: PageId)
    requires Inv(t) && Fresh(t, id) && ROOT in t.pages
    ensures NodeOk(Grow(t, id), ROOT)
  {
    var r := Grow(t, id);
    assert id in t.pend ==> PendOk(t, id);
    assert LinkOk(r, ROOT, 0);
  }

  lemma {:induction false} GrowOtherNode(t: Tree, id: PageId, o: PageId, p: PageId)
    requires Inv(t) && Fresh(t, id) && ROOT in t.pages
    requires o in t.span && p == if o == ROOT then id else o
    ensures NodeOk(Grow(t, id), p)
  {
    var r := Grow(t, id);
    assert NodeOk(t, o);
    assert r.pages[p] == t.pages[o] && r.span[p] == t.span[o];
    if t.span[o].level > 0 {
      forall j: nat | j <= |t.pages[o].entries| ensures LinkOk(r, p, j) {
        assert LinkOk(t, o, j);
        GrowReach(t, id, Child(t.pages[o], j));
      }
    } else {
      assert ChainOk(t, o);
    }
  }

  lemma {:induction false} GrowReach(t: Tree, id: PageId, c: PageId)
    requires Inv(t) && Fresh(t, id) && ROOT in t.pages && c in t.span && c != ROOT
    ensures var r := Grow(t, id); c in r.span && r.span[c] == t.span[c] && Reach(r, c) == Reach(t, c)
  {
    if c in t.pend { assert PendOk(t, c); }
  }

  lemma {:induction false} GrowApart(t: Tree, id: PageId, p: PageId, q: PageId)
    requires Inv(t) && Fresh(t, id) && ROOT in t.pages
    requires var r := Grow(t, id);
             p in r.span && q in r.span && p != q && r.span[p].level == r.span[q].level
    ensures var r := Grow(t, id); Apart(r.span[p], r.span[q])
  {
    var o := if p == id then ROOT else p;
    var u := if q == id then ROOT else q;
    assert Apart(t.span[o], t.span[u]);
  }

  lemma {:induction false} GrowNodesOk(t: Tree, id: PageId)
    requires Inv(t) && Fresh(t, id) && ROOT in t.pages
    ensures NodesOk(Grow(t, id))
  {
    forall p | p in Grow(t, id).span ensures NodeOk(Grow(t, id), p) {
      if p == ROOT {
        GrowRootNode(t, id);
      } else {
        GrowOtherNode(t, id, if p == id then ROOT else p, p);
      }
    }
  }

  lemma {:induction false} GrowLevelsApart(t: Tree, id: PageId)
    requires Inv(t) && Fresh(t, id) && ROOT in t.pages && ROOT in t.span
    ensures LevelsApart(Grow(t, id))
  {
    hide Inv;
    var r := Grow(t, id);
    forall p, q | p in r.span && q in r.span && p != q && r.span[p].level == r.span[q].level
      ensures Apart(r.span[p], r.span[q])
    {
      GrowApart(t, id, p, q);
    }
  }

  lemma {:induction false} GrowPendsOk(t: Tree, id: PageId)
    requires Inv(t) && Fresh(t, id) && ROOT in t.pages
    ensures PendsOk(Grow(t, id))
  {
    var r := Grow(t, id);
    hide NodesOk, LevelsApart;
    forall n | n in r.pend ensures PendOk(r, n) { assert PendOk(t, n); }
  }

  lemma {:induction false} GrowKeeps(t: Tree, id: PageId)
    requires Inv(t) && Fresh(t, id)
    ensures ROOT in t.pages && ROOT in t.span && Inv(Grow(t, id))
  {
    assert NodeOk(t, ROOT);
    GrowNodesOk(t, id);
    GrowLevelsApart(t, id);
    GrowPendsOk(t, id);
    hide NodesOk, LevelsApart, PendsOk;
  }

  // ---- btree_split_page ------------------------------------------------

  /** Carve node n at mid: its upper entries move to the fresh page r, unpublished. */
  ghost function Carve(t: Tree, n: PageId, r: PageId, mid: nat): (u: Tree)
    requires n in t.pages && n in t.span && 0 < mid < |t.pages[n].entries|
  {
    var c := CarveAt(t.pages[n], mid, r);
    var s := t.span[n];
    Tree(t.pages[n := c.left][r := c.right],
         t.span[n := Span(s.level, s.lo, Rank(c.sep))][r := Span(s.level, Rank(c.sep), s.hi)],
         t.pend[n := r])
  }

  /** Nothing at or above this level is waiting to be published. */
  ghost predicate SettledFrom(t: Tree, level: nat) {
    forall n :: n in t.pend && n in t.span ==> t.span[n].level < level
  }

  lemma {:induction false} UsedSlice(es: seq<Entry>, a: nat, b: nat)
    requires a <= b <= |es|
    ensures Used(es[a..b]) <= Used(es)
  {
    assert es == es[..a] + es[a..b] + es[b..];
    UsedConcat(es[..a], es[a..b]);
    UsedConcat(es[..a] + es[a..b], es[b..]);
  }

  /** A run of a sound page's entries is sound for any interval that contains it. */
  lemma {:induction false} SliceOk(p: Page, s: Span, a: nat, b: nat, q: Page, s': Span)
    requires PageOk(p, s) && a <= b <= |p.entries|
    requires q.leaf == p.leaf && q.entries == p.entries[a..b]
    requires q.free == PAGE_CAPACITY - Used(q.entries)
    requires s'.level == s.level && BOTTOM <= s'.lo < s'.hi <= TOP
    requires forall i :: a <= i < b ==> EntryOk(p.leaf, p.entries[i], s')
    ensures PageOk(q, s')
  {
    UsedSlice(p.entries, a, b);
  }

  lemma {:induction false} CarveSep(p: Page, s: Span, r: PageId, mid: nat)
    requires PageOk(p, s) && 0 < mid < |p.entries|
    ensures var c := CarveAt(p, mid, r);
            && s.lo < Rank(c.sep) < s.hi
            && 1 <= |c.sep| <= MAX_KEY_SIZE
  {
    assert EntryOk(p.leaf, p.entries[mid], s) && EntryOk(p.leaf, p.entries[mid - 1], s);
  }

  lemma {:induction false} CarvePagesOk(p: Page, s: Span, r: PageId, mid: nat)
    requires PageOk(p, s) && 0 < mid < |p.entries|
    ensures var c := CarveAt(p, mid, r);
            && s.lo < Rank(c.sep) < s.hi
            && 1 <= |c.sep| <= MAX_KEY_SIZE
            && PageOk(c.left, Span(s.level, s.lo, Rank(c.sep)))
            && PageOk(c.right, Span(s.level, Rank(c.sep), s.hi))
  {
    CarveSep(p, s, r, mid);
    CarveLeftOk(p, s, r, mid);
    CarveRightOk(p, s, r, mid);
  }

  lemma {:induction false} CarveLeftOk(p: Page, s: Span, r: PageId, mid: nat)
    requires PageOk(p, s) && 0 < mid < |p.entries|
    ensures var c := CarveAt(p, mid, r); PageOk(c.left, Span(s.level, s.lo, Rank(c.sep)))
  {
    hide Used;
    var c := CarveAt(p, mid, r);
    CarveSep(p, s, r, mid);
    forall i | 0 <= i < mid
      ensures EntryOk(p.leaf, p.entries[i], Span(s.level, s.lo, Rank(c.sep)))
    {
      assert EntryOk(p.leaf, p.entries[i], s);
    }
    SliceOk(p, s, 0, mid, c.left, Span(s.level, s.lo, Rank(c.sep)));
  }

  lemma {:induction false} CarveRightOk(p: Page, s: Span, r: PageId, mid: nat)
    requires PageOk(p, s) && 0 < mid < |p.entries|
    ensures var c := CarveAt(p, mid, r); PageOk(c.right, Span(s.level, Rank(c.sep), s.hi))
  {
    hide Used;
    var c := CarveAt(p, mid, r);
    CarveSep(p, s, r, mid);
    var off := if p.leaf then mid else mid + 1;
    forall i | off <= i < |p.entries|
      ensures EntryOk(p.leaf, p.entries[i], Span(s.level, Rank(c.sep), s.hi))
    {
      assert EntryOk(p.leaf, p.entries[i], s);
    }
    SliceOk(p, s, off, |p.entries|, c.right, Span(s.level, Rank(c.sep), s.hi));
  }

  /** What a carve changes: only the node and its new right half. */
  lemma {:induction false} CarveShape(t: Tree, n: PageId, r: PageId, mid: nat)
    requires n in t.pages && n in t.span && 0 < mid < |t.pages[n].entries| && r != n
    ensures var u := Carve(t, n, r, mid);
            var c := CarveAt(t.pages[n], mid, r);
            && u.span.Keys == t.span.Keys + {r} && u.pages.Keys == t.pages.Keys + {r}
            && u.pages[n] == c.left && u.pages[r] == c.right
            && u.span[n] == Span(t.span[n].level, t.span[n].lo, Rank(c.sep))
            && u.span[r] == Span(t.span[n].level, Rank(c.sep), t.span[n].hi)
            && (forall q :: q in t.span && q != n && q != r ==> u.span[q] == t.span[q])
            && (forall q :: q in t.pages && q != n && q != r ==> u.pages[q] == t.pages[q])
            && u.pend == t.pend[n := r]
  {
    hide CarveAt;
  }

  ghost predicate CanCarve(t: Tree, n: PageId, r: PageId, mid: nat) {
    && Inv(t) && Fresh(t, r)
    && n in t.span && n != ROOT && SettledFrom(t, t.span[n].level)
    && n in t.pages && 0 < mid < |t.pages[n].entries|
  }

  lemma {:induction false} CarvedSep(t: Tree, n: PageId, r: PageId, mid: nat)
    requires CanCarve(t, n, r, mid)
    ensures var c := CarveAt(t.pages[n], mid, r);
            t.span[n].lo < Rank(c.sep) < t.span[n].hi && 1 <= |c.sep| <= MAX_KEY_SIZE
    ensures PageOk(t.pages[n], t.span[n])
  {
    assert NodeOk(t, n);
    CarveSep(t.pages[n], t.span[n], r, mid);
  }

  lemma {:induction false} CarveHalfOk(t: Tree, n: PageId, r: PageId, mid: nat, p: PageId)
    requires CanCarve(t, n, r, mid) && (p == n || p == r)
    ensures NodeOk(Carve(t, n, r, mid), p)
  {
    hide PageOk;
    assert NodeOk(t, n);
    CarvePagesOk(t.pages[n], t.span[n], r, mid);
    if t.span[n].level > 0 {
      CarveLinks(t, n, r, mid, p);
    } else {
      assert ChainOk(t, n);
    }
  }

  lemma {:induction false} CarveOtherOk(t: Tree, n: PageId, r: PageId, mid: nat, p: PageId)
    requires CanCarve(t, n, r, mid) && p in t.span && p != n
    ensures NodeOk(Carve(t, n, r, mid), p)
  {
    var u := Carve(t, n, r, mid);
    assert NodeOk(t, p);
    assert u.pages[p] == t.pages[p] && u.span[p] == t.span[p];
    if t.span[p].level > 0 {
      forall j: nat | j <= |t.pages[p].entries| ensures LinkOk(u, p, j) {
        assert LinkOk(t, p, j);
        CarveReach(t, n, r, mid, Child(t.pages[p], j));
      }
    } else {
      assert ChainOk(t, p);
    }
  }

  lemma {:induction false} CarveApart(t: Tree, n: PageId, r: PageId, mid: nat, p: PageId, q: PageId)
    requires CanCarve(t, n, r, mid)
    requires var u := Carve(t, n, r, mid);
             p in u.span && q in u.span && p != q && u.span[p].level == u.span[q].level
    ensures var u := Carve(t, n, r, mid); Apart(u.span[p], u.span[q])
  {
    hide Carve, CarveAt, NodesOk, PendsOk;
    CarvedSep(t, n, r, mid);
    CarveShape(t, n, r, mid);
    var a := if p == r then n else p;
    var b := if q == r then n else q;
    if a != b { assert Apart(t.span[a], t.span[b]); }
  }

  lemma {:induction false} CarveNodesOk(t: Tree, n: PageId, r: PageId, mid: nat)
    requires CanCarve(t, n, r, mid)
    ensures NodesOk(Carve(t, n, r, mid))
  {
    forall p | p in Carve(t, n, r, mid).span ensures NodeOk(Carve(t, n, r, mid), p) {
      if p == n || p == r {
        CarveHalfOk(t, n, r, mid, p);
      } else {
        CarveOtherOk(t, n, r, mid, p);
      }
    }
  }

  lemma {:induction false} CarvePendsOk(t: Tree, n: PageId, r: PageId, mid: nat)
    requires CanCarve(t, n, r, mid)
    ensures PendsOk(Carve(t, n, r, mid))
  {
    var u := Carve(t, n, r, mid);
    forall m | m in u.pend ensures PendOk(u, m) {
      if m != n { assert PendOk(t, m); }
    }
  }

  /** Carving keeps the whole invariant, with one more pending half. */
  lemma {:induction false} CarveKeeps(t: Tree, n: PageId, r: PageId, mid: nat)
    requires CanCarve(t, n, r, mid)
    ensures Inv(Carve(t, n, r, mid))
  {
    hide CarveAt, NodesOk, PendsOk;
    var u := Carve(t, n, r, mid);
    CarveNodesOk(t, n, r, mid);
    CarvePendsOk(t, n, r, mid);
    forall p, q | p in u.span && q in u.span && p != q && u.span[p].level == u.span[q].level
      ensures Apart(u.span[p], u.span[q])
    {
      CarveApart(t, n, r, mid, p, q);
    }
  }

  /** What a pointer covers is not changed by carving its target. */
  lemma {:induction false} CarveReach(t: Tree, n: PageId, r: PageId, mid: nat, c: PageId)
    requires CanCarve(t, n, r, mid) && c in t.span
    ensures var u := Carve(t, n, r, mid);
            && c in u.span && Reach(u, c) == Reach(t, c)
            && u.span[c].level == t.span[c].level && u.span[c].lo == t.span[c].lo
  {
    hide CarveAt, NodesOk, LevelsApart;
    if c in t.pend { assert PendOk(t, c); }
  }

  lemma {:induction false} CarveLinkLeft(t: Tree, n: PageId, r: PageId, mid: nat, j: nat)
    requires CanCarve(t, n, r, mid) && t.span[n].level > 0 && j <= mid
    ensures LinkOk(Carve(t, n, r, mid), n, j)
  {
    var u := Carve(t, n, r, mid);
    assert NodeOk(t, n) && LinkOk(t, n, j);
    CarveReach(t, n, r, mid, Child(t.pages[n], j));
    assert Child(u.pages[n], j) == Child(t.pages[n], j);
    assert Low(u.pages[n], u.span[n], j) == Low(t.pages[n], t.span[n], j);
  }

  lemma {:induction false} CarveLinkRight(t: Tree, n: PageId, r: PageId, mid: nat, j: nat)
    requires CanCarve(t, n, r, mid) && t.span[n].level > 0 && mid + 1 + j <= |t.pages[n].entries|
    ensures LinkOk(Carve(t, n, r, mid), r, j)
  {
    var u := Carve(t, n, r, mid);
    assert NodeOk(t, n) && LinkOk(t, n, mid + 1 + j);
    CarveReach(t, n, r, mid, Child(t.pages[n], mid + 1 + j));
    hide Reach, NodesOk, LevelsApart, PendsOk;
    assert Child(u.pages[r], j) == Child(t.pages[n], mid + 1 + j);
    assert Low(u.pages[r], u.span[r], j) == Low(t.pages[n], t.span[n], mid + 1 + j);
  }

  lemma {:induction false} CarveLinks(t: Tree, n: PageId, r: PageId, mid: nat, p: PageId)
    requires CanCarve(t, n, r, mid) && t.span[n].level > 0 && (p == n || p == r)
    ensures var u := Carve(t, n, r, mid);
            forall j :: 0 <= j <= |u.pages[p].entries| ==> LinkOk(u, p, j)
  {
    var u := Carve(t, n, r, mid);
    assert NodeOk(t, n);
    forall j: nat | j <= |u.pages[p].entries| ensures LinkOk(u, p, j) {
      if p == n {
        CarveLinkLeft(t, n, r, mid, j);
      } else {
        CarveLinkRight(t, n, r, mid, j);
      }
    }
  }

  // ---- insert_separator ------------------------------------------------

  /** The parent's page once the separator is in: a new entry routes to the left
      half and the old pointer is handed to the right half. */
  function Published(pg: Page, idx: nat, sep: Key, n: PageId, r: PageId): (q: Page)
    requires idx <= |pg.entries|
  {
    var es := InsertAt(pg.entries, idx, Entry(sep, [], n));
    var free := pg.free - PairSize(Entry(sep, [], n));
    if idx < |pg.entries| then
      Page(pg.leaf, es[idx + 1 := es[idx + 1].(child := r)], free, pg.next)
    else
      Page(pg.leaf, es, free, r)
  }

  function Publish(t: Tree, p: PageId, idx: nat, sep: Key): (u: Tree)
    requires p in t.pages && idx <= |t.pages[p].entries| && Child(t.pages[p], idx) in t.pend
  {
    var n := Child(t.pages[p], idx);
    Tree(t.pages[p := Published(t.pages[p], idx, sep, n, t.pend[n])], t.span, t.pend - {n})
  }

  /** The parent p points at a carved node through pointer idx, the separator is the
      node's new upper bound, and the parent has room for it. */
  ghost predicate CanPublish(t: Tree, p: PageId, idx: nat, sep: Key) {
    && Inv(t) && p in t.span && p in t.pages && t.span[p].level > 0
    && idx <= |t.pages[p].entries|
    && 1 <= |sep| <= MAX_KEY_SIZE
    && t.pages[p].free >= PAIR_HEADER + |sep|
    && var n := Child(t.pages[p], idx);
    && n in t.pend && n in t.span && Rank(sep) == t.span[n].hi
  }

  /** The separator falls strictly between its neighbours in the parent. */
  lemma {:induction false} PublishBetween(t: Tree, p: PageId, idx: nat, sep: Key)
    requires CanPublish(t, p, idx, sep)
    ensures NodeOk(t, p)
    ensures t.span[p].lo <= Low(t.pages[p], t.span[p], idx) < Rank(sep)
    ensures Rank(sep) < High(t.pages[p], t.span[p], idx) <= t.span[p].hi
  {
    assert NodeOk(t, p) && LinkOk(t, p, idx);
    var n := Child(t.pages[p], idx);
    assert PendOk(t, n);
    assert NodeOk(t, n) && NodeOk(t, t.pend[n]);
    LinkInside(t, p, idx);
  }

  /** Keys of the published page: the parent's, with the separator at idx. */
  lemma {:induction false} PublishedEntries(pg: Page, idx: nat, sep: Key, n: PageId, r: PageId, i: nat)
    requires idx <= |pg.entries| && i <= |pg.entries|
    ensures var es := Published(pg, idx, sep, n, r).entries;
            && |es| == |pg.entries| + 1
            && (i < idx ==> es[i] == pg.entries[i])
            && (i == idx ==> es[i] == Entry(sep, [], n))
            && (i > idx ==> es[i].key == pg.entries[i - 1].key && es[i].value == pg.entries[i - 1].value)
            && (i == idx + 1 ==> es[i].child == r)
            && (i > idx + 1 ==> es[i] == pg.entries[i - 1])
  {
  }

  lemma {:induction false} PublishedSorted(pg: Page, s: Span, idx: nat, sep: Key, n: PageId, r: PageId)
    requires idx <= |pg.entries| && Sorted(pg.entries)
    requires Low(pg, s, idx) < Rank(sep) < High(pg, s, idx)
    ensures Sorted(Published(pg, idx, sep, n, r).entries)
  {
    var es := Published(pg, idx, sep, n, r).entries;
    forall i, j | 0 <= i < j < |es| ensures Rank(es[i].key) < Rank(es[j].key) {
      PublishedEntries(pg, idx, sep, n, r, i);
      PublishedEntries(pg, idx, sep, n, r, j);
      if j == idx && i < idx - 1 { assert Rank(pg.entries[i].key) < Rank(pg.entries[idx - 1].key); }
      if i == idx && idx < j - 1 { assert Rank(pg.entries[idx].key) < Rank(pg.entries[j - 1].key); }
    }
  }

  lemma {:induction false} PublishedUsed(pg: Page, idx: nat, sep: Key, n: PageId, r: PageId)
    requires idx <= |pg.entries|
    ensures Used(Published(pg, idx, sep, n, r).entries) == Used(pg.entries) + PAIR_HEADER + |sep|
  {
    UsedInsert(pg.entries, idx, Entry(sep, [], n));
    var es := InsertAt(pg.entries, idx, Entry(sep, [], n));
    if idx < |pg.entries| {
      UsedUpdate(es, idx + 1, es[idx + 1].(child := r));
    }
  }

  lemma {:induction false} PublishedPageOk(t: Tree, p: PageId, idx: nat, sep: Key)
    requires CanPublish(t, p, idx, sep)
    ensures PageOk(Publish(t, p, idx, sep).pages[p], t.span[p])
    ensures Used(Publish(t, p, idx, sep).pages[p].entries) == Used(t.pages[p].entries) + PAIR_HEADER + |sep|
  {
    var pg, s := t.pages[p], t.span[p];
    var n := Child(pg, idx);
    var q := Published(pg, idx, sep, n, t.pend[n]);
    PublishBetween(t, p, idx, sep);
    PublishedUsed(pg, idx, sep, n, t.pend[n]);
    PublishedSorted(pg, s, idx, sep, n, t.pend[n]);
    forall i | 0 <= i < |q.entries| ensures EntryOk(q.leaf, q.entries[i], s) {
      PublishedEntries(pg, idx, sep, n, t.pend[n], i);
      if i != idx { assert EntryOk(pg.leaf, pg.entries[if i < idx then i else i - 1], s); }
    }
  }

  /** The pointers of the published page and the separators around them. */
  lemma {:induction false} PublishedPointers(pg: Page, s: Span, idx: nat, sep: Key, n: PageId, r: PageId, j: nat)
    requires idx <= |pg.entries| && j <= |pg.entries| + 1 && Child(pg, idx) == n
    ensures var q := Published(pg, idx, sep, n, r);
            && |q.entries| == |pg.entries| + 1
            && Child(q, j) == (if j <= idx then Child(pg, j) else if j == idx + 1 then r else Child(pg, j - 1))
            && Low(q, s, j) == (if j <= idx then Low(pg, s, j) else if j == idx + 1 then Rank(sep)
                                else Low(pg, s, j - 1))
            && High(q, s, j) == (if j < idx then High(pg, s, j) else if j == idx then Rank(sep)
                                 else High(pg, s, j - 1))
  {
    if j <= |pg.entries| { PublishedEntries(pg, idx, sep, n, r, j); }
    if j > 0 { PublishedEntries(pg, idx, sep, n, r, j - 1); }
  }

  lemma {:induction false} PublishReach(t: Tree, p: PageId, idx: nat, sep: Key, c: PageId)
    requires CanPublish(t, p, idx, sep) && c in t.span
    ensures Reach(Publish(t, p, idx, sep), c) == if c == Child(t.pages[p], idx) then Rank(sep) else Reach(t, c)
  {
  }

  lemma {:induction false} PublishLink(t: Tree, p: PageId, idx: nat, sep: Key, j: nat)
    requires CanPublish(t, p, idx, sep) && j <= |t.pages[p].entries| + 1
    ensures |Publish(t, p, idx, sep).pages[p].entries| == |t.pages[p].entries| + 1
    ensures LinkOk(Publish(t, p, idx, sep), p, j)
  {
    var pg := t.pages[p];
    var n := Child(pg, idx);
    var o := if j <= idx then j else j - 1;
    assert NodeOk(t, p);
    assert LinkOk(t, p, o);
    PublishedPointers(pg, t.span[p], idx, sep, n, t.pend[n], j);
    if j == idx + 1 {
      assert PendOk(t, n) && t.span[t.pend[n]].lo == Rank(sep);
      PublishReach(t, p, idx, sep, t.pend[n]);
    } else {
      if o != idx && Child(pg, o) == n { ChildUnique(t, p, o, p, idx); }
      PublishReach(t, p, idx, sep, Child(pg, o));
    }
  }

  lemma {:induction false} PublishOtherOk(t: Tree, p: PageId, idx: nat, sep: Key, q: PageId)
    requires CanPublish(t, p, idx, sep) && q in t.span && q != p
    ensures NodeOk(Publish(t, p, idx, sep), q)
  {
    var u := Publish(t, p, idx, sep);
    var n := Child(t.pages[p], idx);
    assert NodeOk(t, q);
    if t.span[q].level > 0 {
      forall j: nat | j <= |t.pages[q].entries| ensures LinkOk(u, q, j) {
        assert LinkOk(t, q, j);
        if Child(t.pages[q], j) == n { ChildUnique(t, q, j, p, idx); }
      }
    } else {
      assert ChainOk(t, q);
    }
  }

  lemma {:induction false} PublishNodesOk(t: Tree, p: PageId, idx: nat, sep: Key)
    requires CanPublish(t, p, idx, sep)
    ensures NodesOk(Publish(t, p, idx, sep))
  {
    forall q | q in Publish(t, p, idx, sep).span ensures NodeOk(Publish(t, p, idx, sep), q) {
      if q == p {
        PublishedPageOk(t, p, idx, sep);
        forall j: nat | j <= |t.pages[p].entries| + 1 ensures LinkOk(Publish(t, p, idx, sep), p, j) {
          PublishLink(t, p, idx, sep, j);
        }
      } else {
        PublishOtherOk(t, p, idx, sep, q);
      }
    }
  }

  /** Publishing keeps the whole invariant, with one pending half fewer. */
  lemma {:induction false} PublishKeeps(t: Tree, p: PageId, idx: nat, sep: Key)
    requires CanPublish(t, p, idx, sep)
    ensures Inv(Publish(t, p, idx, sep))
  {
    var u := Publish(t, p, idx, sep);
    PublishNodesOk(t, p, idx, sep);
    forall m | m in u.pend ensures PendOk(u, m) { assert PendOk(t, m); }
  }

  // ---- leaf updates ------------------------------------------------------

  /** Replacing the page of one leaf, with the same sibling link, keeps the tree. */
  lemma {:induction false} LeafUpdateNode(t: Tree, p: PageId, pg: Page, q: PageId)
    requires p in t.span && t.span[p].level == 0 && q in t.span && NodeOk(t, q)
    requires PageOk(pg, t.span[p]) && p in t.pages && pg.next == t.pages[p].next
    ensures NodeOk(t.(pages := t.pages[p := pg]), q)
  {
    hide PageOk;
    var u := t.(pages := t.pages[p := pg]);
    if t.span[q].level > 0 {
      forall j: nat | j <= |t.pages[q].entries| ensures LinkOk(u, q, j) {
        assert LinkOk(t, q, j);
      }
    } else {
      assert ChainOk(t, q);
    }
  }

  lemma {:induction false} LeafUpdateKeeps(t: Tree, p: PageId, pg: Page)
    requires Inv(t) && p in t.span && t.span[p].level == 0
    requires PageOk(pg, t.span[p]) && p in t.pages && pg.next == t.pages[p].next
    ensures Inv(t.(pages := t.pages[p := pg]))
  {
    hide PageOk;
    var u := t.(pages := t.pages[p := pg]);
    forall q | q in u.span ensures NodeOk(u, q) { LeafUpdateNode(t, p, pg, q); }
    forall m | m in u.pend ensures PendOk(u, m) { assert PendOk(t, m); }
  }
}
