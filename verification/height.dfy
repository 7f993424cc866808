/** Why the tree stays shallow: splits leave every internal page below the root with
    at least MIN_SEPARATORS separators, deletes never remove one, so the number of
    pages grows by a factor of seven per level and the page-id limit bounds the
    height. */
module Height {
  import opened Common
  import opened Keys
  import opened Pages
  import opened Trees
  import opened Routing

  const MIN_SEPARATORS: nat := 6
  const MAX_ROOT_LEVEL: nat := 8

  ghost predicate WideAt(t: Tree, p: PageId) {
    p in t.span && p in t.pages && (t.span[p].level > 0 ==> |t.pages[p].entries| >= MIN_SEPARATORS)
  }

  ghost predicate Wide(t: Tree) {
    forall p :: p in t.span && p != ROOT ==> WideAt(t, p)
  }

  lemma {:induction false} GrowWide(t: Tree, id: PageId)
    requires Inv(t) && Fresh(t, id) && Wide(t) && WideAt(t, ROOT)
    ensures Wide(Grow(t, id))
  {
    forall p | p in Grow(t, id).span && p != ROOT ensures WideAt(Grow(t, id), p) {
      if p != id { assert WideAt(t, p); }
    }
  }

  /** Entries of at most a separator's size that take more than five such need a sixth. */
  lemma {:induction false} SixEntries(es: seq<Entry>)
    requires forall i :: 0 <= i < |es| ==> PairSize(es[i]) <= MAX_SEPARATOR
    requires Used(es) > 5 * MAX_SEPARATOR
    ensures |es| >= MIN_SEPARATORS
  {
    UsedBound(es, MAX_SEPARATOR);
  }

  /** The byte counts around the split point of a full internal page. */
  lemma {:induction false} FullSplitBytes(es: seq<Entry>, mid: nat)
    requires forall i :: 0 <= i < |es| ==> PairSize(es[i]) <= MAX_SEPARATOR
    requires PAGE_CAPACITY - MAX_SEPARATOR < Used(es) <= PAGE_CAPACITY && IsSplitPoint(es, mid)
    ensures Used(es[..mid]) > 5 * MAX_SEPARATOR && Used(es[mid + 1..]) > 5 * MAX_SEPARATOR
  {
    hide Used;
    SplitPointBalance(es, mid, MAX_SEPARATOR);
    assert es[mid..] == [es[mid]] + es[mid + 1..];
    UsedConcat([es[mid]], es[mid + 1..]);
    UsedOne(es[mid]);
  }

  /** Both halves of a full internal page keep at least six separators. */
  lemma {:induction false} HalvesWide(p: Page, s: Span, r: PageId, mid: nat)
    requires PageOk(p, s) && s.level > 0 && p.free < MAX_SEPARATOR && IsSplitPoint(p.entries, mid)
    ensures |CarveAt(p, mid, r).left.entries| >= MIN_SEPARATORS
    ensures |CarveAt(p, mid, r).right.entries| >= MIN_SEPARATORS
  {
    hide Used, IsSplitPoint, Sorted, EntryOk;
    EntrySizes(p, s);
    FullSplitBytes(p.entries, mid);
    SplitPointInside(p.entries, mid);
    SixEntries(p.entries[..mid]);
    SixEntries(p.entries[mid + 1..]);
  }

  lemma {:induction false} SplitPointInside(es: seq<Entry>, mid: int)
    requires IsSplitPoint(es, mid)
    ensures 0 < mid < |es|
  {
  }

  lemma {:induction false} CarvedWide(t: Tree, n: PageId, r: PageId, mid: nat)
    requires CanCarve(t, n, r, mid) && IsSplitPoint(t.pages[n].entries, mid)
    requires t.span[n].level == 0 || t.pages[n].free < MAX_SEPARATOR
    ensures n in t.span && n in t.pages
    ensures t.span[n].level > 0 ==> var c := CarveAt(t.pages[n], mid, r);
                                    |c.left.entries| >= MIN_SEPARATORS && |c.right.entries| >= MIN_SEPARATORS
  {
    hide CarveAt, IsSplitPoint;
    assert NodeOk(t, n);
    if t.span[n].level > 0 { HalvesWide(t.pages[n], t.span[n], r, mid); }
  }

  lemma {:induction false} CarveWide(t: Tree, n: PageId, r: PageId, mid: nat)
    requires CanCarve(t, n, r, mid) && Wide(t) && IsSplitPoint(t.pages[n].entries, mid)
    requires t.span[n].level == 0 || t.pages[n].free < MAX_SEPARATOR
    ensures Wide(Carve(t, n, r, mid))
  {
    hide Carve, CarveAt, Inv, IsSplitPoint, SettledFrom;
    CarvedWide(t, n, r, mid);
    CarveShape(t, n, r, mid);
    forall p | p in Carve(t, n, r, mid).span && p != ROOT ensures WideAt(Carve(t, n, r, mid), p) {
      if p != n && p != r { assert WideAt(t, p); }
    }
  }

  lemma {:induction false} PublishWide(t: Tree, p: PageId, idx: nat, sep: Key)
    requires CanPublish(t, p, idx, sep) && Wide(t)
    ensures Wide(Publish(t, p, idx, sep))
  {
    forall q | q in t.span && q != ROOT ensures WideAt(Publish(t, p, idx, sep), q) {
      assert WideAt(t, q);
      if q == p {
        var n := Child(t.pages[p], idx);
        PublishedEntries(t.pages[p], idx, sep, n, t.pend[n], 0);
      }
    }
  }

  // ---- counting ------------------------------------------------------------

  ghost function AtLevel(t: Tree, l: nat): set<PageId> {
    set p | p in t.span && t.span[p].level == l
  }

  ghost function FirstSeven(p: Page): set<PageId> {
    {Child(p, 0), Child(p, 1), Child(p, 2), Child(p, 3), Child(p, 4), Child(p, 5), Child(p, 6)}
  }

  lemma {:induction false} ChildBelow(t: Tree, p: PageId, i: nat)
    requires Inv(t) && p in t.span && t.span[p].level > 0 && WideAt(t, p) && i < 7
    ensures Child(t.pages[p], i) in AtLevel(t, t.span[p].level - 1)
    ensures IsChild(t.pages[p], Child(t.pages[p], i))
    ensures forall j: nat :: i < j < 7 ==> Child(t.pages[p], i) != Child(t.pages[p], j)
  {
    assert NodeOk(t, p) && LinkOk(t, p, i);
    forall j: nat | i < j < 7 ensures Child(t.pages[p], i) != Child(t.pages[p], j) {
      if Child(t.pages[p], i) == Child(t.pages[p], j) { ChildUnique(t, p, i, p, j); }
    }
  }

  /** The first seven children of a wide page are seven different pages one level down. */
  lemma {:induction false} SevenChildren(t: Tree, p: PageId)
    requires Inv(t) && p in t.span && t.span[p].level > 0 && WideAt(t, p)
    ensures |FirstSeven(t.pages[p])| == 7
    ensures FirstSeven(t.pages[p]) <= AtLevel(t, t.span[p].level - 1)
    ensures forall c :: c in FirstSeven(t.pages[p]) ==> IsChild(t.pages[p], c)
  {
    hide Child, Inv, AtLevel, IsChild;
    var pg := t.pages[p];
    ChildBelow(t, p, 0);
    ChildBelow(t, p, 1);
    ChildBelow(t, p, 2);
    ChildBelow(t, p, 3);
    ChildBelow(t, p, 4);
    ChildBelow(t, p, 5);
    ChildBelow(t, p, 6);
    SevenDistinct(Child(pg, 0), Child(pg, 1), Child(pg, 2), Child(pg, 3), Child(pg, 4), Child(pg, 5), Child(pg, 6));
  }

  lemma {:induction false} SevenDistinct(a: PageId, b: PageId, c: PageId, d: PageId, e: PageId, f: PageId, g: PageId)
    requires a != b && a != c && a != d && a != e && a != f && a != g && b != c && b != d && b != e && b != f
    requires b != g && c != d && c != e && c != f && c != g && d != e && d != f && d != g && e != f && e != g && f != g
    ensures |{a, b, c, d, e, f, g}| == 7
  {
    assert |{a, b, c}| == 3;
    assert |{d, e, f, g}| == 4;
    assert {a, b, c, d, e, f, g} == {a, b, c} + {d, e, f, g};
    assert {a, b, c} !! {d, e, f, g};
  }

  lemma {:induction false} ParentUnique(t: Tree, p: PageId, q: PageId, x: PageId)
    requires Inv(t) && p in t.span && q in t.span && t.span[p].level > 0 && t.span[q].level > 0
    requires p in t.pages && q in t.pages && IsChild(t.pages[p], x) && IsChild(t.pages[q], x)
    ensures p == q
  {
    var i: nat :| i <= |t.pages[p].entries| && Child(t.pages[p], i) == x;
    var j: nat :| j <= |t.pages[q].entries| && Child(t.pages[q], j) == x;
    ChildUnique(t, p, i, q, j);
  }

  /** Seven different children for every page of a set of wide pages of one level. */
  lemma {:induction false} ChildrenOf(t: Tree, l: nat, s: set<PageId>) returns (c: set<PageId>)
    requires Inv(t) && s <= AtLevel(t, l + 1) && (forall p :: p in s ==> WideAt(t, p))
    ensures |c| == 7 * |s| && c <= AtLevel(t, l)
    ensures forall x :: x in c ==> exists p :: p in s && p in t.pages && IsChild(t.pages[p], x)
    decreases |s|
  {
    hide Inv, FirstSeven, IsChild;
    if s == {} {
      c := {};
    } else {
      var p :| p in s;
      var rest := ChildrenOf(t, l, s - {p});
      SevenChildren(t, p);
      var mine := FirstSeven(t.pages[p]);
      forall x | x in mine && x in rest ensures false {
        var q :| q in s - {p} && q in t.pages && IsChild(t.pages[q], x);
        ParentUnique(t, p, q, x);
      }
      c := mine + rest;
      assert mine !! rest;
    }
  }

  lemma {:induction false} LevelGrowth(t: Tree, l: nat)
    requires Inv(t) && Wide(t) && ROOT in t.span && l < t.span[ROOT].level
    ensures |AtLevel(t, l)| >= Pow(7, t.span[ROOT].level - 1 - l)
    decreases t.span[ROOT].level - l
  {
    hide Inv, Wide, AtLevel, WideAt;
    if l == t.span[ROOT].level - 1 {
      var c := BelowRoot(t);
      SubsetSize({c}, AtLevel(t, l));
    } else {
      LevelGrowth(t, l + 1);
      WideLevel(t, l + 1);
      var c := ChildrenOf(t, l, AtLevel(t, l + 1));
      SubsetSize(c, AtLevel(t, l));
    }
  }

  lemma {:induction false} WideLevel(t: Tree, l: nat)
    requires Wide(t) && ROOT in t.span && l < t.span[ROOT].level
    ensures forall p :: p in AtLevel(t, l) ==> WideAt(t, p)
  {
  }

  lemma {:induction false} BelowRoot(t: Tree) returns (c: PageId)
    requires Inv(t) && ROOT in t.span && t.span[ROOT].level > 0
    ensures c in AtLevel(t, t.span[ROOT].level - 1)
  {
    assert NodeOk(t, ROOT) && LinkOk(t, ROOT, 0);
    c := Child(t.pages[ROOT], 0);
  }

  lemma {:induction false} SubsetSize(a: set<PageId>, b: set<PageId>)
    requires a <= b
    ensures |a| <= |b|
  {
    assert b == a + (b - a);
  }

  lemma {:induction false} BelowSize(s: set<PageId>, n: nat)
    requires forall p :: p in s ==> p < n
    ensures |s| <= n
    decreases n
  {
    if n > 0 {
      BelowSize(s - {n - 1}, n - 1);
    }
  }

  /** With fewer than 7^8 page ids, the root never rises above level 8 (nine pages on a
      path), far below the depth the descents and the split recursion allow. */
  lemma {:induction false} HeightBound(t: Tree, pages: nat)
    requires Inv(t) && Wide(t) && (forall p :: p in t.span ==> p < pages) && pages < Pow(7, MAX_ROOT_LEVEL)
    ensures ROOT in t.span && t.span[ROOT].level <= MAX_ROOT_LEVEL
  {
    if t.span[ROOT].level > MAX_ROOT_LEVEL {
      LevelGrowth(t, 0);
      BelowSize(AtLevel(t, 0), pages);
      PowMonotone(MAX_ROOT_LEVEL, t.span[ROOT].level - 1);
    }
  }

  lemma {:induction false} PowMonotone(a: nat, b: nat)
    requires a <= b
    ensures Pow(7, a) <= Pow(7, b)
    decreases b
  {
    if a < b { PowMonotone(a, b - 1); }
  }

  lemma {:induction false} SplittableIsWide(t: Tree, x: PageId)
    requires Inv(t) && Splittable(t, x)
    ensures WideAt(t, x)
  {
    assert NodeOk(t, x);
    if t.span[x].level > 0 { FullHasFifteen(t.pages[x], t.span[x]); }
  }

  lemma {:induction false} LeafUpdateWide(t: Tree, p: PageId, pg: Page)
    requires Wide(t) && p in t.span && t.span[p].level == 0
    ensures Wide(t.(pages := t.pages[p := pg]))
  {
    forall q | q in t.span && q != ROOT ensures WideAt(t.(pages := t.pages[p := pg]), q) {
      assert WideAt(t, q);
    }
  }

  /** A root with few separators is not full, so it does not grow again. */
  lemma {:induction false} RootHasRoom(t: Tree, n: nat)
    requires Inv(t) && ROOT in t.pages && ROOT in t.span && n <= 3
    requires Used(t.pages[ROOT].entries) <= n * MAX_SEPARATOR
    ensures t.pages[ROOT].free >= MAX_SEPARATOR
  {
    assert NodeOk(t, ROOT);
  }

  /** A leaf that cannot take a legal pair may be split, and has been split fewer than
      four times since the insert began. */
  lemma {:induction false} SplitPreconditions(t: Tree, leaf: PageId, k: Key, v: Value, n: nat)
    requires Inv(t) && LeafFor(t, leaf, k) && LoadBound(t, k, LoadAfter(n)) && n <= 4
    requires t.pages[leaf].free < PAIR_HEADER + |k| + |v| <= MAX_PAIR
    ensures Splittable(t, leaf) && n < 4
  {
    assert NodeOk(t, leaf);
    FullLeafHasThree(t.pages[leaf], t.span[leaf], Entry(k, v, 0));
    FourSplitsSuffice();
  }
}
