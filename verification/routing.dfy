/** Descents through a tree whose splits may be half done, and what a split leaves
    unchanged. */
module Routing {
  import opened Common
  import opened Keys
  import opened Pages
  import opened Trees

  lemma {:induction false} RootLives(t: Tree)
    requires Inv(t)
    ensures ROOT in t.span && ROOT in t.pages && NodesOk(t)
  {
    assert NodeOk(t, ROOT);
  }

  lemma {:induction false} HasRoot(t: Tree)
    requires Inv(t)
    ensures ROOT in t.span
  {
  }

  /** k falls in what a pointer to p covers. */
  ghost predicate Covers(t: Tree, p: PageId, k: Key) {
    p in t.span && t.span[p].lo < Rank(k) <= Reach(t, p)
  }

  /** One step of a descent: the pointer chosen by find_key_position covers the key. */
  lemma {:induction false} Route(t: Tree, p: PageId, k: Key, pos: nat)
    requires Inv(t) && p in t.span && t.span[p].level > 0 && p !in t.pend && Covers(t, p, k)
    requires p in t.pages && IsPosition(t.pages[p].entries, k, pos)
    ensures Covers(t, Child(t.pages[p], pos), k)
  {
    assert NodeOk(t, p) && LinkOk(t, p, pos);
  }

  ghost predicate IsChild(p: Page, c: PageId) {
    exists j: nat :: j <= |p.entries| && Child(p, j) == c
  }

  /** A chain of child pointers from the root, one level at a time.  Down to the highest
      level that still has an unpublished half (`settled`), every pointer covers k. */
  ghost predicate PathOk(t: Tree, path: seq<PageId>, k: Key, settled: nat) {
    && |path| > 0 && path[0] == ROOT && ROOT in t.span
    && (forall i :: 0 <= i < |path| ==> path[i] in t.span && t.span[path[i]].level == t.span[ROOT].level - i)
    && (forall i :: 0 <= i < |path| && t.span[ROOT].level - i >= settled ==> Covers(t, path[i], k))
    && (forall i :: 0 <= i < |path| - 1 ==> path[i] in t.pages && IsChild(t.pages[path[i]], path[i + 1]))
  }

  /** Following the pointer at the searched position extends the chain. */
  lemma {:induction false} PathExtend(t: Tree, path: seq<PageId>, k: Key, settled: nat, pos: nat)
    requires Inv(t) && SettledFrom(t, settled + 1) && PathOk(t, path, k, settled)
    requires var p := path[|path| - 1];
             t.span[p].level > 0 && p in t.pages && IsPosition(t.pages[p].entries, k, pos)
    ensures PathOk(t, path + [Child(t.pages[path[|path| - 1]], pos)], k, settled)
  {
    var p := path[|path| - 1];
    var c := Child(t.pages[p], pos);
    assert NodeOk(t, p) && LinkOk(t, p, pos);
    if t.span[p].level > settled {
      Route(t, p, k, pos);
    }
    var q := path + [c];
    forall i | 0 <= i < |q| - 1 ensures q[i] in t.pages && IsChild(t.pages[q[i]], q[i + 1]) {
      if i < |path| - 1 { assert IsChild(t.pages[path[i]], path[i + 1]); }
    }
  }

  /** The chain meets the page whose own interval holds k, at that page's level. */
  lemma {:induction false} PathMeets(t: Tree, path: seq<PageId>, k: Key, n: PageId)
    requires Inv(t) && n in t.span && PathOk(t, path, k, t.span[n].level)
    requires |path| == t.span[ROOT].level + 1
    requires t.span[n].lo < Rank(k) <= t.span[n].hi
    requires forall m :: m in t.pend ==> t.pend[m] != n
    ensures var i := t.span[ROOT].level - t.span[n].level;
            && 0 <= i < |path| && path[i] == n
            && forall l :: 0 <= l < |path| && path[l] == n ==> l == i
  {
    var i := t.span[ROOT].level - t.span[n].level;
    assert Covers(t, path[i], k);
    CoverUnique(t, n, path[i], k);
  }

  /** At one level, a pointer that covers a key of n's own interval is a pointer to n. */
  lemma {:induction false} CoverUnique(t: Tree, n: PageId, q: PageId, k: Key)
    requires Inv(t) && n in t.span && q in t.span && t.span[n].level == t.span[q].level
    requires t.span[n].lo < Rank(k) <= t.span[n].hi && Covers(t, q, k)
    requires forall m :: m in t.pend ==> t.pend[m] != n
    ensures q == n
  {
    assert q != n ==> Apart(t.span[q], t.span[n]);
    assert q in t.pend ==> PendOk(t, q) && Apart(t.span[t.pend[q]], t.span[n]);
  }

  /** u agrees with t on every page up to a level. */
  ghost predicate SameUpTo(t: Tree, u: Tree, level: int) {
    && (forall q :: q in t.span && t.span[q].level <= level ==>
                      && q in u.span && u.span[q] == t.span[q]
                      && (q in t.pages ==> q in u.pages && u.pages[q] == t.pages[q]))
    && (forall q :: q in u.span && u.span[q].level <= level ==> q in t.span && t.span[q] == u.span[q])
  }

  /** A root page after one leaf split: either it gained at most one separator, or it
      was full (or the only leaf), grew, and holds at most one separator. */
  ghost predicate RootKept(t: Tree, u: Tree) {
    && ROOT in t.span && ROOT in u.span && ROOT in t.pages && ROOT in u.pages
    && u.span[ROOT].level == t.span[ROOT].level
    && Used(u.pages[ROOT].entries) <= Used(t.pages[ROOT].entries) + MAX_SEPARATOR
  }

  ghost predicate RootGrew(t: Tree, u: Tree) {
    && ROOT in t.span && ROOT in u.span && ROOT in t.pages && ROOT in u.pages
    && u.span[ROOT].level == t.span[ROOT].level + 1
    && Used(u.pages[ROOT].entries) <= MAX_SEPARATOR
    && (t.span[ROOT].level == 0 || t.pages[ROOT].free < MAX_SEPARATOR)
  }

  ghost predicate RootSame(t: Tree, u: Tree) {
    && ROOT in t.span && ROOT in u.span && ROOT in t.pages && ROOT in u.pages
    && u.span[ROOT] == t.span[ROOT] && u.pages[ROOT] == t.pages[ROOT]
  }

  /** Largest pair a page of the level can hold. */
  function MaxPairAt(level: nat): nat {
    if level == 0 then MAX_PAIR else MAX_SEPARATOR
  }

  /** After x was split: every page of its level is an old neighbour, untouched, or one
      of the two halves, at most about half as full as x was. */
  ghost predicate Halved(t: Tree, u: Tree, x: PageId)
    requires x in t.span && x in t.pages
  {
    forall q :: q in u.span && q in u.pages && u.span[q].level == t.span[x].level ==>
      || (q != x && q in t.span && q in t.pages && u.span[q] == t.span[q] && u.pages[q] == t.pages[q])
      || Used(u.pages[q].entries) <= Used(t.pages[x].entries) / 2 - 1 + MaxPairAt(t.span[x].level)
  }

  /** Every parent of n has room for one more separator of any size. */
  ghost predicate Roomy(t: Tree, n: PageId) {
    forall p, j: nat :: p in t.span && p in t.pages && t.span[p].level > 0
                        && j <= |t.pages[p].entries| && Child(t.pages[p], j) == n
                        ==> t.pages[p].free >= MAX_SEPARATOR
  }

  /** A page may be split: a leaf of at least two pairs, or an internal page without
      room for one more separator. */
  ghost predicate Splittable(t: Tree, x: PageId) {
    && x in t.span && x in t.pages
    && (if t.span[x].level == 0 then |t.pages[x].entries| >= 2 else t.pages[x].free < MAX_SEPARATOR)
  }

  lemma {:induction false} EntrySizes(p: Page, s: Span)
    requires PageOk(p, s)
    ensures forall i :: 0 <= i < |p.entries| ==> PairSize(p.entries[i]) <= MaxPairAt(s.level)
  {
    forall i | 0 <= i < |p.entries| ensures PairSize(p.entries[i]) <= MaxPairAt(s.level) {
      assert EntryOk(p.leaf, p.entries[i], s);
    }
  }

  /** A full internal page holds at least 15 separators. */
  lemma {:induction false} FullHasFifteen(p: Page, s: Span)
    requires PageOk(p, s) && s.level > 0 && p.free < MAX_SEPARATOR
    ensures |p.entries| >= 15
  {
    EntrySizes(p, s);
    UsedBound(p.entries, MAX_SEPARATOR);
  }

  /** A leaf without room for some legal pair holds at least 3 pairs. */
  lemma {:induction false} FullLeafHasThree(p: Page, s: Span, e: Entry)
    requires PageOk(p, s) && s.level == 0 && p.free < PairSize(e) <= MAX_PAIR
    ensures |p.entries| >= 3
  {
    EntrySizes(p, s);
    UsedBound(p.entries, MAX_PAIR);
  }

  /** Sizes of the halves of a carved page. */
  lemma {:induction false} CarveSizes(p: Page, s: Span, r: PageId, mid: nat)
    requires PageOk(p, s) && IsSplitPoint(p.entries, mid)
    ensures var c := CarveAt(p, mid, r);
            && Used(c.left.entries) <= Used(p.entries) / 2 - 1 + MaxPairAt(s.level)
            && Used(c.right.entries) <= Used(p.entries) / 2 - 1 + MaxPairAt(s.level)
  {
    hide Used, Sorted, EntryOk;
    EntrySizes(p, s);
    SplitPointBalance(p.entries, mid, MaxPairAt(s.level));
    assert p.entries[mid..] == [p.entries[mid]] + p.entries[mid + 1..];
    UsedConcat([p.entries[mid]], p.entries[mid + 1..]);
  }

  /** Growing the root leaves the pages below it alone. */
  lemma {:induction false} GrowFrame(t: Tree, id: PageId)
    requires Inv(t) && Fresh(t, id) && ROOT in t.pages
    ensures SameUpTo(t, Grow(t, id), t.span[ROOT].level - 1)
  {
    var u := Grow(t, id);
    forall q | q in u.span && u.span[q].level < t.span[ROOT].level ensures q in t.span && t.span[q] == u.span[q] {
    }
  }

  /** The split of the parent leaves n below a page that has room. */
  lemma {:induction false} HalvedIsRoomy(t: Tree, u: Tree, x: PageId, n: PageId, j: nat)
    requires Inv(t) && Inv(u) && x in t.span && x in t.pages && t.span[x].level > 0
    requires Halved(t, u, x)
    requires j <= |t.pages[x].entries| && Child(t.pages[x], j) == n
    requires n in u.span && u.span[n].level + 1 == t.span[x].level
    ensures Roomy(u, n)
  {
    assert NodeOk(t, x);
    forall p, i: nat | p in u.span && p in u.pages && u.span[p].level > 0
                       && i <= |u.pages[p].entries| && Child(u.pages[p], i) == n
      ensures u.pages[p].free >= MAX_SEPARATOR
    {
      assert NodeOk(u, p) && LinkOk(u, p, i);
      if p != x && p in t.span && p in t.pages && u.span[p] == t.span[p] && u.pages[p] == t.pages[p] {
        ChildUnique(t, p, i, x, j);
      }
    }
  }

  // ---- btree_split_node, step by step ------------------------------------

  /** The tree in which x is about to be carved, and the id its page has there: when x is
      the root, its contents have just moved to a fresh page. */
  ghost predicate Prepared(t: Tree, x: PageId, u: Tree, n: PageId) {
    && Inv(t) && Inv(u) && Splittable(t, x) && SettledFrom(t, t.span[x].level)
    && ROOT in t.pages && ROOT in t.span
    && (if x == ROOT then Fresh(t, n) && u == Grow(t, n) else u == t && n == x)
  }

  lemma {:induction false} SplittableHasTwo(t: Tree, x: PageId)
    requires Inv(t) && Splittable(t, x)
    ensures |t.pages[x].entries| >= 2
  {
    assert NodeOk(t, x);
    if t.span[x].level > 0 { FullHasFifteen(t.pages[x], t.span[x]); }
  }

  lemma {:induction false} PreparedFacts(t: Tree, x: PageId, u: Tree, n: PageId)
    requires Prepared(t, x, u, n)
    ensures n in u.span && n in u.pages && n != ROOT && n !in u.pend && ROOT in u.span
    ensures u.span[n] == t.span[x] && u.pages[n] == t.pages[x] && u.pend == t.pend
    ensures |u.pages[n].entries| >= 2
    ensures u.span[n].level == 0 || u.pages[n].free < MAX_SEPARATOR
    ensures SettledFrom(u, u.span[n].level) && u.span[n].level < u.span[ROOT].level
    ensures SameUpTo(t, u, t.span[x].level - 1)
  {
    hide Inv;
    SplittableHasTwo(t, x);
    PendsLive(t);
    if x == ROOT {
      GrowFrame(t, n);
    } else {
      RootAbove(t, x);
    }
  }

  /** Only the root and the page its contents moved to differ, when x is the root. */
  lemma {:induction false} PreparedElsewhere(t: Tree, x: PageId, u: Tree, n: PageId)
    requires Prepared(t, x, u, n)
    ensures forall q :: q in u.span && q != n && q != ROOT ==>
                          q != x && q in t.span && u.span[q] == t.span[q]
                          && (q in u.pages ==> q in t.pages && u.pages[q] == t.pages[q])
    ensures x in t.span && x in t.pages && ROOT in u.span && u.span[ROOT].level > t.span[x].level
  {
    hide Inv, SettledFrom;
    RootLives(t);
    if x != ROOT { RootAbove(t, x); }
  }

  lemma {:induction false} RootAbove(t: Tree, x: PageId)
    requires Inv(t) && x in t.span && x != ROOT
    ensures ROOT in t.span && t.span[x].level < t.span[ROOT].level
  {
    if t.span[x].level == t.span[ROOT].level { RootAlone(t, x); }
  }

  lemma {:induction false} CarvedHalves(t: Tree, x: PageId, u: Tree, n: PageId, r: PageId, mid: nat)
    requires Prepared(t, x, u, n) && CanCarve(u, n, r, mid) && IsSplitPoint(u.pages[n].entries, mid)
    ensures Halved(t, Carve(u, n, r, mid), x)
  {
    hide Carve, CarveAt, Inv, IsSplitPoint, SettledFrom, SameUpTo, Prepared, Used, PageOk;
    PreparedFacts(t, x, u, n);
    PreparedElsewhere(t, x, u, n);
    CarvedSep(u, n, r, mid);
    CarveSizes(u.pages[n], u.span[n], r, mid);
    CarveShape(u, n, r, mid);
  }

  lemma {:induction false} CarvedSame(u: Tree, n: PageId, r: PageId, mid: nat)
    requires CanCarve(u, n, r, mid)
    ensures SameUpTo(u, Carve(u, n, r, mid), u.span[n].level - 1)
    ensures RootSame(u, Carve(u, n, r, mid))
  {
    hide Carve, CarveAt, Inv, SettledFrom, NodeOk;
    RootLives(u);
    CarveShape(u, n, r, mid);
  }

  lemma {:induction false} PendsLive(t: Tree)
    requires Inv(t)
    ensures forall m :: m in t.pend ==> m in t.span
  {
    forall m | m in t.pend ensures m in t.span { assert PendOk(t, m); }
  }

  /** After the carve, n awaits publication and is the only such page at its level. */
  lemma {:induction false} CarvedPends(u: Tree, n: PageId, r: PageId, mid: nat)
    requires CanCarve(u, n, r, mid)
    ensures var v := Carve(u, n, r, mid);
            var sep := CarveAt(u.pages[n], mid, r).sep;
            && n in v.pend && n in v.span && v.pend[n] == r && v.span[n].level == u.span[n].level
            && 1 <= |sep| <= MAX_KEY_SIZE && Rank(sep) == v.span[n].hi
            && SettledFrom(v, v.span[n].level + 1)
            && (n !in u.pend ==> v.pend - {n} == u.pend)
  {
    hide Carve, CarveAt, Inv;
    var v := Carve(u, n, r, mid);
    CarvedSep(u, n, r, mid);
    CarveShape(u, n, r, mid);
    PendsLive(u);
    if n !in u.pend { assert v.pend - {n} == u.pend; }
  }

  /** Below a freshly grown root there is room. */
  lemma {:induction false} GrownIsRoomy(t: Tree, u: Tree, n: PageId, r: PageId, mid: nat)
    requires Prepared(t, ROOT, u, n) && CanCarve(u, n, r, mid) && Inv(Carve(u, n, r, mid))
    ensures Roomy(Carve(u, n, r, mid), n)
  {
    var v := Carve(u, n, r, mid);
    forall p, j: nat | p in v.span && p in v.pages && v.span[p].level > 0
                       && j <= |v.pages[p].entries| && Child(v.pages[p], j) == n
      ensures v.pages[p].free >= MAX_SEPARATOR
    {
      assert NodeOk(v, p) && LinkOk(v, p, j);
      RootAlone(v, p);
    }
  }

  /** Putting the steps of a split together. */
  lemma {:induction false} SplitDone(t: Tree, x: PageId, u: Tree, n: PageId, v: Tree, w: Tree)
    requires Prepared(t, x, u, n) && Inv(v) && Inv(w) && Halved(t, v, x)
    requires SameUpTo(u, v, t.span[x].level - 1) && RootSame(u, v)
    requires SameUpTo(v, w, t.span[x].level)
    requires RootKept(v, w) || RootGrew(v, w)
    requires x == ROOT ==> RootKept(v, w)
    ensures SameUpTo(t, w, t.span[x].level - 1) && Halved(t, w, x)
    ensures RootKept(t, w) || RootGrew(t, w)
    ensures w.span[ROOT].level > t.span[x].level
  {
    hide Inv, SameUpTo, Halved, SettledFrom;
    RootLives(t);
    RootLives(u);
    RootLives(v);
    RootLives(w);
    PreparedFacts(t, x, u, n);
    SameTransitive(t, u, v, t.span[x].level - 1, t.span[x].level - 1);
    SameTransitive(t, v, w, t.span[x].level - 1, t.span[x].level);
    HalvedStays(t, v, w, x);
  }

  lemma {:induction false} SameTransitive(t: Tree, u: Tree, v: Tree, a: int, b: int)
    requires SameUpTo(t, u, a) && SameUpTo(u, v, b) && a <= b
    requires NodesOk(t)
    ensures SameUpTo(t, v, a)
  {
    forall q | q in t.span ensures q in t.pages { assert NodeOk(t, q); }
    hide NodesOk;
  }

  lemma {:induction false} HalvedStays(t: Tree, u: Tree, v: Tree, x: PageId)
    requires x in t.span && x in t.pages && Halved(t, u, x) && SameUpTo(u, v, t.span[x].level)
    requires NodesOk(u) && NodesOk(v)
    ensures Halved(t, v, x)
  {
    forall q | q in v.span && q in v.pages && v.span[q].level == t.span[x].level
      ensures || (q != x && q in t.span && q in t.pages && v.span[q] == t.span[q] && v.pages[q] == t.pages[q])
              || Used(v.pages[q].entries) <= Used(t.pages[x].entries) / 2 - 1 + MaxPairAt(t.span[x].level)
    {
      assert q in u.span && NodeOk(u, q);
    }
  }

  // ---- insert_separator, step by step -------------------------------------

  /** n was carved off at separator sep, and nothing above n's level is pending. */
  ghost predicate Awaits(t: Tree, n: PageId, sep: Key) {
    && Inv(t) && n in t.pend && n in t.span && ROOT in t.span
    && 1 <= |sep| <= MAX_KEY_SIZE && Rank(sep) == t.span[n].hi
    && SettledFrom(t, t.span[n].level + 1)
    && t.span[n].level < t.span[ROOT].level
  }

  /** The separator still routes from the root to the left half: the descent meets n, and
      the page before it on the way is n's parent. */
  lemma {:induction false} SeparatorRoutes(t: Tree, n: PageId, sep: Key, path: seq<PageId>)
    requires Awaits(t, n, sep) && PathOk(t, path, sep, t.span[n].level) && |path| == t.span[ROOT].level + 1
    ensures var i := t.span[ROOT].level - t.span[n].level;
            && 0 < i < |path| && path[i] == n
            && (forall l :: 0 <= l < |path| && path[l] == n ==> l == i)
            && path[i - 1] in t.span && path[i - 1] in t.pages
            && t.span[path[i - 1]].level == t.span[n].level + 1
            && IsChild(t.pages[path[i - 1]], n)
  {
    assert NodeOk(t, n);
    forall m | m in t.pend ensures t.pend[m] != n { assert PendOk(t, m); }
    PathMeets(t, path, sep, n);
  }

  /** The parent has room: the separator can go in at the pointer to n. */
  lemma {:induction false} PublishFrame(t: Tree, n: PageId, sep: Key, p: PageId, idx: nat)
    requires Awaits(t, n, sep) && p in t.span && p in t.pages && t.span[p].level == t.span[n].level + 1
    requires idx <= |t.pages[p].entries| && Child(t.pages[p], idx) == n
    requires t.pages[p].free >= PAIR_HEADER + |sep|
    ensures CanPublish(t, p, idx, sep)
    ensures SameUpTo(t, Publish(t, p, idx, sep), t.span[n].level)
    ensures RootKept(t, Publish(t, p, idx, sep))
    ensures t.span[ROOT].level > t.span[n].level + 1 ==> RootSame(t, Publish(t, p, idx, sep))
    ensures Publish(t, p, idx, sep).pend == t.pend - {n}
  {
    hide Inv, Published, SettledFrom, Used;
    RootLives(t);
    PublishedUsed(t.pages[p], idx, sep, n, t.pend[n]);
  }

  /** The parent is full: it may be split. */
  lemma {:induction false} ParentSplits(t: Tree, n: PageId, sep: Key, p: PageId, idx: nat)
    requires Awaits(t, n, sep) && p in t.span && p in t.pages && t.span[p].level == t.span[n].level + 1
    requires idx <= |t.pages[p].entries| && Child(t.pages[p], idx) == n
    requires t.pages[p].free < PAIR_HEADER + |sep|
    ensures !Roomy(t, n) && Splittable(t, p) && SettledFrom(t, t.span[p].level)
  {
  }

  /** After the parent was split, n still awaits publication, now below a page with room. */
  lemma {:induction false} StillAwaits(t: Tree, u: Tree, n: PageId, sep: Key, p: PageId, idx: nat)
    requires Awaits(t, n, sep) && p in t.span && p in t.pages && t.span[p].level == t.span[n].level + 1
    requires idx <= |t.pages[p].entries| && Child(t.pages[p], idx) == n
    requires Inv(u) && u.pend == t.pend && SameUpTo(t, u, t.span[n].level) && Halved(t, u, p)
    requires ROOT in u.span && u.span[ROOT].level > t.span[p].level
    ensures Awaits(u, n, sep) && Roomy(u, n) && u.span[n] == t.span[n]
  {
    hide Inv, Roomy, Halved;
    PendsLive(t);
    HalvedIsRoomy(t, u, p, n, idx);
  }

  // ---- how a leaf's load falls as it is split ------------------------------

  /** After n splits of the leaf that covers a key, that leaf holds at most this many bytes. */
  function LoadAfter(n: nat): nat {
    if n == 0 then PAGE_CAPACITY else LoadAfter(n - 1) / 2 - 1 + MAX_PAIR
  }

  /** Four splits always make room for any legal pair; three need not. */
  lemma {:induction false} FourSplitsSuffice()
    ensures PAGE_CAPACITY - LoadAfter(3) < MAX_PAIR <= PAGE_CAPACITY - LoadAfter(4)
    ensures LoadAfter(0) > LoadAfter(1) > LoadAfter(2) > LoadAfter(3) > LoadAfter(4)
  {
    assert LoadAfter(1) == 3299;
    assert LoadAfter(2) == 2936;
    assert LoadAfter(3) == 2755;
    assert LoadAfter(4) == 2664;
  }

  ghost predicate LeafFor(t: Tree, q: PageId, k: Key) {
    q in t.span && q in t.pages && t.span[q].level == 0 && t.span[q].lo < Rank(k) <= t.span[q].hi
  }

  /** Every leaf that covers k (there is one) is loaded by at most n bytes. */
  ghost predicate LoadBound(t: Tree, k: Key, n: nat) {
    forall q :: LeafFor(t, q, k) ==> Used(t.pages[q].entries) <= n
  }

  lemma {:induction false} SplitLightens(t: Tree, u: Tree, x: PageId, k: Key, n: nat)
    requires Inv(t) && LeafFor(t, x, k) && Halved(t, u, x) && LoadBound(t, k, LoadAfter(n))
    ensures LoadBound(u, k, LoadAfter(n + 1))
  {
    forall q | LeafFor(u, q, k) ensures Used(u.pages[q].entries) <= LoadAfter(n + 1) {
      assert q != x && q in t.span && q in t.pages && u.span[q] == t.span[q] ==> Apart(t.span[q], t.span[x]);
    }
  }

  /** No leaf exceeds the page capacity. */
  lemma {:induction false} LoadAtMostCapacity(t: Tree, k: Key)
    requires Inv(t)
    ensures LoadBound(t, k, LoadAfter(0))
  {
    forall q | LeafFor(t, q, k) ensures Used(t.pages[q].entries) <= LoadAfter(0) {
      assert NodeOk(t, q);
    }
  }

  // ---- reachability ----------------------------------------------------------

  lemma {:induction false} FirstNotBelow(es: seq<Entry>, x: real) returns (j: nat)
    ensures j <= |es| && (forall i :: 0 <= i < j ==> Rank(es[i].key) < x) && (j < |es| ==> x <= Rank(es[j].key))
  {
    j := 0;
    while j < |es| && Rank(es[j].key) < x
      invariant j <= |es| && forall i :: 0 <= i < j ==> Rank(es[i].key) < x
    {
      j := j + 1;
    }
  }

  /** Some pointer of an internal page leads towards any point of its interval. */
  lemma {:induction false} PointerFor(t: Tree, p: PageId, x: real) returns (j: nat)
    requires Inv(t) && p in t.span && t.span[p].level > 0 && t.span[p].lo < x <= t.span[p].hi
    ensures p in t.pages && j <= |t.pages[p].entries| && LinkOk(t, p, j)
    ensures Low(t.pages[p], t.span[p], j) < x <= High(t.pages[p], t.span[p], j)
  {
    assert NodeOk(t, p);
    j := FirstNotBelow(t.pages[p].entries, x);
    assert LinkOk(t, p, j);
  }

  /** Between operations every page but the root hangs below exactly one pointer, one level
      up: the tree has uniform depth and reaches each of its pages once. */
  lemma {:induction false} ReachedOnce(t: Tree, p: PageId) returns (q: PageId, j: nat)
    requires Inv(t) && t.pend == map[] && p in t.span && p != ROOT
    ensures q in t.span && q in t.pages && t.span[q].level == t.span[p].level + 1
    ensures j <= |t.pages[q].entries| && Child(t.pages[q], j) == p
    ensures forall q', j': nat | q' in t.span && q' in t.pages && t.span[q'].level > 0
                                 && j' <= |t.pages[q'].entries| && Child(t.pages[q'], j') == p
              :: q' == q && j' == j
  {
    assert NodeOk(t, p);
    if t.span[p].level == t.span[ROOT].level { RootAlone(t, p); }
    q := ROOT;
    j := PointerFor(t, ROOT, t.span[p].hi);
    while t.span[q].level > t.span[p].level + 1
      invariant q in t.span && q in t.pages && t.span[q].level > t.span[p].level
      invariant j <= |t.pages[q].entries| && LinkOk(t, q, j)
      invariant Low(t.pages[q], t.span[q], j) < t.span[p].hi <= High(t.pages[q], t.span[q], j)
      decreases t.span[q].level
    {
      q := Child(t.pages[q], j);
      j := PointerFor(t, q, t.span[p].hi);
    }
    var c := Child(t.pages[q], j);
    assert c != p ==> Apart(t.span[c], t.span[p]);
    forall q', j': nat | q' in t.span && q' in t.pages && t.span[q'].level > 0
                         && j' <= |t.pages[q'].entries| && Child(t.pages[q'], j') == p
      ensures q' == q && j' == j
    {
      ChildUnique(t, q', j', q, j);
    }
  }

  /** Every key has a leaf. */
  lemma {:induction false} LeafCovering(t: Tree, k: Key) returns (p: PageId)
    requires Inv(t) && t.pend == map[]
    ensures LeafFor(t, p, k)
  {
    p := ROOT;
    assert NodeOk(t, ROOT);
    while t.span[p].level > 0
      invariant p in t.span && t.span[p].lo < Rank(k) <= t.span[p].hi
      decreases t.span[p].level
    {
      var j := PointerFor(t, p, Rank(k));
      p := Child(t.pages[p], j);
    }
    assert NodeOk(t, p);
  }

  // ---- keys of an unpublished half -----------------------------------------------------

  /** k falls in the page's own interval. */
  ghost predicate Own(t: Tree, p: PageId, k: Key) {
    p in t.span && t.span[p].lo < Rank(k) <= t.span[p].hi
  }

  /** k belongs to a right half, at this level or above, that is not published yet. */
  ghost predicate Hidden(t: Tree, k: Key, level: nat) {
    exists n :: n in t.pend && n in t.span && t.span[n].level >= level && Own(t, t.pend[n], k)
  }

  /** A page whose right half is unpublished has its pointer in some parent. */
  lemma {:induction false} PendingHasParent(t: Tree, n: PageId) returns (q: PageId, i: nat)
    requires Inv(t) && n in t.pend
    ensures n in t.span && q in t.span && q in t.pages && t.span[q].level == t.span[n].level + 1
    ensures i <= |t.pages[q].entries| && Child(t.pages[q], i) == n
  {
    assert PendOk(t, n) && NodeOk(t, n);
    var x := t.span[n].hi;
    assert n != ROOT && !Apart(t.span[n], t.span[ROOT]);
    q := ROOT;
    while true
      invariant q in t.span && t.span[q].level > t.span[n].level && t.span[q].lo < x <= t.span[q].hi
      decreases t.span[q].level
    {
      i := PointerFor(t, q, x);
      assert NodeOk(t, q) && LinkOk(t, q, i);
      var c := Child(t.pages[q], i);
      var mine := if x <= t.span[c].hi then c else t.pend[c];
      assert c in t.pend ==> PendOk(t, c);
      if t.span[c].level == t.span[n].level {
        assert !Apart(t.span[mine], t.span[n]);
        return;
      }
      q := mine;
    }
  }

  /** No pointer leads to an unpublished half. */
  lemma {:induction false} HalfNotLinked(t: Tree, n: PageId, p: PageId, j: nat)
    requires Inv(t) && n in t.pend && p in t.span && p in t.pages && t.span[p].level > 0 && j <= |t.pages[p].entries|
    ensures Child(t.pages[p], j) != t.pend[n]
  {
    var r := t.pend[n];
    var q, i := PendingHasParent(t, n);
    assert PendOk(t, n) && NodeOk(t, p) && NodeOk(t, q) && LinkOk(t, p, j) && LinkOk(t, q, i);
    LinkInside(t, p, j);
    LinkInside(t, q, i);
    if Child(t.pages[p], j) == r {
      assert t.span[r].hi == High(t.pages[p], t.span[p], j) == High(t.pages[q], t.span[q], i);
      assert !Apart(t.span[p], t.span[q]);
      HighsDiffer(t, p, i, j);
      HighsDiffer(t, p, j, i);
      assert false;
    }
  }

  lemma {:induction false} HighsDiffer(t: Tree, p: PageId, i: nat, j: nat)
    requires Inv(t) && p in t.span && p in t.pages && t.span[p].level > 0
    ensures i < j <= |t.pages[p].entries| ==> High(t.pages[p], t.span[p], i) < High(t.pages[p], t.span[p], j)
  {
    if i < j <= |t.pages[p].entries| {
      assert NodeOk(t, p);
      LinkInside(t, p, j);
      SortedPair(t.pages[p].entries, i, j - 1);
    }
  }

  /** Where a descent for k stands: in the page whose own interval holds k, or, once it has
      passed a page with k in its unpublished half, to the left of k for good. */
  ghost predicate OnWay(t: Tree, p: PageId, k: Key) {
    p in t.span && if Hidden(t, k, t.span[p].level) then t.span[p].hi < Rank(k) else Own(t, p, k)
  }

  /** Between operations nothing is hidden. */
  lemma {:induction false} NothingHidden(t: Tree, p: PageId, k: Key)
    ensures t.pend == map[] ==> !Hidden(t, k, 0) && (OnWay(t, p, k) <==> Own(t, p, k))
  {
  }

  lemma {:induction false} OnWayStarts(t: Tree, k: Key)
    requires Inv(t)
    ensures OnWay(t, ROOT, k)
  {
    forall n | n in t.pend ensures n in t.span && t.span[n].level < t.span[ROOT].level {
      assert PendOk(t, n) && NodeOk(t, n);
      assert !Apart(t.span[n], t.span[ROOT]);
    }
  }

  lemma {:induction false} OnWayMoves(t: Tree, p: PageId, k: Key, pos: nat)
    requires Inv(t) && p in t.pages && OnWay(t, p, k) && t.span[p].level > 0 && IsPosition(t.pages[p].entries, k, pos)
    ensures OnWay(t, Child(t.pages[p], pos), k)
  {
    hide EntryOk, Sorted, ChainOk, Used;
    assert NodeOk(t, p) && LinkOk(t, p, pos);
    LinkInside(t, p, pos);
    var c := Child(t.pages[p], pos);
    assert NodeOk(t, c);
    assert c in t.pend ==> PendOk(t, c) && NodeOk(t, t.pend[c]);
    if Hidden(t, k, t.span[p].level) {
      assert t.span[c].hi <= Reach(t, c);
    } else if Rank(k) <= t.span[c].hi {
      forall n | n in t.pend && n in t.span && t.span[n].level >= t.span[c].level ensures !Own(t, t.pend[n], k) {
        if t.span[n].level == t.span[c].level {
          HalfNotLinked(t, n, p, pos);
          assert PendOk(t, n);
          assert Apart(t.span[t.pend[n]], t.span[c]);
        }
      }
    } else {
      assert Own(t, t.pend[c], k);
    }
  }

  /** Between carving a node and publishing its half, exactly the keys of that half are
      hidden. */
  lemma {:induction false} CarvedIsHidden(t: Tree, n: PageId, r: PageId, mid: nat, k: Key)
    requires CanCarve(t, n, r, mid) && t.pend == map[]
    ensures Hidden(Carve(t, n, r, mid), k, 0) <==>
              Rank(CarveAt(t.pages[n], mid, r).sep) < Rank(k) <= t.span[n].hi
  {
    hide Carve, CarveAt, Inv, SettledFrom;
    CarveShape(t, n, r, mid);
    var u := Carve(t, n, r, mid);
    assert u.pend == map[n := r];
    assert Own(u, r, k) ==> n in u.pend && n in u.span && Own(u, u.pend[n], k);
  }
}
