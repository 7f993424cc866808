/** Page-level operations of the B-tree (storage/src/btree.c).

    A page is its header fields plus its packed pairs.  The pairs are kept as a
    sequence of entries; what their bytes cost is `PairSize`, and `free` is the
    header's free_space.  key_count is the length of the sequence. */
module Pages {
  import opened Common
  import opened Keys

  /** 0 is the "no page" sentinel: never a real id, and the end of the leaf chain. */
  type PageId = nat

  /** PAGE_SIZE minus the 72-byte page header. */
  const PAGE_CAPACITY := 4024
  /** sizeof(kv_pair_t). */
  const PAIR_HEADER := 8
  const MAX_PAIR := PAIR_HEADER + MAX_KEY_SIZE + MAX_VALUE_SIZE
  const MAX_SEPARATOR := PAIR_HEADER + MAX_KEY_SIZE

  /** A leaf entry carries a value and child 0; an internal entry carries a child
      and no value. */
  datatype Entry = Entry(key: Key, value: Value, child: PageId)

  /** `next` is the right sibling on a leaf and the rightmost child otherwise. */
  datatype Page = Page(leaf: bool, entries: seq<Entry>, free: int, next: PageId)

  function PairSize(e: Entry): nat {
    PAIR_HEADER + |e.key| + |e.value|
  }

  /** Bytes the entries occupy.  The offset of entry i is Used(es[..i]). */
  function Used(es: seq<Entry>): (u: nat)
    ensures PAIR_HEADER * |es| <= u
  {
    if |es| == 0 then 0 else Used(es[..|es| - 1]) + PairSize(es[|es| - 1])
  }

  lemma {:induction false} UsedConcat(a: seq<Entry>, b: seq<Entry>)
    ensures Used(a + b) == Used(a) + Used(b)
    decreases |b|
  {
    if |b| == 0 {
      assert a + b == a;
    } else {
      assert (a + b)[..|a + b| - 1] == a + b[..|b| - 1];
      UsedConcat(a, b[..|b| - 1]);
    }
  }

  lemma {:induction false} UsedOne(e: Entry)
    ensures Used([e]) == PairSize(e)
  {
    assert [e][..0] == [];
  }

  /** Rewriting the child pointers of entries does not change their size. */
  lemma {:induction false} UsedUpdate(es: seq<Entry>, i: nat, e: Entry)
    requires i < |es|
    ensures Used(es[i := e]) == Used(es) - PairSize(es[i]) + PairSize(e)
  {
    assert es == es[..i] + [es[i]] + es[i + 1..];
    assert es[i := e] == es[..i] + [e] + es[i + 1..];
    UsedConcat(es[..i], [es[i]]);
    UsedConcat(es[..i] + [es[i]], es[i + 1..]);
    UsedConcat(es[..i], [e]);
    UsedConcat(es[..i] + [e], es[i + 1..]);
    assert Used([e]) == PairSize(e) && Used([es[i]]) == PairSize(es[i]);
  }

  /** Entries of bounded size: n of them cannot exceed n times the bound. */
  lemma {:induction false} UsedBound(es: seq<Entry>, m: nat)
    requires forall i :: 0 <= i < |es| ==> PairSize(es[i]) <= m
    ensures Used(es) <= |es| * m
  {
    if |es| > 0 {
      UsedBound(es[..|es| - 1], m);
      assert |es| * m == (|es| - 1) * m + m;
    }
  }

  ghost predicate Sorted(es: seq<Entry>) {
    forall i, j :: 0 <= i < j < |es| ==> Rank(es[i].key) < Rank(es[j].key)
  }

  lemma {:induction false} SortedPair(es: seq<Entry>, i: int, j: int)
    requires Sorted(es)
    ensures 0 <= i < j < |es| ==> Rank(es[i].key) < Rank(es[j].key)
  {
  }

  /** pos is the first entry whose key is not below k. */
  ghost predicate IsPosition(es: seq<Entry>, k: Key, pos: nat) {
    && pos <= |es|
    && (forall i :: 0 <= i < pos ==> Rank(es[i].key) < Rank(k))
    && (forall i :: pos <= i < |es| ==> Rank(k) <= Rank(es[i].key))
  }

  /** find_key_position: binary search for the first key >= k. */
  method FindKeyPosition(page: Page, k: Key) returns (pos: nat)
    requires Sorted(page.entries)
    ensures IsPosition(page.entries, k, pos)
  {
    var es := page.entries;
    var left := 0;
    var right := |es| - 1;
    while left <= right
      invariant 0 <= left <= right + 1 <= |es|
      invariant forall i :: 0 <= i < left ==> Rank(es[i].key) < Rank(k)
      invariant forall i :: right < i < |es| ==> Rank(k) < Rank(es[i].key)
    {
      var mid := (left + right) / 2;
      var cmp := CompareKeys(k, es[mid].key);
      CompareIsRank(k, es[mid].key);
      if cmp == 0 {
        return mid;
      } else if cmp < 0 {
        right := mid - 1;
      } else {
        left := mid + 1;
      }
    }
    pos := left;
  }

  /** What choose_split_index promises: the first entry past the halfway byte,
      or the last entry when none starts there. */
  ghost predicate IsSplitPoint(es: seq<Entry>, mid: int) {
    && 0 < mid < |es|
    && (forall i :: 0 < i < mid ==> Used(es[..i]) < Used(es) / 2)
    && (Used(es[..mid]) >= Used(es) / 2 || mid == |es| - 1)
  }

  /** choose_split_index: -1 when the page has fewer than two entries. */
  method ChooseSplitIndex(es: seq<Entry>) returns (mid: int)
    ensures |es| < 2 ==> mid == -1
    ensures |es| >= 2 ==> IsSplitPoint(es, mid)
  {
    var half := Used(es) / 2;
    var offset := 0;
    for i := 0 to |es|
      invariant offset == Used(es[..i])
      invariant forall j :: 0 < j < i ==> Used(es[..j]) < half
    {
      if offset >= half && i > 0 {
        return i;
      }
      assert es[..i + 1][..i] == es[..i];
      offset := offset + PairSize(es[i]);
    }
    return if |es| > 1 then |es| - 1 else -1;
  }

  /** Byte balance of a split point: both sides stay near half, whatever the
      mix of sizes, because one entry is at most m bytes. */
  lemma {:induction false} SplitPointBalance(es: seq<Entry>, mid: int, m: nat)
    requires IsSplitPoint(es, mid)
    requires forall i :: 0 <= i < |es| ==> PairSize(es[i]) <= m
    ensures Used(es[..mid]) + Used(es[mid..]) == Used(es)
    ensures Used(es[..mid]) <= Used(es) / 2 - 1 + m
    ensures Used(es[mid..]) <= Used(es) / 2 - 1 + m
    ensures mid < |es| - 1 ==> Used(es) / 2 <= Used(es[..mid])
  {
    assert es == es[..mid] + es[mid..];
    UsedConcat(es[..mid], es[mid..]);
    assert es[..mid][..mid - 1] == es[..mid - 1];
    if mid > 1 {
      assert Used(es[..mid - 1]) < Used(es) / 2;
    } else {
      assert es[..0] == [];
      assert PAIR_HEADER * |es| <= Used(es);
    }
    if Used(es[..mid]) < Used(es) / 2 {
      assert es[mid..] == [es[mid]];
      assert Used([es[mid]]) == PairSize(es[mid]) by {
        assert [es[mid]][..0] == [];
      }
    }
  }

  /** The two halves and the separator of a carved page. */
  datatype Carved = Carved(left: Page, right: Page, sep: Key)

  /** btree_split_page once the split index is known.  A leaf keeps the separator
      entry and links to its new right sibling; an internal node gives entry mid
      up to the parent and inherits its child as rightmost pointer. */
  function CarveAt(src: Page, mid: nat, rightId: PageId): (c: Carved)
    requires 0 < mid < |src.entries|
  {
    var es := src.entries;
    if src.leaf then
      Carved(Page(true, es[..mid], PAGE_CAPACITY - Used(es[..mid]), rightId),
             Page(true, es[mid..], PAGE_CAPACITY - Used(es[mid..]), src.next),
             es[mid - 1].key)
    else
      Carved(Page(false, es[..mid], PAGE_CAPACITY - Used(es[..mid]), es[mid].child),
             Page(false, es[mid + 1..], PAGE_CAPACITY - Used(es[mid + 1..]), src.next),
             es[mid].key)
  }

  /** btree_split_page: fails exactly on a page with fewer than two entries.  (The
      source admits an internal page with one entry at its first test, but its
      split-index search then refuses it.) */
  method SplitPage(src: Page, rightId: PageId) returns (r: Option<Carved>, ghost mid: int)
    ensures r.None? <==> |src.entries| < 2
    ensures r.Some? ==> IsSplitPoint(src.entries, mid) && r.value == CarveAt(src, mid, rightId)
  {
    mid := -1;
    if |src.entries| < (if src.leaf then 2 else 1) {
      return None, mid;
    }
    var m := ChooseSplitIndex(src.entries);
    mid := m;
    if m < 0 {
      return None, mid;
    }
    return Some(CarveAt(src, m, rightId)), mid;
  }

  function InsertAt(es: seq<Entry>, pos: nat, e: Entry): (r: seq<Entry>)
    requires pos <= |es|
  {
    es[..pos] + [e] + es[pos..]
  }

  /** insert_kv_pair: None when the pair does not fit in free_space. */
  function InsertPair(p: Page, pos: nat, e: Entry): (r: Option<Page>)
    requires pos <= |p.entries|
  {
    if p.free < PairSize(e) then None
    else Some(p.(entries := InsertAt(p.entries, pos, e), free := p.free - PairSize(e)))
  }

  /** delete_kv_pair: None when there is no such entry. */
  function DeletePair(p: Page, pos: nat): (r: Option<Page>)
  {
    if pos >= |p.entries| then None
    else Some(p.(entries := RemoveAt(p.entries, pos),
                 free := p.free + PairSize(p.entries[pos])))
  }

  lemma {:induction false} UsedInsert(es: seq<Entry>, pos: nat, e: Entry)
    requires pos <= |es|
    ensures Used(InsertAt(es, pos, e)) == Used(es) + PairSize(e)
  {
    assert es == es[..pos] + es[pos..];
    UsedConcat(es[..pos], es[pos..]);
    UsedConcat(es[..pos], [e]);
    UsedConcat(es[..pos] + [e], es[pos..]);
    assert [e][..0] == [];
  }

  lemma {:induction false} UsedRemove(es: seq<Entry>, pos: nat)
    requires pos < |es|
    ensures Used(RemoveAt(es, pos)) == Used(es) - PairSize(es[pos])
  {
    assert es == es[..pos] + [es[pos]] + es[pos + 1..];
    UsedConcat(es[..pos], [es[pos]]);
    UsedConcat(es[..pos] + [es[pos]], es[pos + 1..]);
    UsedConcat(es[..pos], es[pos + 1..]);
    assert [es[pos]][..0] == [];
  }
}
