/** The buffer pool as a value: frames found through hash chains, the data file behind
    them, and the logical content of every page (storage/src/pager.c). */
module PoolState {
  import opened Common
  import opened Pages

  const BUFFER_POOL_SIZE: nat := 10000
  const HASH_TABLE_SIZE: nat := 2 * BUFFER_POOL_SIZE

  /** A page image: its header lsn, and its contents unless the page is still all zero. */
  datatype Image = Image(lsn: nat, page: Option<Page>)

  /** One page slot of the data file: a whole image, or what a failed write left. */
  datatype Cell = Good(image: Image) | Torn

  datatype Frame = Frame(pageId: PageId, image: Option<Image>, dirty: bool, refs: nat, last: int, hashNext: int)

  /** chains: the frame indices of each bucket.  hashed: the frames in some chain.
      content: what each page holds, wherever it lives.  unmarked: the pages a caller has
      changed and not yet marked dirty. */
  datatype Pool = Pool(
    frames: seq<Frame>, table: seq<int>, disk: map<PageId, Cell>, filePages: nat,
    chains: seq<seq<int>>, hashed: set<int>, content: map<PageId, Image>, unmarked: set<PageId>)

  /** A page beyond the end of the file is initialised as an empty leaf. */
  const FRESH_IMAGE := Image(0, Some(Page(true, [], PAGE_CAPACITY, 0)))

  /** What reading a hole of the data file yields. */
  const BLANK_IMAGE := Image(0, None)

  function Bucket(id: PageId): (b: nat)
    ensures b < HASH_TABLE_SIZE
  {
    id % HASH_TABLE_SIZE
  }

  /** What a read of the data file returns. */
  function DiskRead(disk: map<PageId, Cell>, filePages: nat, id: PageId): Option<Cell> {
    if id in disk then Some(disk[id]) else if id < filePages then Some(Good(BLANK_IMAGE)) else None
  }

  /** Links of a chain of frame indices; -1 (UINT32_MAX) ends it. */
  ghost function Link(c: seq<int>, j: nat): int
    requires j < |c|
  {
    if j == |c| - 1 then -1 else c[j + 1]
  }

  /** A hash chain: distinct frames of one bucket, linked, with different page ids. */
  ghost predicate Chained(fs: seq<Frame>, c: seq<int>, first: int, b: nat) {
    && first == (if |c| == 0 then -1 else c[0])
    && (forall j {:trigger c[j]} :: 0 <= j < |c| ==> 0 <= c[j] < |fs|)
    && (forall j {:trigger fs[c[j]].hashNext} :: 0 <= j < |c| ==> fs[c[j]].hashNext == Link(c, j))
    && (forall j {:trigger fs[c[j]].pageId} :: 0 <= j < |c| ==> fs[c[j]].pageId != 0 && Bucket(fs[c[j]].pageId) == b)
    && (forall i, j :: 0 <= i < j < |c| ==> c[i] != c[j])
    && (forall i, j {:trigger fs[c[i]].pageId, fs[c[j]].pageId} ::
          0 <= i < j < |c| ==> fs[c[i]].pageId != fs[c[j]].pageId)
  }

  ghost predicate ChainsOk(s: Pool) {
    && |s.frames| == BUFFER_POOL_SIZE && |s.table| == HASH_TABLE_SIZE == |s.chains|
    && (forall b :: 0 <= b < HASH_TABLE_SIZE ==> Chained(s.frames, s.chains[b], s.table[b], b))
    && (forall b, i :: 0 <= b < HASH_TABLE_SIZE && i in s.chains[b] ==> i in s.hashed)
    && (forall i :: i in s.hashed ==> 0 <= i < |s.frames| && i in s.chains[Bucket(s.frames[i].pageId)])
  }

  /** A frame outside the chains is free: no pin, nothing to write back.  `but` is a frame
      a get_page call is in the middle of filling. */
  ghost predicate FreeOk(s: Pool, but: int) {
    forall i :: 0 <= i < |s.frames| && i !in s.hashed && i != but ==> !s.frames[i].dirty && s.frames[i].refs == 0
  }

  ghost predicate InFrame(s: Pool, p: PageId) {
    exists i :: i in s.hashed && 0 <= i < |s.frames| && s.frames[i].pageId == p
  }

  /** Where the content of a page is: in its frame, and in the data file too unless the frame
      is dirty or about to be marked so by a caller that still holds its pin; in the data file
      when the page has no frame. */
  ghost predicate FrameOk(s: Pool, i: int)
    requires 0 <= i < |s.frames|
  {
    var f := s.frames[i];
    && f.pageId in s.content && f.image == Some(s.content[f.pageId])
    && (f.dirty || f.pageId in s.unmarked || OnDisk(s, f.pageId))
    && (f.refs == 0 ==> f.pageId !in s.unmarked)
  }

  ghost predicate OnDisk(s: Pool, p: PageId) {
    p in s.content && DiskRead(s.disk, s.filePages, p) == Some(Good(s.content[p]))
  }

  ghost predicate ContentOk(s: Pool) {
    && (forall i :: i in s.hashed && 0 <= i < |s.frames| ==> FrameOk(s, i))
    && (forall p :: p in s.content && !InFrame(s, p) ==> OnDisk(s, p))
    && (forall p :: p in s.disk ==> p in s.content)
    && (forall p :: p in s.unmarked ==> InFrame(s, p))
    && 0 !in s.content
  }

  ghost predicate Ok(s: Pool, but: int) {
    ChainsOk(s) && FreeOk(s, but) && ContentOk(s)
  }

  lemma {:induction false} ChainIds(fs: seq<Frame>, c: seq<int>, first: int, b: nat, i: int, j: int)
    requires Chained(fs, c, first, b)
    ensures 0 <= i < j < |c| ==> fs[c[i]].pageId != fs[c[j]].pageId && c[i] != c[j]
  {
  }

  /** A page id sits in at most one hashed frame. */
  lemma {:induction false} OneFrame(s: Pool, i: int, j: int)
    requires ChainsOk(s) && i in s.hashed && j in s.hashed && s.frames[i].pageId == s.frames[j].pageId
    ensures i == j
  {
    var b := Bucket(s.frames[i].pageId);
    var c := s.chains[b];
    assert Chained(s.frames, c, s.table[b], b);
    var x :| 0 <= x < |c| && c[x] == i;
    var y :| 0 <= y < |c| && c[y] == j;
    ChainIds(s.frames, c, s.table[b], b, x, y);
    ChainIds(s.frames, c, s.table[b], b, y, x);
  }

  // ---- unlinking a frame from its chain ---------------------------------------------

  lemma {:induction false} RemovedAt(c: seq<int>, x: nat)
    requires x < |c|
    ensures var d := RemoveAt(c, x);
            |d| == |c| - 1 && forall j :: 0 <= j < |d| ==> d[j] == c[if j < x then j else j + 1]
  {
  }

  /** Changing a frame outside a chain does not affect it. */
  lemma {:induction false} ChainElsewhere(fs: seq<Frame>, c: seq<int>, first: int, b: nat, i: nat, f: Frame)
    requires Chained(fs, c, first, b) && i < |fs| && i !in c
    ensures Chained(fs[i := f], c, first, b)
  {
    forall j | 0 <= j < |c| ensures c[j] != i { assert c[j] in c; }
  }

  /** Changing what a frame holds, but not its page id or link, does not affect its chain. */
  lemma {:induction false} ChainSameLinks(fs: seq<Frame>, c: seq<int>, first: int, b: nat, i: nat, f: Frame)
    requires Chained(fs, c, first, b) && i < |fs| && f.pageId == fs[i].pageId && f.hashNext == fs[i].hashNext
    ensures Chained(fs[i := f], c, first, b)
  {
  }

  /** The frames once the pointer to chain position x has been moved past it. */
  function Bypassed(fs: seq<Frame>, c: seq<int>, x: nat): (r: seq<Frame>)
    requires x < |c| && forall j :: 0 <= j < |c| ==> 0 <= c[j] < |fs|
    ensures |r| == |fs|
  {
    if x == 0 then fs else fs[c[x - 1] := fs[c[x - 1]].(hashNext := fs[c[x]].hashNext)]
  }

  lemma {:induction false} BypassedAt(fs: seq<Frame>, c: seq<int>, first: int, b: nat, x: nat, j: nat)
    requires Chained(fs, c, first, b) && x < |c| && j < |c| - 1
    ensures var d, gs := RemoveAt(c, x), Bypassed(fs, c, x);
            0 <= d[j] < |gs| && gs[d[j]].hashNext == Link(d, j)
            && gs[d[j]].pageId == fs[d[j]].pageId != 0 && Bucket(gs[d[j]].pageId) == b
  {
    hide RemoveAt, Bucket;
    var d := RemoveAt(c, x);
    RemovedAt(c, x);
    var o := if j < x then j else j + 1;
    assert fs[c[x]].hashNext == Link(c, x);
    assert d[j] == c[o] && fs[c[o]].hashNext == Link(c, o) && fs[c[o]].pageId != 0;
    ChainIds(fs, c, first, b, o, x - 1);
    ChainIds(fs, c, first, b, x - 1, o);
  }

  lemma {:induction false} BypassedPair(fs: seq<Frame>, c: seq<int>, first: int, b: nat, x: nat, i: nat, j: nat)
    requires Chained(fs, c, first, b) && x < |c| && i < j < |c| - 1
    ensures var d, gs := RemoveAt(c, x), Bypassed(fs, c, x);
            d[i] != d[j] && 0 <= d[i] < |gs| && 0 <= d[j] < |gs| && gs[d[i]].pageId != gs[d[j]].pageId
  {
    hide RemoveAt, Bypassed, Chained, Bucket;
    ChainBounds(fs, c, first, b);
    RemovedAt(c, x);
    BypassedAt(fs, c, first, b, x, i);
    BypassedAt(fs, c, first, b, x, j);
    ChainIds(fs, c, first, b, if i < x then i else i + 1, if j < x then j else j + 1);
  }

  lemma {:induction false} ChainBounds(fs: seq<Frame>, c: seq<int>, first: int, b: nat)
    requires Chained(fs, c, first, b)
    ensures forall j {:trigger c[j]} :: 0 <= j < |c| ==> 0 <= c[j] < |fs|
    ensures |c| > 0 ==> first == c[0] && fs[c[0]].hashNext == Link(c, 0)
  {
  }

  lemma {:induction false} ChainedIntro(fs: seq<Frame>, c: seq<int>, first: int, b: nat)
    requires first == (if |c| == 0 then -1 else c[0])
    requires forall j {:trigger c[j]} :: 0 <= j < |c| ==> 0 <= c[j] < |fs|
    requires forall j {:trigger fs[c[j]]} :: 0 <= j < |c| ==>
               fs[c[j]].hashNext == Link(c, j) && fs[c[j]].pageId != 0 && Bucket(fs[c[j]].pageId) == b
    requires forall i, j {:trigger c[i], c[j]} :: 0 <= i < j < |c| ==>
               c[i] != c[j] && fs[c[i]].pageId != fs[c[j]].pageId
    ensures Chained(fs, c, first, b)
  {
  }

  lemma {:induction false} BypassedChain(fs: seq<Frame>, c: seq<int>, first: int, b: nat, x: nat)
    requires Chained(fs, c, first, b) && x < |c|
    ensures Chained(Bypassed(fs, c, x), RemoveAt(c, x), if x == 0 then fs[c[0]].hashNext else first, b)
  {
    hide RemoveAt, Bypassed, Chained, Bucket;
    ChainBounds(fs, c, first, b);
    RemovedAt(c, x);
    var d, gs := RemoveAt(c, x), Bypassed(fs, c, x);
    forall j | 0 <= j < |d|
      ensures 0 <= d[j] < |gs| && gs[d[j]].hashNext == Link(d, j) && gs[d[j]].pageId != 0
                && Bucket(gs[d[j]].pageId) == b
    {
      BypassedAt(fs, c, first, b, x, j);
    }
    forall i, j | 0 <= i < j < |d| ensures d[i] != d[j] && gs[d[i]].pageId != gs[d[j]].pageId {
      BypassedPair(fs, c, first, b, x, i, j);
    }
    ChainedIntro(gs, d, if x == 0 then fs[c[0]].hashNext else first, b);
  }

  /** A new frame in front of a chain. */
  lemma {:induction false} FrontedChain(fs: seq<Frame>, c: seq<int>, first: int, b: nat, v: nat, f: Frame)
    requires Chained(fs, c, first, b) && v < |fs| && v !in c
    requires f.hashNext == first && f.pageId != 0 && Bucket(f.pageId) == b
    requires forall j :: 0 <= j < |c| ==> fs[c[j]].pageId != f.pageId
    ensures Chained(fs[v := f], [v] + c, v, b)
  {
    var d, gs := [v as int] + c, fs[v := f];
    ChainElsewhere(fs, c, first, b, v, f);
    forall j | 0 <= j < |d|
      ensures 0 <= d[j] < |gs| && gs[d[j]].hashNext == Link(d, j)
      ensures gs[d[j]].pageId != 0 && Bucket(gs[d[j]].pageId) == b
    {
      if j > 0 { assert d[j] == c[j - 1] && gs[c[j - 1]].hashNext == Link(c, j - 1); }
    }
    forall i, j | 0 <= i < j < |d| ensures d[i] != d[j] && gs[d[i]].pageId != gs[d[j]].pageId {
      assert d[j] == c[j - 1] && c[j - 1] in c;
      if i > 0 { ChainIds(gs, c, first, b, i - 1, j - 1); }
    }
  }

  /** A frame is in the chain of its own page's bucket only. */
  lemma {:induction false} OneChain(s: Pool, i: int, b: nat)
    requires ChainsOk(s) && b < HASH_TABLE_SIZE && i in s.chains[b]
    ensures i in s.hashed && 0 <= i < |s.frames| && Bucket(s.frames[i].pageId) == b && s.frames[i].pageId != 0
  {
    var c := s.chains[b];
    assert Chained(s.frames, c, s.table[b], b);
    var j :| 0 <= j < |c| && c[j] == i;
    assert s.frames[c[j]].pageId != 0;
  }

  lemma {:induction false} InFrameStays(s: Pool, u: Pool, q: PageId)
    requires forall j :: j in s.hashed && 0 <= j < |s.frames| && s.frames[j].pageId == q ==>
               j in u.hashed && j < |u.frames| && u.frames[j].pageId == q
    ensures InFrame(s, q) ==> InFrame(u, q)
  {
  }

  // ---- pins ---------------------------------------------------------------------------

  /** The pins of every page are those its callers hold together. */
  ghost predicate Held(s: Pool, pins: multiset<PageId>) {
    && (forall i :: i in s.hashed && 0 <= i < |s.frames| ==> s.frames[i].refs == pins[s.frames[i].pageId])
    && (forall p :: p in pins ==> InFrame(s, p))
  }

  /** A fetch: pinned frames stay, and only frame r, if any, gains a pin. */
  ghost predicate Fetched(s: Pool, u: Pool, r: int) {
    && |u.frames| == |s.frames|
    && (forall i :: 0 <= i < |s.frames| && s.frames[i].refs > 0 ==>
          u.frames[i].pageId == s.frames[i].pageId && (i in u.hashed <==> i in s.hashed))
    && (forall i :: 0 <= i < |s.frames| && i != r ==> u.frames[i].refs == s.frames[i].refs)
    && (r != -1 ==> 0 <= r < |s.frames| && r in u.hashed && u.frames[r].refs == s.frames[r].refs + 1)
  }

  /** The frame of a page that somebody has pinned. */
  lemma {:induction false} PinnedFrame(s: Pool, u: Pool, r: int, pins: multiset<PageId>, p: PageId) returns (j: int)
    requires Held(s, pins) && Fetched(s, u, r) && p in pins
    ensures j in s.hashed && 0 <= j < |s.frames| && s.frames[j].refs == pins[p]
    ensures j in u.hashed && u.frames[j].pageId == p
  {
    assert InFrame(s, p);
    j :| j in s.hashed && 0 <= j < |s.frames| && s.frames[j].pageId == p;
  }

  lemma {:induction false} FetchedFrame(s: Pool, u: Pool, r: int, pins: multiset<PageId>, i: int)
    requires Ok(s, -1) && Ok(u, -1) && Held(s, pins) && Fetched(s, u, r)
    requires i in u.hashed && 0 <= i < |u.frames|
    ensures u.frames[i].refs == pins[u.frames[i].pageId] + (if i == r then 1 else 0)
  {
    hide Chained, ContentOk, InFrame;
    var p := u.frames[i].pageId;
    if p in pins {
      var j := PinnedFrame(s, u, r, pins, p);
      OneFrame(u, i, j);
    } else {
      assert s.frames[i].refs > 0 ==> i in s.hashed;
    }
  }

  lemma {:induction false} FetchHeld(s: Pool, u: Pool, r: int, pins: multiset<PageId>)
    requires Ok(s, -1) && Ok(u, -1) && Held(s, pins) && Fetched(s, u, r)
    ensures r == -1 ==> Held(u, pins)
    ensures r != -1 ==> Held(u, pins + multiset{u.frames[r].pageId})
  {
    hide Chained, ContentOk, FreeOk;
    forall i | i in u.hashed && 0 <= i < |u.frames|
      ensures u.frames[i].refs == pins[u.frames[i].pageId] + (if i == r then 1 else 0)
      ensures r != -1 && u.frames[i].pageId == u.frames[r].pageId ==> i == r
    {
      FetchedFrame(s, u, r, pins, i);
      if r != -1 && u.frames[i].pageId == u.frames[r].pageId { OneFrame(u, i, r); }
    }
    forall p | p in pins ensures InFrame(u, p) {
      var j := PinnedFrame(s, u, r, pins, p);
    }
  }

  /** A call that moves no pin. */
  lemma {:induction false} SameHeld(s: Pool, u: Pool, pins: multiset<PageId>)
    requires Held(s, pins) && u.hashed == s.hashed && |u.frames| == |s.frames|
    requires forall i :: 0 <= i < |s.frames| ==>
               u.frames[i].pageId == s.frames[i].pageId && u.frames[i].refs == s.frames[i].refs
    ensures Held(u, pins)
  {
    forall p | p in pins ensures InFrame(u, p) {
      assert InFrame(s, p);
      var j :| j in s.hashed && 0 <= j < |s.frames| && s.frames[j].pageId == p;
      assert u.frames[j].pageId == p;
    }
  }

  /** One pin less on a page. */
  lemma {:induction false} DropHeld(s: Pool, u: Pool, id: PageId, pins: multiset<PageId>)
    requires Held(s, pins) && u.hashed == s.hashed && |u.frames| == |s.frames| && id in pins
    requires forall i :: 0 <= i < |s.frames| ==>
               && u.frames[i].pageId == s.frames[i].pageId
               && u.frames[i].refs == s.frames[i].refs - (if i in s.hashed && s.frames[i].pageId == id then 1 else 0)
    ensures Held(u, pins - multiset{id})
  {
    forall p | p in pins ensures InFrame(u, p) {
      assert InFrame(s, p);
      var j :| j in s.hashed && 0 <= j < |s.frames| && s.frames[j].pageId == p;
      assert u.frames[j].pageId == p;
    }
  }

  /** The content once page id has entered the pool: a page never seen before starts as an
      empty leaf or as a hole of the data file. */
  ghost predicate Entered(m: map<PageId, Image>, m': map<PageId, Image>, id: PageId) {
    && m'.Keys == m.Keys + {id} && (forall p :: p in m ==> m'[p] == m[p])
    && (id !in m ==> m'[id] in {FRESH_IMAGE, BLANK_IMAGE})
  }

  // ---- changing one hashed frame ------------------------------------------------------

  /** The slots of the data file ever written, and its length in pages. */
  datatype File = File(disk: map<PageId, Cell>, pages: nat)

  /** Frame i of page p now holds f; the slot of p in the data file, and whether p awaits its
      mark, may have changed. */
  function Updated(s: Pool, i: nat, f: Frame, file: File, unmarked: set<PageId>): Pool
    requires i < |s.frames| && f.image.Some?
  {
    s.(frames := s.frames[i := f], disk := file.disk, filePages := file.pages,
       content := s.content[f.pageId := f.image.value], unmarked := unmarked)
  }

  ghost predicate SlotChange(s: Pool, p: PageId, file: File) {
    && s.filePages <= file.pages
    && (forall q :: q in file.disk && q != p ==> q in s.disk)
    && (forall q :: q in s.disk && q != p ==> q in file.disk && file.disk[q] == s.disk[q])
  }

  ghost predicate CanUpdate(s: Pool, but: int, i: nat, f: Frame, file: File, unmarked: set<PageId>) {
    && Ok(s, but) && i in s.hashed && i < |s.frames|
    && f.pageId == s.frames[i].pageId && f.hashNext == s.frames[i].hashNext && f.image.Some?
    && SlotChange(s, f.pageId, file) && (forall q :: q != f.pageId ==> (q in unmarked <==> q in s.unmarked))
    && (f.dirty || f.pageId in unmarked || DiskRead(file.disk, file.pages, f.pageId) == Some(Good(f.image.value)))
    && (f.refs == 0 ==> f.pageId !in unmarked)
  }

  lemma {:induction false} UpdateChains(s: Pool, i: nat, f: Frame, file: File, unmarked: set<PageId>)
    requires ChainsOk(s) && i < |s.frames| && f.image.Some?
    requires f.pageId == s.frames[i].pageId && f.hashNext == s.frames[i].hashNext
    ensures ChainsOk(Updated(s, i, f, file, unmarked))
  {
    var u := Updated(s, i, f, file, unmarked);
    forall b | 0 <= b < HASH_TABLE_SIZE ensures Chained(u.frames, u.chains[b], u.table[b], b) {
      ChainSameLinks(s.frames, s.chains[b], s.table[b], b, i, f);
    }
    hide Chained;
  }

  lemma {:induction false} UpdateContent(s: Pool, but: int, i: nat, f: Frame, file: File, unmarked: set<PageId>)
    requires CanUpdate(s, but, i, f, file, unmarked)
    ensures ContentOk(Updated(s, i, f, file, unmarked))
  {
    hide Chained;
    var u := Updated(s, i, f, file, unmarked);
    var p := f.pageId;
    forall j | j in u.hashed && 0 <= j < |u.frames| ensures FrameOk(u, j) {
      assert FrameOk(s, j);
      if j != i && s.frames[j].pageId == p { OneFrame(s, i, j); }
    }
    assert u.frames[i].pageId == p && InFrame(u, p);
    forall q | q in u.content && !InFrame(u, q) ensures OnDisk(u, q) {
      InFrameStays(s, u, q);
      assert OnDisk(s, q);
    }
    forall q | q in u.unmarked ensures InFrame(u, q) { InFrameStays(s, u, q); }
    assert u.content.Keys == s.content.Keys by { assert FrameOk(s, i); }
  }

  /** Every such change keeps the pool sound and every other page's content. */
  lemma {:induction false} UpdateKeeps(s: Pool, but: int, i: nat, f: Frame, file: File, unmarked: set<PageId>)
    requires CanUpdate(s, but, i, f, file, unmarked)
    ensures Ok(Updated(s, i, f, file, unmarked), but)
  {
    hide Chained, ContentOk;
    UpdateChains(s, i, f, file, unmarked);
    UpdateContent(s, but, i, f, file, unmarked);
  }

  // ---- dropping a clean, unpinned frame from the chains --------------------------------

  ghost predicate At(s: Pool, v: int, b: nat, x: nat) {
    b < |s.chains| && b < |s.table| && x < |s.chains[b]| && s.chains[b][x] == v && 0 <= v < |s.frames|
    && forall j :: 0 <= j < |s.chains[b]| ==> 0 <= s.chains[b][j] < |s.frames|
  }

  ghost function Dropped(s: Pool, v: int, b: nat, x: nat): Pool
    requires At(s, v, b, x)
  {
    var c := s.chains[b];
    s.(frames := Bypassed(s.frames, c, x),
       table := if x == 0 then s.table[b := s.frames[v].hashNext] else s.table,
       chains := s.chains[b := RemoveAt(c, x)],
       hashed := s.hashed - {v})
  }

  lemma {:induction false} DroppedChain(s: Pool, v: int, b: nat, x: nat, a: nat)
    requires ChainsOk(s) && b < HASH_TABLE_SIZE && a < HASH_TABLE_SIZE && At(s, v, b, x)
    ensures var u := Dropped(s, v, b, x); Chained(u.frames, u.chains[a], u.table[a], a)
  {
    hide Chained, Bypassed, RemoveAt, Bucket;
    assert Chained(s.frames, s.chains[a], s.table[a], a);
    if a == b {
      ChainBounds(s.frames, s.chains[b], s.table[b], b);
      BypassedChain(s.frames, s.chains[b], s.table[b], b, x);
    } else {
      DroppedElsewhere(s, b, x, a);
    }
  }

  lemma {:induction false} DroppedChains(s: Pool, v: int, b: nat, x: nat)
    requires ChainsOk(s) && b < HASH_TABLE_SIZE && At(s, v, b, x)
    ensures ChainsOk(Dropped(s, v, b, x))
  {
    hide Chained, Bypassed, RemoveAt, Bucket;
    var u := Dropped(s, v, b, x);
    BypassedFacts(s.frames, s.chains[b], x);
    DroppedMembers(s, b, x);
    forall a | 0 <= a < HASH_TABLE_SIZE ensures Chained(u.frames, u.chains[a], u.table[a], a) {
      DroppedChain(s, v, b, x, a);
    }
    forall i | i in u.hashed ensures 0 <= i < |u.frames| && i in u.chains[Bucket(u.frames[i].pageId)] {
      assert i in s.chains[Bucket(s.frames[i].pageId)];
    }
  }

  lemma {:induction false} BypassedFacts(fs: seq<Frame>, c: seq<int>, x: nat)
    requires x < |c| && forall j :: 0 <= j < |c| ==> 0 <= c[j] < |fs|
    ensures var gs := Bypassed(fs, c, x);
            forall i {:trigger gs[i]} :: 0 <= i < |fs| ==>
              gs[i].pageId == fs[i].pageId && gs[i].image == fs[i].image && gs[i].dirty == fs[i].dirty
              && gs[i].refs == fs[i].refs && gs[i].last == fs[i].last
  {
  }

  lemma {:induction false} DroppedElsewhere(s: Pool, b: nat, x: nat, a: nat)
    requires ChainsOk(s) && b < HASH_TABLE_SIZE && a < HASH_TABLE_SIZE && a != b && x < |s.chains[b]|
    requires forall j :: 0 <= j < |s.chains[b]| ==> 0 <= s.chains[b][j] < |s.frames|
    ensures Chained(Bypassed(s.frames, s.chains[b], x), s.chains[a], s.table[a], a)
  {
    assert Chained(s.frames, s.chains[a], s.table[a], a);
    hide Chained;
    if x > 0 {
      var p := s.chains[b][x - 1];
      OneChain(s, p, b);
      if p in s.chains[a] { OneChain(s, p, a); }
      ChainElsewhere(s.frames, s.chains[a], s.table[a], a, p,
                     s.frames[p].(hashNext := s.frames[s.chains[b][x]].hashNext));
    }
  }

  lemma {:induction false} DroppedMembers(s: Pool, b: nat, x: nat)
    requires ChainsOk(s) && b < HASH_TABLE_SIZE && x < |s.chains[b]|
    ensures forall i :: i in RemoveAt(s.chains[b], x) ==> i in s.chains[b] && i != s.chains[b][x]
    ensures forall i :: i in s.chains[b] && i != s.chains[b][x] ==> i in RemoveAt(s.chains[b], x)
    ensures forall a, i :: 0 <= a < HASH_TABLE_SIZE && a != b && i in s.chains[a] ==> i != s.chains[b][x]
  {
    var c := s.chains[b];
    var d := RemoveAt(c, x);
    assert Chained(s.frames, c, s.table[b], b);
    RemovedAt(c, x);
    forall i | i in d ensures i in c && i != c[x] {
      var j :| 0 <= j < |d| && d[j] == i;
      ChainIds(s.frames, c, s.table[b], b, if j < x then j else j + 1, x);
      ChainIds(s.frames, c, s.table[b], b, x, if j < x then j else j + 1);
    }
    forall i | i in c && i != c[x] ensures i in d {
      var j :| 0 <= j < |c| && c[j] == i;
      assert d[if j < x then j else j - 1] == i;
    }
    forall a, i | 0 <= a < HASH_TABLE_SIZE && a != b && i in s.chains[a] ensures i != c[x] {
      OneChain(s, i, a);
      OneChain(s, c[x], b);
    }
  }

  /** Evicting a clean, unpinned frame loses nothing: the data file has its content. */
  lemma {:induction false} DropKeeps(s: Pool, v: int, b: nat, x: nat)
    requires Ok(s, -1) && b < HASH_TABLE_SIZE && At(s, v, b, x)
    requires !s.frames[v].dirty && s.frames[v].refs == 0
    ensures Ok(Dropped(s, v, b, x), -1)
  {
    hide ChainsOk, ContentOk, Bypassed, RemoveAt;
    DroppedChains(s, v, b, x);
    DroppedContent(s, v, b, x);
    BypassedFacts(s.frames, s.chains[b], x);
  }

  lemma {:induction false} DroppedContent(s: Pool, v: int, b: nat, x: nat)
    requires ChainsOk(s) && ContentOk(s) && b < HASH_TABLE_SIZE && At(s, v, b, x)
    requires !s.frames[v].dirty && s.frames[v].refs == 0
    ensures ContentOk(Dropped(s, v, b, x))
  {
    hide Chained, Bypassed, RemoveAt;
    var u := Dropped(s, v, b, x);
    OneChain(s, v, b);
    BypassedFacts(s.frames, s.chains[b], x);
    forall j | j in u.hashed && 0 <= j < |u.frames| ensures FrameOk(u, j) { assert FrameOk(s, j); }
    forall q | q in u.content && !InFrame(u, q) ensures OnDisk(u, q) {
      if q == s.frames[v].pageId {
        assert FrameOk(s, v);
      } else {
        InFrameStays(s, u, q);
        assert OnDisk(s, q);
      }
    }
    forall q | q in u.unmarked ensures InFrame(u, q) {
      assert FrameOk(s, v);
      InFrameStays(s, u, q);
    }
  }

  // ---- changing a free frame ---------------------------------------------------------------

  lemma {:induction false} FreeChange(s: Pool, but: int, v: nat, f: Frame)
    requires Ok(s, but) && v < |s.frames| && v !in s.hashed && (but == -1 || but == v)
    ensures Ok(s.(frames := s.frames[v := f]), v)
    ensures !f.dirty && f.refs == 0 ==> Ok(s.(frames := s.frames[v := f]), -1)
    ensures forall p :: InFrame(s.(frames := s.frames[v := f]), p) ==> InFrame(s, p)
  {
    hide Chained, Bucket;
    var u := s.(frames := s.frames[v := f]);
    FreeChains(s, v, f);
    forall j | j in u.hashed && 0 <= j < |u.frames| ensures FrameOk(u, j) { assert FrameOk(s, j); }
    forall q | q in u.content && !InFrame(u, q) ensures OnDisk(u, q) {
      InFrameStays(s, u, q);
      assert OnDisk(s, q);
    }
    forall q | q in u.unmarked ensures InFrame(u, q) { InFrameStays(s, u, q); }
  }

  lemma {:induction false} FreeChains(s: Pool, v: nat, f: Frame)
    requires ChainsOk(s) && v < |s.frames| && v !in s.hashed
    ensures ChainsOk(s.(frames := s.frames[v := f]))
  {
    hide Chained, Bucket;
    var u := s.(frames := s.frames[v := f]);
    forall b | 0 <= b < HASH_TABLE_SIZE ensures Chained(u.frames, u.chains[b], u.table[b], b) {
      assert Chained(s.frames, s.chains[b], s.table[b], b);
      assert v !in s.chains[b];
      ChainElsewhere(s.frames, s.chains[b], s.table[b], b, v, f);
    }
  }

  // ---- publishing a loaded page ----------------------------------------------------------

  function Loaded(s: Pool, v: nat, f: Frame): Pool
    requires v < |s.frames| && f.image.Some? && Bucket(f.pageId) < |s.table| && Bucket(f.pageId) < |s.chains|
  {
    var b := Bucket(f.pageId);
    s.(frames := s.frames[v := f], table := s.table[b := v], chains := s.chains[b := [v] + s.chains[b]],
       hashed := s.hashed + {v}, content := s.content[f.pageId := f.image.value])
  }

  /** The free frame v, filled with page f.pageId, may enter its chain. */
  ghost predicate CanLoad(s: Pool, v: nat, f: Frame) {
    && Ok(s, v) && v < |s.frames| && v !in s.hashed
    && f.pageId != 0 && !InFrame(s, f.pageId) && f.image.Some? && f.hashNext == s.table[Bucket(f.pageId)]
    && (f.pageId in s.content ==> s.content[f.pageId] == f.image.value)
    && (!f.dirty ==> DiskRead(s.disk, s.filePages, f.pageId) == Some(Good(f.image.value)))
    && f.refs > 0
  }

  lemma {:induction false} LoadChains(s: Pool, v: nat, f: Frame)
    requires CanLoad(s, v, f)
    ensures ChainsOk(Loaded(s, v, f))
  {
    var u := Loaded(s, v, f);
    var b := Bucket(f.pageId);
    hide Chained, ContentOk;
    forall a | 0 <= a < HASH_TABLE_SIZE ensures Chained(u.frames, u.chains[a], u.table[a], a) {
      assert Chained(s.frames, s.chains[a], s.table[a], a);
      assert v !in s.chains[a];
      if a == b {
        forall j | 0 <= j < |s.chains[b]|
          ensures 0 <= s.chains[b][j] < |s.frames| && s.frames[s.chains[b][j]].pageId != f.pageId
        {
          OneChain(s, s.chains[b][j], b);
          assert s.chains[b][j] in s.hashed;
        }
        FrontedChain(s.frames, s.chains[b], s.table[b], b, v, f);
      } else {
        ChainElsewhere(s.frames, s.chains[a], s.table[a], a, v, f);
      }
    }
    forall i | i in u.hashed ensures i in u.chains[Bucket(u.frames[i].pageId)] {
      if i != v { assert i in s.chains[Bucket(s.frames[i].pageId)]; }
    }
  }

  /** Loading a page changes no page's content; a page never seen before gets what the
      data file (or its end) says. */
  lemma {:induction false} LoadKeeps(s: Pool, v: nat, f: Frame)
    requires CanLoad(s, v, f)
    ensures Ok(Loaded(s, v, f), -1)
    ensures forall p :: p in s.content ==> p in Loaded(s, v, f).content && Loaded(s, v, f).content[p] == s.content[p]
  {
    hide ChainsOk, ContentOk, CanLoad;
    LoadChains(s, v, f);
    LoadContent(s, v, f);
    LoadFree(s, v, f);
  }

  lemma {:induction false} LoadFree(s: Pool, v: nat, f: Frame)
    requires CanLoad(s, v, f)
    ensures FreeOk(Loaded(s, v, f), -1)
    ensures forall p :: p in s.content ==> p in Loaded(s, v, f).content && Loaded(s, v, f).content[p] == s.content[p]
  {
    hide Chained, ContentOk;
  }

  lemma {:induction false} LoadContent(s: Pool, v: nat, f: Frame)
    requires CanLoad(s, v, f)
    ensures ContentOk(Loaded(s, v, f))
  {
    hide Chained, FreeOk;
    var u := Loaded(s, v, f);
    forall j | j in u.hashed && 0 <= j < |u.frames| ensures FrameOk(u, j) {
      if j != v {
        assert FrameOk(s, j);
        assert s.frames[j].pageId == f.pageId ==> InFrame(s, f.pageId);
      }
    }
    assert u.frames[v].pageId == f.pageId && InFrame(u, f.pageId);
    forall q | q in u.content && !InFrame(u, q) ensures OnDisk(u, q) {
      InFrameStays(s, u, q);
      assert OnDisk(s, q);
    }
    forall q | q in u.unmarked ensures InFrame(u, q) { InFrameStays(s, u, q); }
  }
}

/** The pager's operations.  Each runs under buffer_mutex, or on a frame its caller has
    pinned and locked, so every interleaving of threads is some order of these calls. */
module Pager {
  import opened Common
  import opened Pages
  import opened PoolState
  import Wal

  class BufferPool {
    const frames: array<Frame>
    const hashTable: array<int>
    const log: Wal.Log
    const enableWal: bool
    /** The data file: the slots ever written, and its length in pages. */
    var disk: map<PageId, Cell>
    var filePages: nat

    ghost var chains: seq<seq<int>>
    ghost var hashed: set<int>
    ghost var content: map<PageId, Image>
    ghost var unmarked: set<PageId>
    /** Every image of which some part has been written to the data file. */
    ghost var reached: seq<Image>

    ghost function S(): Pool
      reads this, frames, hashTable
    {
      Pool(frames[..], hashTable[..], disk, filePages, chains, hashed, content, unmarked)
    }

    /** A dirty frame's header lsn names a record already handed to the log. */
    ghost predicate LsnOk()
      reads this, frames, log
    {
      forall i :: i in hashed && 0 <= i < frames.Length && frames[i].dirty && frames[i].image.Some?
                  ==> frames[i].image.value.lsn < log.nextLsn
    }

    /** Write-ahead: as long as no flush failed, whatever has reached the data file is
        covered by durable log records. */
    ghost predicate WriteAhead()
      reads this, log
    {
      !log.failed ==> forall k :: 0 <= k < |reached| ==> reached[k].lsn <= |log.file|
    }

    ghost predicate LogOk()
      reads this, frames, log
    {
      log.Valid() && (enableWal ==> LsnOk() && WriteAhead())
    }

    ghost predicate Valid()
      reads this, frames, hashTable, log
    {
      LogOk() && Ok(S(), -1)
    }

    /** The frames callers hold keep their page, contents and pins. */
    twostate predicate PinnedKept()
      reads this, frames
    {
      forall i :: 0 <= i < frames.Length && old(frames[i].refs) > 0 ==>
        frames[i].pageId == old(frames[i].pageId) && frames[i].image == old(frames[i].image)
        && frames[i].dirty == old(frames[i].dirty)
        && frames[i].refs >= old(frames[i].refs) && (i in hashed <==> i in old(hashed))
    }

    /** No frame but v gains or loses a pin. */
    twostate predicate PinsKept(v: int)
      reads this, frames
    {
      forall i :: 0 <= i < frames.Length && i != v ==> frames[i].refs == old(frames[i].refs)
    }

    /** An empty pool over a data file none of whose slots is torn. */
    constructor (log: Wal.Log, disk: map<PageId, Image>, filePages: nat, enableWal: bool)
      requires log.Valid() && 0 !in disk
      ensures Valid() && content == disk && hashed == {} && unmarked == {} && reached == []
      ensures this.log == log && fresh(frames) && fresh(hashTable)
    {
      frames := new Frame[BUFFER_POOL_SIZE](_ => Frame(0, None, false, 0, 0, -1));
      hashTable := new int[HASH_TABLE_SIZE](_ => -1);
      this.log := log;
      this.enableWal := enableWal;
      this.disk := map p | p in disk :: Good(disk[p]);
      this.filePages := filePages;
      chains := seq(HASH_TABLE_SIZE, _ => []);
      hashed := {};
      content := disk;
      unmarked := {};
      reached := [];
    }

    /** find_buffer_entry. */
    method FindEntry(id: PageId) returns (i: int)
      requires ChainsOk(S())
      ensures i == -1 ==> !InFrame(S(), id)
      ensures i != -1 ==> i in hashed && 0 <= i < frames.Length && frames[i].pageId == id
    {
      hide ChainsOk, Chained, InFrame;
      BucketFacts(S(), Bucket(id));
      ghost var c := chains[Bucket(id)];
      i := hashTable[Bucket(id)];
      ghost var j := 0;
      while i != -1
        invariant 0 <= j <= |c|
        invariant i == if j < |c| then c[j] else -1
        invariant forall k :: 0 <= k < j ==> 0 <= c[k] < frames.Length && frames[c[k]].pageId != id
        decreases |c| - j
      {
        assert 0 <= c[j] < frames.Length;
        if frames[i].pageId == id {
          return;
        }
        assert S().frames[c[j]].hashNext == Link(c, j);
        i := frames[i].hashNext;
        j := j + 1;
      }
      ChainMisses(S(), id);
    }

    /** The victim search of allocate_buffer_entry: the unpinned frame accessed longest ago,
        -1 when every frame is pinned. */
    method PickVictim() returns (v: int)
      ensures v == -1 ==> forall i :: 0 <= i < frames.Length ==> frames[i].refs > 0
      ensures v != -1 ==> 0 <= v < frames.Length && frames[v].refs == 0
      ensures v != -1 ==> forall i :: 0 <= i < frames.Length && frames[i].refs == 0 ==> frames[v].last <= frames[i].last
    {
      v := -1;
      for i := 0 to frames.Length
        invariant v == -1 || (0 <= v < i && frames[v].refs == 0)
        invariant v == -1 ==> forall j :: 0 <= j < i ==> frames[j].refs > 0
        invariant v != -1 ==> forall j :: 0 <= j < i && frames[j].refs == 0 ==> frames[v].last <= frames[j].last
      {
        if frames[i].refs == 0 && (v == -1 || frames[i].last < frames[v].last) {
          v := i;
        }
      }
    }

    /** The write-back of a dirty victim: flush the log, whose result is ignored, then write
        the image.  A failed write leaves a torn slot, but the frame stays dirty and hashed. */
    method WriteBack(v: nat, flushOk: bool, writeOk: bool) returns (ok: bool)
      requires Valid() && v in hashed && v < frames.Length && frames[v].dirty && frames[v].refs == 0
      modifies this, frames, log
      ensures Valid() && content == old(content) && unmarked == old(unmarked) && PinnedKept()
      ensures ok == writeOk && hashed == old(hashed)
      ensures frames[..] == old(frames[..])[v := old(frames[v]).(dirty := !ok)]
    {
      hide Ok;
      HashedFacts(S(), v);
      var flushed := log.Flush(flushOk);
      WriteImage(v, writeOk);
      return writeOk;
    }

    /** The write itself, once the log covers the image or a flush has failed. */
    method WriteImage(v: nat, writeOk: bool)
      requires Valid() && v in hashed && v < frames.Length && frames[v].dirty && frames[v].refs == 0
      requires frames[v].image.Some? && (enableWal && !log.failed ==> frames[v].image.value.lsn <= |log.file|)
      modifies this, frames
      ensures Valid() && content == old(content) && unmarked == old(unmarked) && hashed == old(hashed)
      ensures frames[..] == old(frames[..])[v := old(frames[v]).(dirty := !writeOk)]
    {
      hide Ok;
      HashedFacts(S(), v);
      var f := frames[v];
      var img := f.image.value;
      var slot := if writeOk then Good(img) else Torn;
      var f' := f.(dirty := !writeOk);
      var pages := if filePages < f.pageId + 1 then f.pageId + 1 else filePages;
      ghost var file := File(disk[f.pageId := slot], pages);
      UpdateKeeps(S(), -1, v, f', file, unmarked);
      ghost var u := Updated(S(), v, f', file, unmarked);
      disk := disk[f.pageId := slot];
      filePages := pages;
      reached := reached + [img];
      frames[v] := f';
      assert S() == u;
    }

    /** Moves the pointer to the victim past it. */
    method Bypass(v: nat, b: nat, prev: int, ghost x: nat)
      requires Valid() && b < HASH_TABLE_SIZE && At(S(), v, b, x) && !frames[v].dirty && frames[v].refs == 0
      requires prev == if x > 0 then chains[b][x - 1] else -1
      modifies this, frames, hashTable
      ensures Valid() && content == old(content) && disk == old(disk) && reached == old(reached)
      ensures filePages == old(filePages) && hashed == old(hashed) - {v} && unmarked == old(unmarked)
      ensures forall i :: 0 <= i < frames.Length ==> frames[i].(hashNext := -1) == old(frames[i]).(hashNext := -1)
    {
      hide Ok, Chained;
      ghost var c := chains[b];
      ghost var s := S();
      OkSizes(s);
      DropKeeps(s, v, b, x);
      if prev == -1 {
        hashTable[b] := frames[v].hashNext;
      } else {
        frames[prev] := frames[prev].(hashNext := frames[v].hashNext);
      }
      chains := chains[b := RemoveAt(c, x)];
      hashed := hashed - {v};
      assert S() == Dropped(s, v, b, x);
    }

    /** Walks the chain of the victim's bucket up to it. */
    method FindPredecessor(v: nat) returns (found: bool, prev: int, ghost x: nat)
      requires Ok(S(), -1) && v < frames.Length
      ensures found <==> v in hashed
      ensures found ==> At(S(), v, Bucket(frames[v].pageId), x)
      ensures found ==> prev == if x > 0 then chains[Bucket(frames[v].pageId)][x - 1] else -1
    {
      hide Ok, Chained, Bucket;
      var b := Bucket(frames[v].pageId);
      ChainFacts(S(), v);
      ghost var c := chains[b];
      found, prev, x := false, -1, 0;
      if frames[v].pageId != 0 {
        var cur := hashTable[b];
        while cur != -1
          invariant 0 <= x <= |c|
          invariant cur == if x < |c| then c[x] else -1
          invariant prev == if x > 0 then c[x - 1] else -1
          invariant forall k :: 0 <= k < x ==> c[k] != v
          decreases |c| - x
        {
          if cur == v {
            found := true;
            return;
          }
          prev := cur;
          assert frames[c[x]].hashNext == Link(c, x);
          cur := frames[cur].hashNext;
          x := x + 1;
        }
      }
    }

    /** Unlinks the victim from the chain of its bucket, if it is in it. */
    method Unhash(v: nat)
      requires Valid() && v < frames.Length && !frames[v].dirty && frames[v].refs == 0
      modifies this, frames, hashTable
      ensures Valid() && content == old(content) && PinnedKept() && disk == old(disk) && reached == old(reached)
      ensures filePages == old(filePages) && hashed == old(hashed) - {v} && unmarked == old(unmarked)
      ensures forall i :: 0 <= i < frames.Length ==> frames[i].(hashNext := -1) == old(frames[i]).(hashNext := -1)
    {
      hide Ok, BufferPool.LogOk;
      var found, prev, x := FindPredecessor(v);
      if found {
        Bypass(v, Bucket(frames[v].pageId), prev, x);
      }
    }

    /** allocate_buffer_entry: evicts the least recently used unpinned frame and readies it
        for a page, without entering it in its chain. */
    method AllocateEntry(id: PageId, now: int, flushOk: bool, writeOk: bool) returns (v: int)
      requires Valid() && id != 0 && !InFrame(S(), id)
      modifies this, frames, hashTable, log
      ensures LogOk() && content == old(content) && PinnedKept() && !InFrame(S(), id)
      ensures PinsKept(v) && unmarked == old(unmarked)
      ensures v == -1 ==> Valid()
      ensures v != -1 ==> 0 <= v < frames.Length && old(frames[v].refs) == 0 && v !in hashed && Ok(S(), v)
      ensures v != -1 ==> frames[v] == Frame(id, frames[v].image, false, 1, now, -1)
      ensures (forall i :: 0 <= i < frames.Length ==> old(frames[i].refs) > 0) ==> v == -1
      ensures writeOk && v == -1 ==> forall i :: 0 <= i < frames.Length ==> old(frames[i].refs) > 0
    {
      hide Ok, BufferPool.LogOk;
      v := PickVictim();
      if v == -1 {
        return;
      }
      if frames[v].dirty {
        DirtyIsHashed(S(), v);
        var ok := WriteBack(v, flushOk, writeOk);
        if !ok {
          SameFrames(old(S()), S(), id);
          return -1;
        }
      }
      Unhash(v);
      SameFrames(old(S()), S(), id);
      Ready(v, id, now);
    }

    /** The evicted frame gets its pin and its new page id. */
    method Ready(v: nat, id: PageId, now: int)
      requires Valid() && v < frames.Length && v !in hashed && !InFrame(S(), id)
      modifies frames
      ensures LogOk() && Ok(S(), v) && !InFrame(S(), id)
      ensures frames[..] == old(frames[..])[v := Frame(id, old(frames[v].image), false, 1, now, -1)]
    {
      hide Ok;
      FreeChange(S(), -1, v, Frame(id, frames[v].image, false, 1, now, -1));
      ghost var u := S().(frames := frames[..][v := Frame(id, frames[v].image, false, 1, now, -1)]);
      frames[v] := Frame(id, frames[v].image, false, 1, now, -1);
      assert S() == u;
    }

    /** load_page_from_disk and the checksum test: the image a free frame is filled with and
        whether it starts dirty, None when the slot cannot be read back whole. */
    method LoadPage(id: PageId, readOk: bool) returns (r: Option<(Image, bool)>)
      requires ContentOk(S()) && !InFrame(S(), id)
      ensures r.Some? <==> readOk
      ensures r.Some? && id in content ==> r.value == (content[id], false)
      ensures r.Some? && !r.value.1 ==> DiskRead(disk, filePages, id) == Some(Good(r.value.0))
      ensures r.Some? && r.value.1 ==> r.value.0 == FRESH_IMAGE && id >= filePages
      ensures r.Some? && id !in content ==> r.value.0 in {FRESH_IMAGE, BLANK_IMAGE}
    {
      assert id in content ==> OnDisk(S(), id);
      if !readOk {
        return None;
      }
      if id in disk {
        r := if disk[id].Good? then Some((disk[id].image, false)) else None;
      } else if id < filePages {
        r := Some((BLANK_IMAGE, false));
      } else {
        r := Some((FRESH_IMAGE, true));
      }
    }

    /** get_page: the frame of the page, pinned once more. */
    method GetPage(id: PageId, now: int, flushOk: bool, writeOk: bool, readOk: bool) returns (r: Option<nat>)
      requires Valid() && id != 0
      modifies this, frames, hashTable, log
      ensures Valid() && PinnedKept()
      ensures if r.Some? then Entered(old(content), content, id) else content == old(content)
      ensures r.Some? ==> r.value in hashed && r.value < frames.Length && frames[r.value].pageId == id
      ensures r.Some? ==> frames[r.value].image == Some(content[id]) && frames[r.value].last == now
      ensures r.Some? ==> frames[r.value].refs == old(frames[r.value].refs) + 1
      ensures PinsKept(if r.Some? then r.value else -1) && unmarked == old(unmarked)
      ensures r == None && readOk && writeOk ==>
                old(!InFrame(S(), id)) && forall i :: 0 <= i < frames.Length ==> old(frames[i].refs) > 0
    {
      hide Ok, ChainsOk, BufferPool.LogOk;
      ChainsHold(S(), -1);
      var i := FindEntry(id);
      if i == -1 {
        r := Miss(id, now, flushOk, writeOk, readOk);
      } else {
        assert InFrame(S(), id);
        PinAgain(i, now);
        r := Some(i);
      }
    }

    /** The hit path of get_page. */
    method PinAgain(i: nat, now: int)
      requires Valid() && i in hashed && i < frames.Length
      modifies this, frames
      ensures Valid() && content == old(content) && hashed == old(hashed) && unmarked == old(unmarked)
      ensures frames[..] == old(frames[..])[i := old(frames[i]).(refs := old(frames[i].refs) + 1, last := now)]
      ensures frames[i].pageId in content && frames[i].image == Some(content[frames[i].pageId])
    {
      hide Ok;
      HashedFacts(S(), i);
      ReplaceFrame(i, frames[i].(refs := frames[i].refs + 1, last := now), unmarked);
    }

    /** The miss path of get_page: the page enters the pool with one pin, or nothing is
        published and the frame is free again. */
    method Miss(id: PageId, now: int, flushOk: bool, writeOk: bool, readOk: bool) returns (r: Option<nat>)
      requires Valid() && id != 0 && !InFrame(S(), id)
      modifies this, frames, hashTable, log
      ensures Valid() && PinnedKept() && unmarked == old(unmarked)
      ensures r == None ==> content == old(content)
      ensures r.Some? ==> Entered(old(content), content, id)
      ensures r.Some? ==> r.value in hashed && r.value < frames.Length && frames[r.value].pageId == id
      ensures r.Some? ==> frames[r.value].image == Some(content[id]) && frames[r.value].last == now
      ensures r.Some? ==> old(frames[r.value].refs) == 0 && frames[r.value].refs == 1
      ensures PinsKept(if r.Some? then r.value else -1)
      ensures r == None && readOk && writeOk ==> forall i :: 0 <= i < frames.Length ==> old(frames[i].refs) > 0
    {
      hide Ok, BufferPool.LogOk, InFrame, Entered;
      var v := AllocateEntry(id, now, flushOk, writeOk);
      if v == -1 {
        return None;
      }
      var ok := Fill(v, readOk);
      r := if ok then Some(v) else None;
    }

    /** Loads the page of a readied frame and publishes the frame, or gives it back. */
    method Fill(v: nat, readOk: bool) returns (ok: bool)
      requires LogOk() && Ok(S(), v) && v < frames.Length && v !in hashed
      requires frames[v].pageId != 0 && !InFrame(S(), frames[v].pageId) && frames[v].refs == 1 && !frames[v].dirty
      modifies this, frames, hashTable
      ensures Valid() && unmarked == old(unmarked) && ok == readOk
      ensures forall i :: 0 <= i < frames.Length && i != v ==> frames[i] == old(frames[i])
      ensures !ok ==> content == old(content) && hashed == old(hashed) && frames[v] == old(frames[v]).(refs := 0)
      ensures ok ==> hashed == old(hashed) + {v} && Entered(old(content), content, old(frames[v].pageId))
      ensures ok ==> frames[v].pageId == old(frames[v].pageId) && frames[v].last == old(frames[v].last)
      ensures ok ==> frames[v].refs == 1
      ensures ok ==> frames[v].pageId in content && frames[v].image == Some(content[frames[v].pageId])
    {
      hide Ok, InFrame;
      ChainsHold(S(), v);
      var img := LoadPage(frames[v].pageId, readOk);
      if img == None {
        GiveBack(v);
        return false;
      }
      Publish(v, img.value.0, img.value.1);
      return true;
    }

    /** The failure path of get_page: the unpublished frame loses its pin. */
    method GiveBack(v: nat)
      requires LogOk() && Ok(S(), v) && v < frames.Length && v !in hashed && !frames[v].dirty
      modifies frames
      ensures Valid() && frames[..] == old(frames[..])[v := old(frames[v]).(refs := 0)]
    {
      hide Ok;
      FreeChange(S(), v, v, frames[v].(refs := 0));
      ghost var u := S().(frames := frames[..][v := frames[v].(refs := 0)]);
      frames[v] := frames[v].(refs := 0);
      assert S() == u;
    }

    /** The end of get_page's miss path: the loaded frame enters its chain. */
    method Publish(v: nat, img: Image, dirty: bool)
      requires LogOk() && Ok(S(), v) && v < frames.Length && v !in hashed
      requires frames[v].pageId != 0 && !InFrame(S(), frames[v].pageId)
      requires frames[v].refs > 0 && !frames[v].dirty
      requires frames[v].pageId in content ==> content[frames[v].pageId] == img
      requires !dirty ==> DiskRead(disk, filePages, frames[v].pageId) == Some(Good(img))
      requires dirty ==> img.lsn == 0
      modifies this, frames, hashTable
      ensures Valid() && hashed == old(hashed) + {v} && content == old(content)[old(frames[v].pageId) := img]
      ensures forall i :: 0 <= i < frames.Length && i != v ==> frames[i] == old(frames[i])
      ensures frames[v].pageId == old(frames[v].pageId) && frames[v].refs == old(frames[v].refs)
      ensures frames[v].last == old(frames[v].last)
      ensures frames[v].image == Some(img) && unmarked == old(unmarked)
    {
      hide Ok;
      ChainsHold(S(), v);
      var b := Bucket(frames[v].pageId);
      var f := frames[v].(image := Some(img), dirty := dirty, hashNext := hashTable[b]);
      LoadKeeps(S(), v, f);
      ghost var u := Loaded(S(), v, f);
      frames[v] := f;
      hashTable[b] := v;
      chains := chains[b := [v as int] + chains[b]];
      hashed := hashed + {v};
      content := content[f.pageId := img];
      assert S() == u;
    }

    /** One hashed frame changes; its page's content is what the frame now holds. */
    method ReplaceFrame(i: nat, f: Frame, ghost marks: set<PageId>)
      requires Valid() && i in hashed && i < frames.Length
      requires CanUpdate(S(), -1, i, f, File(disk, filePages), marks)
      requires f.dirty && enableWal ==> f.image.value.lsn < log.nextLsn
      modifies this, frames
      ensures Valid() && S() == Updated(old(S()), i, f, File(old(disk), old(filePages)), marks)
      ensures reached == old(reached)
    {
      hide Ok;
      UpdateKeeps(S(), -1, i, f, File(disk, filePages), marks);
      ghost var u := Updated(S(), i, f, File(disk, filePages), marks);
      frames[i] := f;
      content := content[f.pageId := f.image.value];
      unmarked := marks;
      assert S() == u;
    }

    /** A caller that holds a pin and the exclusive lock rewrites the page in place. */
    method Modify(i: nat, page: Page)
      requires Valid() && i in hashed && i < frames.Length && frames[i].refs > 0
      modifies this, frames
      ensures Valid() && hashed == old(hashed) && unmarked == old(unmarked) + {frames[i].pageId}
      ensures content == old(content)[frames[i].pageId := old(frames[i]).image.value.(page := Some(page))]
      ensures frames[..] == old(frames[..])[i := old(frames[i]).(image := Some(content[frames[i].pageId]))]
    {
      hide Ok;
      HashedFacts(S(), i);
      ReplaceFrame(i, frames[i].(image := Some(frames[i].image.value.(page := Some(page)))),
                   unmarked + {frames[i].pageId});
    }

    /** mark_page_dirty: the page's lsn becomes that of the last record handed to the log. */
    method MarkDirty(id: PageId)
      requires Valid()
      modifies this, frames
      ensures Valid() && hashed == old(hashed) && content.Keys == old(content.Keys) && unmarked == old(unmarked) - {id}
      ensures forall i :: i in hashed && 0 <= i < frames.Length && frames[i].pageId == id ==>
                frames[i] == old(frames[i]).(dirty := true, image := Some(content[id]))
                && (enableWal ==> content[id].lsn == log.nextLsn - 1)
      ensures forall i :: 0 <= i < frames.Length && (i !in hashed || frames[i].pageId != id) ==>
                frames[i] == old(frames[i])
      ensures forall p :: p in content ==> content[p].page == old(content[p].page)
      ensures forall p :: p in content && p != id ==> content[p] == old(content[p])
    {
      hide Ok, InFrame;
      ChainsHold(S(), -1);
      var i := FindEntry(id);
      OnlyFrame(S(), id, i);
      if i != -1 {
        HashedFacts(S(), i);
        var img := frames[i].image.value;
        ReplaceFrame(i, frames[i].(dirty := true,
                                   image := Some(if enableWal then img.(lsn := log.nextLsn - 1) else img)),
                     unmarked - {id});
      } else {
        NotUnmarked(S(), id);
      }
    }

    /** release_page.  A caller that changed a page has marked it dirty before dropping the
        last pin. */
    method Release(id: PageId)
      requires Valid()
      requires forall i :: i in hashed && 0 <= i < frames.Length && frames[i].pageId == id ==>
                 frames[i].refs > 0 && (frames[i].refs == 1 ==> id !in unmarked)
      modifies this, frames
      ensures Valid() && hashed == old(hashed) && content == old(content) && unmarked == old(unmarked)
      ensures forall i :: 0 <= i < frames.Length ==>
                frames[i] == if i in hashed && old(frames[i].pageId) == id
                             then old(frames[i]).(refs := old(frames[i].refs) - 1) else old(frames[i])
    {
      hide Ok, InFrame;
      ChainsHold(S(), -1);
      var i := FindEntry(id);
      OnlyFrame(S(), id, i);
      if i != -1 {
        HashedFacts(S(), i);
        ReplaceFrame(i, frames[i].(refs := frames[i].refs - 1), unmarked);
      }
    }

    /** A log record beside the pool: records only ever cover more of it. */
    method WriteLog(txn: nat, kind: nat, pageId: PageId, length: nat, ioOk: bool) returns (ok: bool)
      requires Valid()
      modifies log
      ensures Valid() && |old(log.file + log.buffer)| <= |log.file + log.buffer|
    {
      ok := log.WriteRecord(txn, kind, pageId, length, ioOk);
    }

    // ---- the calls of any number of callers --------------------------------------------

    /** What callers see of the pool, and the pins they hold together. */
    ghost predicate Shows(v: View)
      reads this, frames, hashTable
    {
      v.pages == Pages() && v.unmarked == unmarked && Held(S(), v.pins)
    }

    ghost function Pages(): map<PageId, Option<Page>>
      reads this
    {
      map p | p in content :: content[p].page
    }

    /** A caller fetches a page and reads it. */
    method Fetch(id: PageId, io: Io, ghost v: View) returns (r: Reply, ghost v': View)
      requires Valid() && Shows(v) && id != 0
      modifies this, frames, hashTable, log
      ensures Valid() && Shows(v') && Follows(v, Call.Fetch(id), r, v')
    {
      hide Ok, Held, InFrame, DiskRead, BufferPool.LogOk;
      var g := GetPage(id, io.now, io.flushOk, io.writeOk, io.readOk);
      FetchHeld(old(S()), S(), if g.Some? then g.value else -1, v.pins);
      if g == None {
        return Failed, v;
      }
      r := Got(frames[g.value].image.value.page);
      v' := View(Pages(), v.pins + multiset{id}, unmarked);
      assert v'.pages == v.pages[id := content[id].page];
    }

    /** A caller rewrites a page it has pinned. */
    method Change(id: PageId, page: Page, ghost v: View) returns (ghost v': View)
      requires Valid() && Shows(v) && id in v.pins
      modifies this, frames
      ensures Valid() && Shows(v') && Follows(v, Call.Change(id, page), Done, v')
    {
      hide Ok, InFrame, DiskRead, BufferPool.LogOk;
      ChainsHold(S(), -1);
      var i := FindEntry(id);
      Modify(i, page);
      SameHeld(old(S()), S(), v.pins);
      v' := v.(pages := Pages(), unmarked := unmarked);
      assert v'.pages == v.pages[id := Some(page)];
    }

    /** A caller marks a page it has pinned. */
    method Mark(id: PageId, ghost v: View) returns (ghost v': View)
      requires Valid() && Shows(v) && id in v.pins
      modifies this, frames
      ensures Valid() && Shows(v') && Follows(v, Call.Mark(id), Done, v')
    {
      hide Ok, InFrame, DiskRead, BufferPool.LogOk;
      MarkDirty(id);
      SameHeld(old(S()), S(), v.pins);
      v' := v.(unmarked := unmarked);
      assert Pages() == v.pages;
    }

    /** A caller gives a pin back. */
    method Unpin(id: PageId, ghost v: View) returns (ghost v': View)
      requires Valid() && Shows(v) && id in v.pins && (v.pins[id] == 1 ==> id !in v.unmarked)
      modifies this, frames
      ensures Valid() && Shows(v') && Follows(v, Call.Unpin(id), Done, v')
    {
      hide Ok, InFrame, DiskRead, BufferPool.LogOk;
      Release(id);
      DropHeld(old(S()), S(), id, v.pins);
      v' := v.(pins := v.pins - multiset{id});
    }
  }

  /** How the devices answer while a call runs. */
  datatype Io = Io(now: int, flushOk: bool, writeOk: bool, readOk: bool, logOk: bool, length: nat)

  /** What a caller may do: get_page, a change of the page, mark_page_dirty, release_page,
      write_wal_record. */
  datatype Call =
    | Fetch(id: PageId)
    | Change(id: PageId, page: Page)
    | Mark(id: PageId)
    | Unpin(id: PageId)
    | Record(id: PageId)

  /** Skipped: the caller has no right to the call and does not make it. */
  datatype Reply = Skipped | Failed | Got(page: Option<Page>) | Done

  datatype View = View(pages: map<PageId, Option<Page>>, pins: multiset<PageId>, unmarked: set<PageId>)

  /** Callers change, mark and release only what they have pinned, and mark a page they have
      changed before its last pin goes. */
  predicate May(pins: multiset<PageId>, unmarked: set<PageId>, c: Call) {
    match c
    case Fetch(id) => id != 0
    case Change(id, _) => id in pins
    case Mark(id) => id in pins
    case Unpin(id) => id in pins && (pins[id] == 1 ==> id !in unmarked)
    case Record(_) => true
  }

  /** Pages as a plain map.  A failed fetch changes nothing; a page never seen before reads as
      an empty leaf or as a hole of the data file. */
  ghost predicate Follows(v: View, c: Call, r: Reply, v': View) {
    if r.Skipped? then !May(v.pins, v.unmarked, c) && v' == v
    else
      && May(v.pins, v.unmarked, c)
      && match c
         case Fetch(id) =>
           || (r.Failed? && v' == v)
           || (r.Got? && (id in v.pages ==> r.page == v.pages[id])
               && (id !in v.pages ==> r.page in {FRESH_IMAGE.page, BLANK_IMAGE.page})
               && v' == View(v.pages[id := r.page], v.pins + multiset{id}, v.unmarked))
         case Change(id, page) =>
           r.Done? && v' == v.(pages := v.pages[id := Some(page)], unmarked := v.unmarked + {id})
         case Mark(id) => r.Done? && v' == v.(unmarked := v.unmarked - {id})
         case Unpin(id) => r.Done? && v' == v.(pins := v.pins - multiset{id})
         case Record(_) => r.Done? && v' == v
  }

  /** The pool is invisible: from any sound pool, with any pins held, whatever is evicted or
      reloaded, and whichever flushes, reads and writes fail, a run of calls sees a plain map
      of pages. */
  method RunPool(pool: BufferPool, pins0: multiset<PageId>, unmarked0: set<PageId>, calls: seq<Call>, io: nat -> Io)
    returns (replies: seq<Reply>, ghost views: seq<View>)
    requires pool.Valid() && Held(pool.S(), pins0) && pool.unmarked == unmarked0
    modifies pool, pool.frames, pool.hashTable, pool.log
    ensures pool.Valid() && |replies| == |calls| && |views| == |calls| + 1
    ensures views[0] == View(old(pool.Pages()), pins0, unmarked0) && pool.Shows(views[|calls|])
    ensures forall i :: 0 <= i < |calls| ==> Follows(views[i], calls[i], replies[i], views[i + 1])
  {
    hide Follows, Held, BufferPool.Valid, BufferPool.Pages;
    var pins, unmarked := pins0, unmarked0;
    replies, views := [], [View(pool.Pages(), pins0, unmarked0)];
    for n := 0 to |calls|
      invariant |replies| == n && |views| == n + 1
      invariant pool.Valid() && pool.Shows(views[n])
      invariant views[0] == View(old(pool.Pages()), pins0, unmarked0)
      invariant pins == views[n].pins && unmarked == views[n].unmarked
      invariant forall i :: 0 <= i < n ==> Follows(views[i], calls[i], replies[i], views[i + 1])
    {
      var r;
      ghost var v';
      r, v', pins, unmarked := Step(pool, calls[n], io(n), pins, unmarked, views[n]);
      replies, views := replies + [r], views + [v'];
    }
  }

  method Step(pool: BufferPool, c: Call, io: Io, pins: multiset<PageId>, unmarked: set<PageId>, ghost v: View)
    returns (r: Reply, ghost v': View, pins': multiset<PageId>, unmarked': set<PageId>)
    requires pool.Valid() && pool.Shows(v) && v.pins == pins && v.unmarked == unmarked
    modifies pool, pool.frames, pool.hashTable, pool.log
    ensures pool.Valid() && pool.Shows(v') && Follows(v, c, r, v') && v'.pins == pins' && v'.unmarked == unmarked'
  {
    hide Held, BufferPool.Valid, BufferPool.Pages;
    r, v', pins', unmarked' := Skipped, v, pins, unmarked;
    if May(pins, unmarked, c) {
      r := Done;
      match c {
        case Fetch(id) =>
          r, v' := pool.Fetch(id, io, v);
          if r.Got? { pins' := pins + multiset{id}; }
        case Change(id, page) =>
          v' := pool.Change(id, page, v);
          unmarked' := unmarked + {id};
        case Mark(id) =>
          v' := pool.Mark(id, v);
          unmarked' := unmarked - {id};
        case Unpin(id) =>
          v' := pool.Unpin(id, v);
          pins' := pins - multiset{id};
        case Record(id) =>
          var logged := pool.WriteLog(0, 0, id, io.length, io.logOk);
      }
    }
  }

  /** What a walk along the chain of a bucket relies on. */
  lemma {:induction false} BucketFacts(s: Pool, b: nat)
    requires ChainsOk(s) && b < HASH_TABLE_SIZE
    ensures |s.frames| == BUFFER_POOL_SIZE && |s.table| == HASH_TABLE_SIZE == |s.chains|
    ensures var c := s.chains[b];
            && s.table[b] == (if |c| == 0 then -1 else c[0])
            && (forall j {:trigger c[j]} :: 0 <= j < |c| ==> 0 <= c[j] < |s.frames| && c[j] in s.hashed)
            && (forall j {:trigger s.frames[c[j]].hashNext} :: 0 <= j < |c| ==> s.frames[c[j]].hashNext == Link(c, j))
  {
    var c := s.chains[b];
    assert Chained(s.frames, c, s.table[b], b);
    forall j | 0 <= j < |c| ensures c[j] in s.hashed { assert c[j] in c; }
  }

  /** The frame a lookup found is the only one of the page. */
  lemma {:induction false} OnlyFrame(s: Pool, id: PageId, i: int)
    requires ChainsOk(s)
    requires if i == -1 then !InFrame(s, id) else i in s.hashed && s.frames[i].pageId == id
    ensures forall j :: j in s.hashed && 0 <= j < |s.frames| && s.frames[j].pageId == id ==> j == i
  {
    hide Chained;
    forall j | j in s.hashed && 0 <= j < |s.frames| && s.frames[j].pageId == id ensures j == i {
      if i != -1 { OneFrame(s, i, j); }
    }
  }

  lemma {:induction false} ChainMisses(s: Pool, id: PageId)
    requires ChainsOk(s)
    requires forall k :: 0 <= k < |s.chains[Bucket(id)]| ==>
               0 <= s.chains[Bucket(id)][k] < |s.frames| && s.frames[s.chains[Bucket(id)][k]].pageId != id
    ensures !InFrame(s, id)
  {
  }

  lemma {:induction false} ChainsHold(s: Pool, but: int)
    requires Ok(s, but)
    ensures ChainsOk(s) && ContentOk(s)
  {
  }

  lemma {:induction false} NotUnmarked(s: Pool, id: PageId)
    requires ContentOk(s) && !InFrame(s, id)
    ensures id !in s.unmarked
  {
  }

  lemma {:induction false} DirtyIsHashed(s: Pool, v: nat)
    requires Ok(s, -1) && v < |s.frames| && s.frames[v].dirty
    ensures v in s.hashed
  {
  }

  /** A page without a frame has none once frames only left the chains. */
  lemma {:induction false} SameFrames(s: Pool, u: Pool, id: PageId)
    requires !InFrame(s, id) && |u.frames| == |s.frames| && u.hashed <= s.hashed
    requires forall i :: 0 <= i < |s.frames| ==> u.frames[i].pageId == s.frames[i].pageId
    ensures !InFrame(u, id)
  {
  }

  lemma {:induction false} OkSizes(s: Pool)
    requires Ok(s, -1)
    ensures |s.frames| == BUFFER_POOL_SIZE && |s.table| == HASH_TABLE_SIZE == |s.chains|
  {
  }

  lemma {:induction false} HashedFacts(s: Pool, i: int)
    requires Ok(s, -1) && i in s.hashed
    ensures 0 <= i < |s.frames| == BUFFER_POOL_SIZE && FrameOk(s, i)
    ensures s.content[s.frames[i].pageId := s.content[s.frames[i].pageId]] == s.content
  {
  }

  /** What the walk along the chain of frame v's bucket relies on. */
  lemma {:induction false} ChainFacts(s: Pool, v: nat)
    requires Ok(s, -1) && v < |s.frames|
    ensures |s.frames| == BUFFER_POOL_SIZE && |s.table| == HASH_TABLE_SIZE == |s.chains|
    ensures var c := s.chains[Bucket(s.frames[v].pageId)];
            && s.table[Bucket(s.frames[v].pageId)] == (if |c| == 0 then -1 else c[0])
            && (forall j {:trigger c[j]} :: 0 <= j < |c| ==> 0 <= c[j] < |s.frames|)
            && (forall j {:trigger s.frames[c[j]].hashNext} :: 0 <= j < |c| ==> s.frames[c[j]].hashNext == Link(c, j))
            && (v in s.hashed <==> v in c) && (v in c ==> s.frames[v].pageId != 0)
  {
    var b := Bucket(s.frames[v].pageId);
    var c := s.chains[b];
    assert Chained(s.frames, c, s.table[b], b);
    if v in c { OneChain(s, v, b); }
  }
}
