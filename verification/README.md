# Codo, verified

Codo is an HTTP server written in C with its own storage engine and its own TCP balancer.
This project models the parts of it that hold state in hard ways and proves what they
promise.  Everything is stated over every input, every run or every interleaving; nothing
here executes the server.

| files | what they model |
|---|---|
| `common`, `decimal` | bytes, options and decimal digit strings |
| `keys`, `pages`, `trees`, `routing`, `height`, `contents`, `scan`, `engine` | the paged B-tree: byte-string keys, byte-counted pages, splits, root growth, separators, leaf links, and the database operations on top |
| `wal`, `pager` | the write-ahead log and the buffer pool over the data file |
| `lru`, `cache_protocol` | the read cache, and the generation protocol by which concurrent reads and writes use it |
| `todo_index`, `reconcile`, `todo_list`, `json`, `json_text` | the owner index of the todo rows, its repair, listings through it, the stored JSON, and JSON as clients may write it |
| `http_text`, `chunked`, `framing`, `request_parser`, `connection` | request framing, the parser that follows it, and a pipelined connection |
| `chunk_text`, `request_text` | chunked bodies and requests as clients may write them, and what the framing pass and the parser make of them |
| `websocket` | WebSocket frames and the echo session |
| `offload` | ownership of a connection between event loop, storage pool and shutdown |
| `rate_limit`, `selection`, `pump` | the token buckets, smooth weighted round robin, and the proxy's byte pump |

## How the model is built

**B-tree.** A page is a sequence of entries with their byte sizes (8-byte pair header, 4024
usable bytes).  The database class keeps, beside its pages, a ghost interval for every page
and a ghost set of right halves that have been carved off but not yet published in a parent.
`Trees.Inv` says that separators, intervals and leaf links fit; every step of a cascading
split keeps it, including the moments when a half is still unpublished.  Keys are ranked
into the reals by an order embedding (`Keys.RankOrders`), so that intervals are linear
arithmetic.  Sections under `tree_lock` are atomic.

**Imperative parts** (pages, buffer pool, log, cache, balancer, limiter, connections) are
classes and methods with loops, proved against functions of their old state.  **Concurrent
parts** (cache protocol, offload) are state machines in which any number of threads
interleave atomic steps.

**Idealised.** Integers are unbounded except where the source checks a width (64-bit ids,
`Content-Length`, chunk sizes, frame lengths); doubles are reals; allocation of memory
succeeds; clocks, sockets, disk outcomes and hash functions are parameters.

## Where the source does less than its comments say

* **Request line read as a field.**  The framing pass also reads the request line.  A request
  line that is itself a `Transfer-Encoding: chunked` field has three words to `sscanf`
  (the first word is cut at 15 bytes), so the parser accepts it and sees no body while the
  framing pass consumed a chunked one.  `RequestParser.ParserAgrees` proves agreement in
  every other case, `RequestParser.MisledFamily` that the case is real.
* **Draining without the lock.**  `drain_worker_connections` takes no lock, so it can free a
  connection whose pool task has dropped the flag but not finished its `epoll_ctl`
  (`Offload.DrainOverlaps`); no memory of the connection is touched afterwards.
* **Registering with a worker that drains.**  A worker also leaves its loop when `epoll_wait`
  fails, while the accept loop goes on handing it connections.  Linking one then writes to
  the old list head, which the drain may have freed (`Offload.LinkWritesFreed`); and between
  its link and its `EPOLL_CTL_ADD` a connection can be freed by the drain or the idle sweep
  while the accept loop still holds it (`Offload.ArmWindow`, `Offload.DanglingArm`,
  `Offload.CutWalk`).  `Offload.Ownership` proves that these races are exactly what can go
  wrong, `Offload.OrderlySafe` that nothing does without them.  A connection linked during
  such a drain without a race is never freed (`Offload.LateIsLost`); every other one is freed
  exactly once (`Offload.AllFreed`).
* **Early use of an id.**  The create handler seeds the cache, and undoes a row, outside the
  write lock.  Seeding leaves the cache incoherent exactly when the row has changed since
  (`CacheProtocol.SeedingExact`), undoing exactly when somebody has read the row
  (`CacheProtocol.UndoExact`), and `CacheProtocol.EarlyUseGoesStale` is such a run.  Without
  these steps every run is coherent (`CacheProtocol.CacheCoherent`), and they cannot happen
  when clients look an id up only after its create has returned
  (`CacheProtocol.PatientCoherent`).
* **Running out of page ids.**  A split that finds no page id half way leaves a right half
  carved off and unpublished.  Nothing is lost from the pages, but a search then misses
  exactly the stored keys of such a half (`Engine.Db.Search`, `Routing.CarvedIsHidden`).
  With 44 ids left no insert gets there (`Engine.Db.Insert`).
* **Control bytes in titles.**  A title reads back exactly when it holds no control byte
  other than tab, newline and carriage return (`TodoRow.TitleRoundTrip`).

## Model

| member | source | states |
|---|---|---|
| Keys.CompareKeysDecides | storage/src/btree.c:195-210 | the three outcomes of the comparison are the lexicographic order, the other way round, and equality |
| Keys.PrefixInterval | storage/src/db.c:541-565 | keys with a prefix are contiguous in key order: once a key at or above the prefix fails the test, all later ones do |
| Pages.FindKeyPosition | storage/src/btree.c:261-294 | the binary search returns the first position whose key is not below the sought one, in range, on any sorted page |
| Pages.ChooseSplitIndex | storage/src/btree.c:63-88 | the split point leaves both sides non-empty and is the first at which half the bytes are reached, -1 exactly with fewer than two entries |
| Pages.SplitPointBalance | storage/src/btree.c:63-88 | a split at that point leaves each side at most half the bytes plus one pair |
| Pages.SplitPage | storage/src/btree.c:90-193 | a page with two entries or more is cut in two halves that together hold its entries, with the middle separator and the leaf link handed over |
| Trees.GrowKeeps | storage/src/db.c:67-107 | growing the root in place keeps the whole tree invariant |
| Trees.CarveKeeps | storage/src/db.c:209-268 | carving a right half off a node keeps the invariant, with the half recorded as unpublished |
| Trees.PublishKeeps | storage/src/db.c:112-207 | publishing the half in the parent keeps the invariant |
| Routing.SeparatorRoutes | storage/src/db.c:120-141 | between carving and publishing, the separator still leads from the root to the left half, whatever happened above it |
| Routing.StillAwaits | storage/src/db.c:176-186 | splitting the full parent (or the root) leaves the half waiting under the same separator |
| Routing.ReachedOnce | storage/src/db.c:149-170 | in a settled tree every page but the root is the child of exactly one slot of exactly one parent |
| Routing.FullHasFifteen | storage/src/db.c:172-186 | an internal page that cannot take a separator has at least 15 |
| Routing.FullLeafHasThree | storage/src/db.c:328-367 | a leaf that cannot take a pair within the limits has at least 3 entries |
| Routing.GrownIsRoomy | storage/src/db.c:209-268 | a freshly grown root has room for its first separator |
| Routing.HalvedIsRoomy | storage/src/db.c:176-186 | after one split of a full parent the page that now points at the left half has room for the separator |
| Routing.FourSplitsSuffice | storage/src/db.c:328-367 | four splits bring the leaf on a key's path down far enough for any pair |
| Routing.SplitLightens | storage/src/db.c:209-268 | each split brings the load of the leaf on the path down one step of that ladder |
| Routing.HalfNotLinked | storage/src/db.c:209-268 | no pointer leads to a right half before it is published |
| Routing.OnWayMoves | storage/src/db.c:270-303 | a descent stays on the page whose interval holds the key until it passes a page whose unpublished half the key belongs to, and is left of the key for good from there on |
| Routing.CarvedIsHidden | storage/src/db.c:248-267 | between carving and publishing exactly the keys of the right half are out of reach |
| Height.HeightBound | storage/src/db.c:209-268 | a tree within the page limit has at most nine levels, since every internal page but the root keeps six separators |
| Contents.GrowAgrees | storage/src/db.c:67-107 | root growth does not change the stored map |
| Contents.CarveAgrees | storage/src/btree.c:90-193 | a split does not change the stored map |
| Contents.LeafDecides | storage/src/db.c:406-439 | what the leaf on a key's path says about the key is what the map says |
| Scan.ListsUnique | storage/src/db.c:514-587 | a prefix, a map and a bound determine the listing, which ascends strictly |
| Scan.EmptyPrefixListsAll | storage/src/db.c:612-618 | the empty prefix lists the whole map, each key once |
| Scan.ScanLeaf | storage/src/db.c:541-565 | within a leaf the scan reports the next pairs of the listing, stopping at the callback's word or the end of the prefix |
| Engine.Db.AllocatePage | storage/src/pager.c:346-370 | a page id that is not in use, never handed out twice, 0 only when none is left |
| Engine.Db.DescendPath | storage/src/db.c:26-61 | the path from the root to the leaf of a key |
| Engine.Db.GrowRoot | storage/src/db.c:67-107 | the old root's content moves to a fresh page under an empty root at the same id |
| Engine.Db.SplitNode | storage/src/db.c:209-268 | with depth 2r+2, r levels below the root, a split succeeds if r+2 page ids are left, and then halves the node; it keeps map and invariant also when it fails half way |
| Engine.Db.InsertSeparator | storage/src/db.c:112-207 | the waiting half is published, after splitting full parents as needed; with room in the parent or enough page ids it succeeds, and it keeps map and invariant when it fails |
| Engine.Db.Crowded | storage/src/db.c:328-367 | the leaf on the path tells exactly whether storing a pair has to split |
| Engine.LeafAnswers | storage/src/db.c:406-439 | the leaf at the end of a descent holds every stored key that is not in an unpublished half, and none that is |
| Engine.Db.Search | storage/src/db.c:406-439 | finds exactly the stored value, cut to the caller's room, and its full length; after a split that failed half way it misses exactly the keys of the unpublished halves |
| Engine.Db.Insert | storage/src/db.c:308-404 | a new key within the limits is always stored when it needs no split or 44 page ids are left; a duplicate, an inactive transaction or a bad size is refused and changes nothing; an insert that runs out of page ids stores nothing and loses nothing |
| Engine.Db.Delete | storage/src/db.c:441-503 | removes the key, or fails and changes nothing |
| Engine.Db.ScanRange | storage/src/db.c:514-587 | reports every pair under the prefix, once, ascending, across any leaves, or up to where the callback stopped it |
| Engine.Run | storage/src/db.c:308-503 | every sequence of inserts, deletes and searches answers as a finite map does; only an insert of a new key that runs out of page ids ends it, leaving the map as it was |
| Wal.RecordSize | storage/src/wal.c:16-40 | record sizes are multiples of 8 that hold header and payload |
| Wal.Log.Flush | storage/src/wal.c:101-134 | success makes every record durable in LSN order; failure keeps the buffer |
| Wal.Log.WriteRecord | storage/src/wal.c:16-99 | records are numbered without gap or repeat; a record that cannot fit is refused; a full buffer is flushed first |
| PoolState.OneFrame | storage/src/pager.c:37-54 | a page id sits in at most one hashed frame |
| PoolState.DropKeeps | storage/src/pager.c:123-137 | unlinking a clean, unpinned frame loses no page content |
| PoolState.LoadKeeps | storage/src/pager.c:279-287 | publishing a loaded page changes no page's content |
| PoolState.UpdateKeeps | storage/src/pager.c:298-341 | changing one hashed frame keeps the chains and every other page |
| Pager.BufferPool.constructor | storage/src/pager.c:37-54 | an empty pool over any data file without torn slots is sound |
| Pager.BufferPool.FindEntry | storage/src/pager.c:37-54 | the chain walk finds the page's frame exactly when it has one |
| Pager.BufferPool.PickVictim | storage/src/pager.c:67-89 | the victim is unpinned and least recently accessed; none exactly when all are pinned |
| Pager.BufferPool.WriteBack | storage/src/pager.c:91-121 | log before page; a failed write leaves the frame dirty and hashed and the content unchanged |
| Pager.BufferPool.Unhash | storage/src/pager.c:123-137 | the victim leaves its chain, nothing else changes |
| Pager.BufferPool.AllocateEntry | storage/src/pager.c:56-149 | evicts without changing any page's content or any pinned frame |
| Pager.BufferPool.LoadPage | storage/src/pager.c:168-223 | a page that was ever stored reads back as its content; a page past the end of the file starts as an empty leaf |
| Pager.BufferPool.GetPage | storage/src/pager.c:225-296 | the pool is invisible: the frame holds the page's content, other contents and pinned frames stay, and it fails only on an I/O failure or a fully pinned pool |
| Pager.BufferPool.Modify | storage/src/pager.c:319-341 | a pinned, locked page changes its own content only |
| Pager.BufferPool.MarkDirty | storage/src/pager.c:319-341 | the frame becomes dirty under the lsn of the last record handed to the log; the invariant then keeps every image that reaches the file behind its record |
| Pager.BufferPool.Release | storage/src/pager.c:298-317 | one pin less on that page's frame, nothing else; the last pin of a changed page goes only after the page was marked |
| Pager.BufferPool.WriteLog | storage/src/wal.c:16-99 | a log record beside the pool keeps the pool sound and its write-ahead promise |
| PoolState.FetchHeld | storage/src/pager.c:225-296 | a fetch keeps every page's pin count equal to the pins its callers hold, whatever it evicts |
| Pager.BufferPool.Fetch | storage/src/pager.c:225-296 | with any pins held, a fetch reads the page's content and adds one pin, or fails and changes nothing callers see |
| Pager.BufferPool.Change | storage/src/db.c:250-257 | a caller changes a page it has pinned, and no other |
| Pager.BufferPool.Mark | storage/src/pager.c:319-341 | marking changes no content and settles the page |
| Pager.BufferPool.Unpin | storage/src/pager.c:298-317 | giving a pin back changes no content |
| Pager.RunPool | storage/src/pager.c:37-341 | from any sound pool with any pins held, in every run of fetches, changes, marks, releases and log records, whatever is evicted or reloaded and whichever flushes, reads and writes fail, callers see a plain map of pages |
| LruSpec.StoredIsLru | common/src/lru.c:272-306 | storing keeps at most capacity keys, puts the key last, and evicts the least recently used only for a new key at capacity |
| LruSpec.HoldsMostRecent | common/src/lru.c:243-364 | in every run of stores, gets and invalidations the cache holds exactly the most recently used keys, in order of last use; without invalidations as many as fit |
| LruList.RecencyList.Unlink | common/src/lru.c:91-113 | the node leaves the doubly linked list, the rest keeps its order |
| LruList.RecencyList.PushBack | common/src/lru.c:116-132 | the node becomes the most recently used |
| LruTable.Table.Find | common/src/lru.c:56-66 | the bucket walk finds the node of a key exactly when it is a member |
| LruTable.Table.Insert | common/src/lru.c:68-73 | the node joins its bucket's chain |
| LruTable.Table.Remove | common/src/lru.c:75-89 | the node leaves its bucket's chain |
| LruCache.Cache.constructor | common/src/lru.c:186-219 | an empty cache is sound |
| LruCache.Cache.EvictLru | common/src/lru.c:140-152 | the least recently used entry leaves list and table together |
| LruCache.Cache.Get | common/src/lru.c:243-269 | a hit returns the value cut to the caller's room and its full length and refreshes the entry; a miss changes nothing |
| LruCache.Cache.Store | common/src/lru.c:272-306 | refines storing in the recency-ordered map |
| LruCache.Cache.Put | common/src/lru.c:308-322 | stores, and outdates every fill under way |
| LruCache.Cache.Fill | common/src/lru.c:324-341 | stores exactly when no write came since the snapshot |
| LruCache.Cache.Invalidate | common/src/lru.c:343-364 | removes the key and outdates every fill under way |
| CacheProtocol.StepKeeps | api/src/todo_handlers.c:474-764 | every step of every reader, writer and creator, for any id, keeps the protocol invariant, except the two harmful steps of a create |
| CacheProtocol.CreatePutExact | api/src/todo_handlers.c:535-537 | seeding keeps the invariant if and only if the row still holds the created value or a write is replacing just that value |
| CacheProtocol.CreateUndoExact | api/src/todo_handlers.c:516-525 | undoing a created row keeps the invariant if and only if the delete failed, or nobody has cached the row, may still cache it, or has just rewritten it |
| CacheProtocol.CacheCoherent | api/src/todo_handlers.c:474-764 | in every interleaving without a harmful step, whenever no writer holds the lock each cached value, and each value a matching fill could still store, is the stored row; while one does, it is that or the row being replaced |
| CacheProtocol.PatientCoherent | api/src/todo_handlers.c:474-764 | the same of every interleaving in which ids are looked up only after their create has returned, requests for missing ids included |
| CacheProtocol.SectionOutcome | api/src/todo_handlers.c:607-764 | whatever runs beside it, a write section makes of its row exactly what its calls decide: a missing row, one of somebody else and one that could not be deleted stay, a dropped row goes, an updated row is the new value if it could be inserted, the old one if it could be put back, and otherwise lost |
| CacheProtocol.SectionCacheCalls | api/src/todo_handlers.c:607-764 | a section puts its value into the cache exactly when it was inserted, takes the id out exactly when a delete was tried or a row could not be put back, and otherwise leaves the cache alone |
| CacheProtocol.DropIsFinal | api/src/todo_handlers.c:704-764 | after a delete the id is in the store in no later state, in the cache in none after the delete's last cache call, and every GET that looks it up finds nothing |
| CacheProtocol.UndoIsFinal | api/src/todo_handlers.c:516-525 | a create that was undone never reappears in the store |
| CacheProtocol.RowStays | api/src/todo_handlers.c:474-764 | nothing touches a row whose create has returned until the next write to its id takes the lock |
| CacheProtocol.UpdateStays | api/src/todo_handlers.c:607-702 | after a successful update the row is the new value until the next write to its id takes the lock, and so is whatever is cached for it once the cache call is made |
| CacheProtocol.LockReleased | api/src/todo_handlers.c:607-764 | the holder of the write lock can always go on whether or not its calls succeed, nobody else moves it, and after six of its steps at most the lock is free |
| CacheProtocol.ReadWasStored | api/src/todo_handlers.c:542-605 | in every run, what a GET has read from the store was the stored row at some moment since the GET began |
| CacheProtocol.QuietFillCaches | common/src/lru.c:324-341 | a GET that no write overtakes puts what it read into the cache |
| CacheProtocol.MissIsFilled | api/src/todo_handlers.c:542-605 | a GET that misses on a stored row which nobody is writing ends with that row in the cache, whatever runs between its steps, unless a write makes its cache call meanwhile |
| CacheProtocol.WriteIsCached | api/src/todo_handlers.c:474-702 | the value of an update, and of a create that nobody has overtaken, is found in the cache until it is evicted or the next write to its id takes the lock |
| CacheProtocol.SeedingExact | api/src/todo_handlers.c:535-537 | with the lock free, the cache is coherent after the seeding if and only if the row still holds the created value |
| CacheProtocol.UndoExact | api/src/todo_handlers.c:516-525 | with the lock free, the cache is coherent after the undo if and only if the delete failed or the row is neither cached nor held by a matching fill |
| CacheProtocol.StaleFillDropped | common/src/lru.c:324-341 | a GET that took its snapshot before a write can never change the cache, however long it stays pending and whatever runs meanwhile |
| CacheProtocol.EarlyUseGoesStale | api/src/todo_handlers.c:474-540 | a run in which an update before the create returns leaves a stale entry for good |
| IndexKeys.ParseRowKey | api/src/todo_index.c:44-73 | the digit loop with its 64-bit check |
| IndexKeys.RowIdIs | api/src/todo_index.c:44-73 | a row id is one to twenty digits with a 64-bit value, and is that value |
| IndexKeys.RowKeyParses | api/src/todo_index.c:34-73 | row keys parse back |
| IndexKeys.IndexKeyParses | api/src/todo_index.c:75-112 | index keys parse back, and the two ids determine the key |
| IndexKeys.RowsAreNotEntries | api/src/todo_index.c:288-325 | no key is both a row and an index entry |
| IndexKeys.IndexOrder | api/src/todo_index.c:75-85 | index keys order bytewise exactly as (user, id) orders numerically |
| IndexKeys.PrefixSelects | api/src/todo_index.c:87-96 | a user's prefix selects that user's keys and no other's |
| Reconcile.Collect | api/src/todo_index.c:288-325 | the scan callback gathers exactly the pairs the rows call for, the pairs the index holds, and the highest id |
| Reconcile.SortPairs | api/src/todo_index.c:450-460 | the same pairs, ascending |
| Reconcile.Store.IndexInsert | api/src/todo_index.c:114-125 | adds an entry that is not there, given room |
| Reconcile.Store.IndexDelete | api/src/todo_index.c:127-137 | removes an entry that is there |
| Reconcile.Store.ApplyRepairs | api/src/todo_index.c:339-417 | without failures the merge leaves exactly the wanted pairs; with room and distinct pairs nothing fails; equal lists cause no write; rows are untouched |
| Reconcile.Store.Run | api/src/todo_index.c:419-487 | success means the index is exact, from any starting index; a failed scan changes nothing and leaves the index unused; canonical rows and room guarantee success; an exact index over canonical rows sees no write; the reported maximum bounds every row id |
| TodoList.CollectIds | api/src/todo_index.c:176-199 | from a prefix scan, the user's ids ascending and complete |
| TodoList.Lookup | api/src/todo_index.c:201-227 | the same on the database |
| TodoList.ListFiltered | api/src/todo_handlers.c:217-330 | the rows of the ids, in order, that are stored, name the user as owner and pass the filter: from `offset` on, `limit` of them or all that are left, and how many there are in total |
| TodoList.SelectedRows | api/src/todo_handlers.c:217-242 | the filtered rows are those of the wanted ids, each once, none besides, in order |
| TodoList.PageGrows | api/src/todo_handlers.c:217-242 | one more matching row changes the page as the running index and count decide |
| TodoList.ListPage | api/src/todo_handlers.c:266-330 | without a filter only the page's rows are read: of the ids from `offset` on, in order, those whose rows are stored and the user's; the total is the number of entries |
| TodoList.FastPageIsSlowPage | api/src/todo_handlers.c:217-330 | with an exact index that page and total are those of reading every row |
| TodoList.FastPageOfDatabase | api/src/todo_handlers.c:217-330 | so it is on every sound database, whose own size limit keeps rows readable in full |
| TodoList.SameRowsAsFullScan | api/src/todo_handlers.c:246-261 | and the rows are those a full scan would keep |
| Json.JsonEscape | common/src/json_util.c:6-67 | writes the escaped text and a NUL, or refuses exactly when it does not fit |
| Json.EscapePlain | common/src/json_util.c:6-67 | text without quotes, backslashes and control bytes is written as it is |
| Json.JsonFindField | common/src/json_util.c:78-126 | the scanning loop, against its recursive definition |
| Json.JsonGetString | common/src/json_util.c:128-200 | the unescaped value, refused when missing, unterminated or too long |
| Json.JsonGetUint64 | common/src/json_util.c:223-241 | the digits after the field, in 64-bit arithmetic |
| TodoRow.BuildTodoJson | api/src/todo_handlers.c:58-77 | the row text, or none when title or row do not fit |
| TodoRow.RowReadsBack | common/src/json_util.c:78-241 | id, owner and flag of a built row read back whatever the title contains, and the title with control bytes collapsed |
| TodoRow.TitleRoundTrip | common/src/json_util.c:6-200 | the title reads back exactly if and only if it has no such control byte |
| JsonText.FieldsFound | common/src/json_util.c:69-126 | in any flat object, with blanks between the tokens and escapes in its strings, a field is found where its value begins, the first of several, and a missing one is not found; strings among the values are never taken for keys |
| JsonText.ObjectReads | common/src/json_util.c:69-241 | in every such object a string reads back character by character with each short escape as the byte it stands for, if it fits; a number modulo 2 to the 64; a boolean as it is; a missing field or a value of another kind not at all |
| HttpText.ParseContentLength | common/src/http_protocol.c:24-67 | the scanning loop, against the function that HttpText.ContentLengthExact pins down |
| HttpText.ContentLengthExact | common/src/http_protocol.c:24-67 | a value declares n if and only if it is blanks, one or more digits of decimal value n within unsigned long, and blanks |
| HttpText.ContentLengthShow | common/src/http_protocol.c:24-67 | every number within unsigned long, printed in decimal with any blanks around it, reads back; a greater one is refused |
| HttpText.EqualFoldExact | server/src/worker.c:641-685 | two names match if and only if they have the same length and differ at most in the case of letters |
| HttpText.TrimKeepsLength | server/src/worker.c:555-573 | trimming the value first does not change the declared length |
| ChunkedCoding.ChunkedDecode | common/src/http_protocol.c:80-207 | verdict, decoded bytes and bytes used of the decoding loop |
| ChunkedCoding.DoneLocal | common/src/http_protocol.c:80-207 | a complete decoding is fixed by the bytes it used |
| ChunkedCoding.MoreInput | common/src/http_protocol.c:80-207 | more input never repairs a malformed coding nor takes decoded bytes back |
| ChunkText.SizeLineExact | common/src/http_protocol.c:80-207 | a size line declares n if and only if it is hexadecimal digits in either case, leading zeros allowed, of value n within size_t, and then nothing, an extension or padding |
| ChunkText.WrittenDecodes | common/src/http_protocol.c:80-207 | a body chunked in any form section 7.1 of RFC 9112 allows, with extensions, trailers, and CRLF or LF line ends, decodes to the concatenation of its chunks, and nothing after it is touched |
| ChunkText.Writable | common/src/http_protocol.c:80-207 | every non-empty chunk within size_t can be written in such a form |
| ChunkText.PrefixWaits | common/src/http_protocol.c:80-207 | while such a body is still arriving it is neither done nor malformed |
| ChunkText.ArrivingBody | common/src/http_protocol.c:80-207 | what counts as arrived is the data of the chunks that are there, the last of them perhaps without its line end |
| ChunkText.BadSizeRefused | common/src/http_protocol.c:80-207 | a size line of any other form makes the coding malformed |
| ChunkText.BadEndRefused | common/src/http_protocol.c:80-207 | so does chunk data that no line end follows |
| Framing.CheckRequestFrame | server/src/worker.c:591-744 | the scanning loops compute the framing verdict |
| Framing.FrameLocal | server/src/worker.c:591-744 | "complete, n bytes" holds of those n bytes alone and whatever follows them |
| Framing.RefusalStays | server/src/worker.c:591-744 | more input never turns a refused request into an accepted or pending one |
| Pipeline.CutIndependent | server/src/worker.c:129-138 | every stream gives the same requests, leftover and end however it is cut into reads |
| Pipeline.Pipelined | server/src/worker.c:957-1075 | requests sent one after the other are dispatched one by one as they were sent, in order: all of them and then whatever follows, or up to the one that ends the connection |
| Pipeline.DrainConserves | server/src/worker.c:129-138 | the requests dispatched and what waits are the bytes received, none made up or passed over |
| Pipeline.DrainedComplete | server/src/worker.c:957-1075 | each request dispatched is complete by itself |
| RequestParser.LineAgrees | common/src/http_protocol.c:1119-1166 | a header line the framing pass accepts means the same to the parser |
| RequestParser.LinesAgree | common/src/http_protocol.c:1283-1318 | from any line on both passes read the same fields and the same end of the headers |
| RequestParser.LengthLineRefused | common/src/http_protocol.c:1095-1102 | a request line that is a Content-Length field is refused by the parser |
| RequestParser.ParserAgrees | common/src/http_protocol.c:1258-1321 | the parser accepts a framed request exactly when its first line has three words, and then sees the same header end and body unless the request line misled the framing pass |
| RequestText.HeaderReads | server/src/worker.c:641-685 | a header line is refused, accepted as a length, accepted as chunked, or passed over exactly by its name and its value, whatever the case of the name and the blanks around the value |
| RequestText.RefusedRequest | server/src/worker.c:591-744 | a request whose head holds a length or coding line that cannot be read is refused, with the answer of the first such line |
| RequestText.LengthRequest | server/src/worker.c:591-744 | with no coding line, the last declared length n decides: too large exactly above the limit, incomplete exactly until n bytes have come, then complete with those n bytes as body |
| RequestText.DeclaredRequest | server/src/worker.c:591-744 | so it is of one Content-Length line with a printed number in any blanks |
| RequestText.ChunkedRequest | server/src/worker.c:591-744 | with a coding line, the request is refused exactly if a length line stands beside it or the chunks are malformed, too large exactly when the data so far exceeds the limit, and complete where the chunks end |
| RequestText.ChunkedBody | server/src/worker.c:591-744 | a body chunked in any permitted form is framed with exactly the data of its chunks |
| RequestText.WordsRead | common/src/http_protocol.c:1095-1102 | a request line of three words of at most 15, 2047 and 15 bytes reads as those words; a word of full width needs no gap after it |
| RequestText.WrittenParses | common/src/http_protocol.c:1258-1321 | the parser accepts a written request that was framed exactly when its first line has three words, and sees the framed body |
| RequestText.StoreReads | common/src/http_protocol.c:1119-1166 | the parser gives up on a field line exactly if it is a length that spells no number within unsigned long or a coding other than chunked, stores the number or the coding, and passes over every other line |
| RequestText.ParserRejects | common/src/http_protocol.c:1258-1321 | by itself, on requests framed or not, the parser rejects a first line without three words, an unreadable length or coding line, and a length beside a coding |
| RequestText.ParserAccepts | common/src/http_protocol.c:1212-1321 | every other request is accepted with the declared number of bytes, or as many as there are, as its body; with a coding, with what the chunks decode to, rejected if they are not whole, and empty if nothing follows the head |
| RequestParser.MisledFamily | server/src/worker.c:641-685 | on every such stream, whatever the chunked body, the framing pass sees that body and the parser an empty one |
| RequestParser.MisledExample | server/src/worker.c:641-685 | a concrete member of that family |
| RequestParser.NextLine | common/src/http_protocol.c:1076-1091 | ends the line in place, bytes after it untouched |
| RequestParser.ReadBody | common/src/http_protocol.c:1212-1256 | the decoded chunks, or the declared number of bytes |
| RequestParser.ParseHttpRequest | common/src/http_protocol.c:1258-1321 | in-place parsing equals parsing the original bytes, and leaves the bytes after the request alone |
| ReadSide.Connection.ConsumeRead | server/src/worker.c:129-138 | what follows the request slides to the front intact |
| ReadSide.Connection.HandleData | server/src/worker.c:957-1075 | reading, framing, parsing in place and consuming refine the request stream |
| WsFrames.UnmaskMasked | server/src/websocket.c:362-367 | unmasking undoes masking |
| WsFrames.XorBitwise | server/src/websocket.c:362-367 | a bit of a masked byte is set exactly where payload and mask differ |
| WsFrames.DecodeLocal | server/src/websocket.c:197-277 | a frame or a violation does not depend on what follows |
| WsFrames.WaitHasRoom | server/src/websocket.c:251-272 | a frame still arriving always has buffer left to arrive in |
| WsFrames.HeaderRoundTrip | server/src/websocket.c:130-157 | headers of all three length forms, shortest or not, decode to their opcode, flags and length |
| WsFrames.DecodeExact | server/src/websocket.c:197-277 | once a header of any length form is there: without a mask it is refused with 1002, a frame that would not leave a byte of the read buffer free with 1009, any other is awaited and, when whole, unmasked |
| WsFrames.HeaderWaits | server/src/websocket.c:197-240 | part of a header decides nothing |
| WsFrames.EveryHeader | server/src/websocket.c:197-250 | whatever else begins a buffer has a reserved bit set or is too short to tell |
| WsFrames.ClientFrameDecodes | server/src/websocket.c:197-277 | a masked client frame decodes to its exact payload, whatever follows it, if and only if it is shorter than the read buffer; otherwise it is refused with 1009 as soon as its header is there |
| WsSession.CutIndependent | server/src/websocket.c:335-385 | between two flushes, a stream handled in pieces stages the same replies, close code and leftover as handled whole, refusals of a full write buffer included |
| WsSession.FlushIndependent | server/src/worker.c:1204-1241 | however a stream is cut into reads and whenever the write buffer is flushed in between, what is sent and staged is the answer to the whole stream, as long as no reply is refused for room |
| WsSession.AnswerShort | server/src/websocket.c:281-333 | the answer to n bytes has at most n + 4 bytes, and with the leftover at most n while the session goes on |
| WsSession.OftenFlushed | server/src/worker.c:1204-1241 | no reply is refused for room if the leftover of a flush and the bytes arriving before the next stay four bytes below the write buffer's limit |
| WsSession.SteadyIsRoomy | server/src/worker.c:1204-1241 | the same from the input alone: bytes between two flushes plus the read buffer's size stay four bytes below that limit |
| WsSession.NeverWedged | server/src/websocket.c:335-385 | after processing, the session closes or has room to read |
| WsSession.FrameAnswered | server/src/websocket.c:281-333 | the reply to every client frame, byte by byte: data with the same opcode and payload, a ping with a pong of the same payload, a pong with nothing, a close with the client's code in network order or 1000, a fragment with a close of 1003, every other frame with a close of 1002 |
| WsSession.ViolationAnswered | server/src/websocket.c:335-385 | an unmasked frame is answered with a close of 1002, one too big for the read buffer with a close of 1009 |
| WsSession.ReservedAnswered | server/src/websocket.c:197-215 | so is any frame with a reserved bit set, with 1002 |
| WsSession.StagedWithin | server/src/websocket.c:130-172 | the write buffer never outgrows its limit, and nothing staged is taken back |
| WsSession.NoRoom | server/src/websocket.c:281-333 | a message whose echo does not fit closes the session, with a close of 1009 while that fits; a pong that does not fit is dropped |
| WsSession.EchoExact | server/src/websocket.c:281-301 | whole data frames come back with their exact payloads, in order |
| WsSession.EchoStream | server/src/websocket.c:335-385 | the same however the messages are cut into reads and whenever the replies are flushed, for sessions of any length, as long as no reply is refused for room, which frequent flushes guarantee |
| WsConnection.BuildHeader | server/src/websocket.c:130-157 | the header bytes of the three forms |
| WsConnection.Connection.AppendFrame | server/src/websocket.c:130-172 | stages the frame exactly when the write buffer may hold it |
| WsConnection.Connection.HandleFrame | server/src/websocket.c:281-333 | the reply and shutdown decision of every opcode |
| WsConnection.Connection.Unmask | server/src/websocket.c:362-367 | the payload is unmasked in place, the rest untouched |
| WsConnection.Connection.ProcessFrames | server/src/websocket.c:335-385 | the loop over the buffer and its compaction refine the session |
| Offload.StepKeeps | server/src/worker.c:269-551 | every step of the accept loop, workers, pool threads and shutdown that is not racy keeps the ownership invariant |
| Offload.LinkExact | server/src/worker.c:373-383 | linking a new connection writes to freed memory if and only if its worker is draining and has freed the list head |
| Offload.UnlinkExact | server/src/worker.c:389-398 | undoing a registration goes wrong if and only if a drain since the link has freed its successor, has rebuilt the list, or is about to visit it |
| Offload.FaultExact | server/src/worker.c:269-551 | a step touches a freed connection, frees or unlinks one another thread holds, or damages a list if and only if it is one of the races of a registration |
| Offload.Ownership | server/src/worker.c:269-551 | so it is in every interleaving up to its first race; without one no thread touches a freed connection |
| Offload.NotStranded | server/src/worker.c:269-309 | in every run, racy or not, a registered connection that is not freed is watched by its worker and served when its turn comes unless its flag is up; and while there is a pool, a flag that is up has a task that will take it down or a worker about to submit one |
| Offload.TaskGoesOn | server/src/worker.c:269-309 | a task can always take its next step, or another that holds the same lock can; the third step takes the flag down, and after four the task is gone and the connection watched again |
| Offload.NotAbandoned | server/src/worker.c:405-446 | a worker turns away from a connection it has begun on only when it is done, has left it to the pool, or finds the flag up; a refused submission is served by the worker itself |
| Offload.EventsHandled | server/src/worker.c:405-446 | whatever is served, offloaded, refused or dropped on the way and whatever others do, until its next epoll_wait a worker comes to the connections it fetched one by one, in order, each once |
| Offload.BatchCompleted | server/src/worker.c:508-551 | a worker that waits again, or ends, has come to all of them |
| Offload.DanglingArm | server/src/worker.c:385-398 | if a connection is freed between its link and its ADD and the ADD then fails, the accept loop touches freed memory |
| Offload.CutWalk | server/src/worker.c:477-502 | if the accept loop unlinks and frees the connection a drain stands on, the drain's next step touches it |
| Offload.FreeSafe | server/src/worker.c:342-351 | no step, racy or not, frees a connection twice or while a task for it is queued or owns it; frees under the lock exclude every stage of a task |
| Offload.FreedOnce | server/src/worker.c:342-351 | up to the first race a connection is freed at most once, exactly when it counts as freed, and never under a task |
| Offload.AllFreed | server/src/server.c:164-213 | after cleanup of a run without a race every connection has been freed exactly once, except precisely those linked while their worker drained |
| Offload.OrderlySafe | server/src/server.c:110-213 | in every run in which epoll_wait does not fail and no idle sweep hits a connection that is not armed yet, nothing goes wrong and after cleanup every connection has been freed exactly once |
| Offload.LinkWritesFreed | server/src/worker.c:523-532 | a run in which, after a failing epoll_wait, a link writes to the freed head |
| Offload.ArmWindow | server/src/worker.c:383-389 | a run in which a drain frees a connection between its link and its ADD |
| Offload.DrainOverlaps | server/src/worker.c:477-506 | a drain can free a connection whose task has not finished its epoll call |
| Offload.LateIsLost | server/src/worker.c:504-532 | a run in which a connection registered during a drain is never freed |
| RateLimit.ServeAccounts | server/src/rate_limit.c:99-138 | a request takes at most what was there plus what the clock's advance brought |
| RateLimit.RetrySuffices | server/src/rate_limit.c:99-138 | a refused client that waits as told from the bucket's last refill on is admitted, also when its clock reading was older than that refill |
| RateLimit.RetryLeast | server/src/rate_limit.c:99-138 | of the whole seconds a refused client may wait, exactly those are enough that are at least as many as it was told |
| RateLimit.RetryIsOne | server/src/rate_limit.c:41-138 | with the rates the initialisation sets, the wait a refused client is told is always one second |
| RateLimit.PresentIsFound | server/src/rate_limit.c:59-95 | a client that has a slot is found in it |
| RateLimit.WindowSlots | server/src/rate_limit.c:59-95 | a probe window is sixteen consecutive slots from the hash on, around the end of the table, each once |
| RateLimit.NotFoundIsAbsent | server/src/rate_limit.c:59-95 | a probe that does not find the client proves it has none |
| RateLimit.RequestKeeps | server/src/rate_limit.c:99-138 | every request keeps one slot per client, behind used slots only |
| RateLimit.AdmissionBound | server/src/rate_limit.c:99-138 | over any stretch in which a client keeps its slot, admissions are at most burst plus rate times the advance of its clock |
| RateLimit.AdmissionFloor | server/src/rate_limit.c:99-138 | a client that keeps its slot and waits g after the slot's last refill gets its next n requests admitted for every n up to the burst and up to its tokens plus rate times g; with g = 0 whatever the clock readings are |
| RateLimit.NewcomerBurst | server/src/rate_limit.c:59-138 | a client without a slot that keeps the one it is given gets its first n requests admitted for every n up to the burst, whatever the clock readings are |
| RateLimit.Evicted | server/src/rate_limit.c:59-95 | a client loses its slot only to one that had none, in whose window every slot was in use and none had been refilled longer ago |
| RateLimit.Limiter.AcquireBucket | server/src/rate_limit.c:59-95 | the probe loop: own slot, first vacant one, or the stalest of the window, the last two with a fresh bucket whose worth RateLimit.NewcomerBurst states |
| RateLimit.Limiter.AllowRequest | server/src/rate_limit.c:99-138 | refines the request step on the table |
| Fairness.NextKeepsSum | balancer/src/selection.c:33-88 | one selection keeps the sum of current weights |
| Fairness.AtBalanced | balancer/src/selection.c:33-88 | from the all-zero state every current weight stays above minus the total weight |
| Fairness.UpperBound | balancer/src/selection.c:33-88 | and at most (k-1)(W-1) for k healthy backends of total weight W |
| Fairness.NextWithinCap | balancer/src/selection.c:33-88 | whichever backends are healthy, one selection keeps what any n of k backends hold together at or below half of W n (k-n) |
| Fairness.FullRound | balancer/src/selection.c:33-88 | after W selections each backend was chosen its weight many times and all weights are back at zero |
| Fairness.EveryWindowFair | balancer/src/selection.c:33-88 | so it is for any W consecutive selections |
| Selection.LoadBalancer.AddBackend | balancer/src/balancer.c:274-299 | a new healthy backend with current weight 0, refused when the table is full |
| Selection.LoadBalancer.PassiveRecovery | balancer/src/selection.c:12-31 | backends past the recovery interval become healthy |
| Selection.LoadBalancer.RoundRobinSelect | balancer/src/selection.c:33-88 | the loops choose the first backend of highest raised weight and charge it the total |
| Selection.LoadBalancer.MarkFailure | balancer/src/balancer.c:25-53 | counts a failure, unhealthy from the threshold on |
| Selection.LoadBalancer.MarkSuccess | balancer/src/balancer.c:55-66 | healthy again, no failures |
| Selection.OutByThree | balancer/src/balancer.c:25-66 | in every run without a due recovery a backend is out of rotation if and only if its last three reports or more were failures |
| Selection.BackIn | balancer/src/selection.c:12-31 | a backend that is out comes back, its failures forgotten, if and only if a success is reported or a selection comes 30 seconds or more after its last failure |
| Selection.OutNotSelected | balancer/src/selection.c:33-88 | a backend is returned only if it is in rotation or its last failure is 30 seconds old, and none is returned only when there is no such backend |
| Selection.RunKeepsSum | balancer/src/selection.c:33-88 | in every run with any health changes the current weights sum to 0 |
| Selection.RunSpread | balancer/src/selection.c:33-88 | so it is in every run from a fresh table, whatever fails and recovers |
| Selection.SelectionsPick | balancer/src/selection.c:33-88 | with health fixed the class follows the fair sequence, so its guarantees hold of the code's selections |
| Selection.NoOverflow | balancer/src/selection.c:33-88 | within the table and weight limits every current weight of every run with any health changes, even just raised or charged, fits an int |
| BytePump.Link.constructor | balancer/src/balancer.c:349-370 | a fresh link has nothing pending but its header |
| BytePump.NothingLost | balancer/src/balancer.c:553-575 | as long as no write fails the loop ends drained or waiting |
| BytePump.PushExact | balancer/src/balancer.c:553-575 | the loop writes until everything is out or a write takes nothing, and not once more; what went out is what the writes took; it waits exactly on a write that would block and has lost the socket exactly on one that fails or takes nothing |
| BytePump.Link.UpdateInterest | balancer/src/balancer.c:104-134 | each direction either reads or waits to write; a side is read only while nothing read from it waits |
| BytePump.Link.FlushClientToBackend | balancer/src/balancer.c:530-581 | header first, then payload, none lost, repeated or reordered, exactly as many bytes as the partial writes took; the link is lost exactly when a write failed |
| BytePump.Link.FlushBackendToClient | balancer/src/balancer.c:584-610 | the same backwards |
| BytePump.Link.ClientData | balancer/src/balancer.c:396-421 | a chunk is read only into an empty buffer; header plus bytes read equals bytes written plus bytes buffered; end of input stops reading but keeps the link |
| BytePump.Link.BackendData | balancer/src/balancer.c:424-451 | the same backwards |
| BytePump.Balancer.Accept | balancer/src/balancer.c:301-376 | a new link raises its backend's count, a failed one does not |
| BytePump.Balancer.Fetch | balancer/src/balancer.c:153-208 | epoll reports a socket only in a direction its interest mask asks for; taking such reports keeps the balancer sound, which is what the handlers rely on |
| BytePump.Balancer.Close | balancer/src/balancer.c:612-663 | the count drops once per link |
| BytePump.Balancer.OnClient | balancer/src/balancer.c:153-208 | every client-side event keeps conservation on all links and counts equal to open links, moves exactly the bytes the writes took, and closes exactly on failure or hang-up |
| BytePump.Balancer.OnBackend | balancer/src/balancer.c:153-208 | and so does every backend-side event |

## Left out

- Engine.Run: ends after an insert that ran out of page ids; of the operations that may follow it only searches are described.
- Pager.BufferPool.Release: asks that a caller that changed a page has marked it dirty before its last pin goes, which is what the engine's callers do; otherwise an eviction may drop the change.
- Pager.BufferPool.GetPage: page 0 is never requested, because 0 marks a free frame.
- Pager.BufferPool.LoadPage: a page inside the file that was never written reads as zeros, so which image a page that was never loaded starts from can depend on evictions of later pages; contents are tracked from the first load on.
- Reconcile.Store.Run: works on a map with writes that may fail rather than on the paged tree, so that any pattern of failures is covered.
- ReadSide.Connection.HandleData: the configured ceiling of the read buffer and the interim 100-continue response are not modelled; whether a connection is kept alive is a function of the request.
- WsSession.CutIndependent: speaks of one stretch without a flush; which replies a full write buffer refuses does depend on the flushes.
- Offload.Ownership: nothing is claimed after a race.  The order of a list is left open, except for the head of one that is being drained, and one round of a drain's loop is one step.
- CacheProtocol.CacheCoherent: nothing is claimed after a harmful step of a create, although an eviction or a later write may repair the entry.
- RateLimit.Limiter.AllowRequest: addresses of unknown families, which never compare equal, are not modelled.
- Page bytes, the slotted layout and the CRC of a page: a page is its entries, link and free count.
- Crash recovery, log replay and transaction undo: the source does not implement them.
- Partial writes of the log followed by an error.
- The database class keeps its pages in memory; the buffer pool is proved separately to be invisible to it.
- Concurrent checkpointing, which happens only at shutdown.
- Work stealing and priorities of the thread pool: any queued task may be taken next.
- Selection strategies other than weighted round robin, and the balancer's response-time averages.
- Sockets, epoll, TLS, gzip, static files, routing, authentication, metrics, configuration and the web front end.
- The order of a full-scan listing, which is bytewise on bare decimals.
