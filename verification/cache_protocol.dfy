/** The read-through todo cache as a concurrent protocol (api/src/todo_handlers.c over
    common/src/lru.c).

    Any number of GETs, creates, updates and deletes interleave.  Every call into the
    cache or the store is one atomic step (both run under their own locks); update and
    delete hold the write lock from their first store access to their last cache call.
    Evictions may happen at any time. */
module CacheProtocol {
  import opened Common

  type Id = nat
  type Json = string
  type Thread = nat

  /** Where a GET is, after a cache miss. */
  datatype Get =
    | Missed(key: Id)
    | Snapped(key: Id, gen: nat)
    | Read(key: Id, gen: nat, value: Json)

  datatype Change = Replace(value: Json) | Drop

  /** Where the holder of the write lock is. */
  datatype Writer =
    | Idle
    | Locked(key: Id, change: Change)
    | Found(key: Id, change: Change, existing: Json)
    | Deleted(key: Id, value: Json, existing: Json)
    | Inserted(key: Id, value: Json, existing: Json)
    | InsertFailed(key: Id, existing: Json)
    | Lost(key: Id, existing: Json)
    | Dropped(key: Id, existing: Json)
    | Done

  /** A create whose row is stored but whose cache seeding is still to come. */
  datatype Creating = Creating(key: Id, value: Json)

  datatype State = State(
    rows: map<Id, Json>,
    cache: map<Id, Json>,
    gen: nat,
    gets: map<Thread, Get>,
    writer: Writer,
    creating: map<Thread, Creating>,
    // ids handed out by the counter, including those of the rows found at start-up
    issued: set<Id>)

  datatype Action =
    // todo_get_handler
    | GetMiss(t: Thread, key: Id)
    | GetSnapshot(t: Thread)
    | GetSearch(t: Thread)
    | GetFill(t: Thread)
    // todo_update_handler and todo_delete_handler
    | Lock(key: Id, change: Change)
    | Search(owned: bool)
    | DeleteRow(ok: bool)
    | InsertRow(ok: bool)
    | PutBack(ok: bool)
    | Put
    | Invalidate
    | Unlock
    // todo_create_handler
    | CreateInsert(t: Thread, key: Id, value: Json)
    | CreateUndo(t: Thread, ok: bool)
    | CreatePut(t: Thread)
    // lru eviction
    | Evict(key: Id)

  /** Which steps can happen.  Clients may ask for any id at any time. */
  predicate Enabled(s: State, a: Action) {
    match a
    case GetMiss(t, key) => t !in s.gets && key !in s.cache
    case GetSnapshot(t) => t in s.gets && s.gets[t].Missed?
    case GetSearch(t) => t in s.gets && s.gets[t].Snapped?
    case GetFill(t) => t in s.gets && s.gets[t].Read?
    case Lock(key, change) => s.writer.Idle?
    case Search(owned) => s.writer.Locked?
    case DeleteRow(ok) => s.writer.Found? && (ok ==> s.writer.key in s.rows)
    case InsertRow(ok) => s.writer.Deleted? && (ok ==> s.writer.key !in s.rows)
    case PutBack(ok) => s.writer.InsertFailed? && (ok ==> s.writer.key !in s.rows)
    case Put => s.writer.Inserted?
    case Invalidate => s.writer.Lost? || s.writer.Dropped?
    case Unlock => s.writer.Done?
    case CreateInsert(t, key, value) => t !in s.creating && key !in s.issued
    case CreateUndo(t, ok) => t in s.creating && (ok ==> s.creating[t].key in s.rows)
    case CreatePut(t) => t in s.creating
    case Evict(key) => true
  }

  function Apply(s: State, a: Action): State
    requires Enabled(s, a)
  {
    match a
    case GetMiss(t, key) => s.(gets := s.gets[t := Missed(key)])
    case GetSnapshot(t) => s.(gets := s.gets[t := Snapped(s.gets[t].key, s.gen)])
    case GetSearch(t) =>
      var g := s.gets[t];
      if g.key in s.rows then s.(gets := s.gets[t := Read(g.key, g.gen, s.rows[g.key])])
      else s.(gets := s.gets - {t})
    case GetFill(t) =>
      var g := s.gets[t];
      var s' := s.(gets := s.gets - {t});
      if g.gen == s.gen then s'.(cache := s.cache[g.key := g.value]) else s'
    case Lock(key, change) => s.(writer := Locked(key, change))
    case Search(owned) =>
      var w := s.writer;
      if w.key in s.rows && owned then s.(writer := Found(w.key, w.change, s.rows[w.key]))
      else s.(writer := Done)
    case DeleteRow(ok) =>
      var w := s.writer;
      // db_delete fails without touching the row; update then gives up, delete goes on.
      if w.change.Drop? then
        s.(rows := if ok then s.rows - {w.key} else s.rows, writer := Dropped(w.key, w.existing))
      else if ok then
        s.(rows := s.rows - {w.key}, writer := Deleted(w.key, w.change.value, w.existing))
      else s.(writer := Done)
    case InsertRow(ok) =>
      var w := s.writer;
      if ok then s.(rows := s.rows[w.key := w.value], writer := Inserted(w.key, w.value, w.existing))
      else s.(writer := InsertFailed(w.key, w.existing))
    case PutBack(ok) =>
      var w := s.writer;
      if ok then s.(rows := s.rows[w.key := w.existing], writer := Done) else s.(writer := Lost(w.key, w.existing))
    case Put =>
      var w := s.writer;
      s.(gen := s.gen + 1, cache := s.cache[w.key := w.value], writer := Done)
    case Invalidate =>
      s.(gen := s.gen + 1, cache := s.cache - {s.writer.key}, writer := Done)
    case Unlock => s.(writer := Idle)
    case CreateInsert(t, key, value) =>
      s.(rows := s.rows[key := value], creating := s.creating[t := Creating(key, value)],
         issued := s.issued + {key})
    case CreateUndo(t, ok) =>
      // The result of this db_delete is not looked at.
      s.(rows := if ok then s.rows - {s.creating[t].key} else s.rows, creating := s.creating - {t})
    case CreatePut(t) =>
      var c := s.creating[t];
      s.(gen := s.gen + 1, cache := s.cache[c.key := c.value], creating := s.creating - {t})
    case Evict(key) => s.(cache := s.cache - {key})
  }

  /** At start-up: whatever rows are on disk, an empty cache, nothing in flight. */
  ghost predicate Initial(s: State) {
    s.cache == map[] && s.gets == map[] && s.writer == Idle && s.creating == map[] && s.rows.Keys <= s.issued
  }

  /** The coherence promise: every cached value is the stored row, and so is every value a
      GET may still put into the cache. */
  ghost predicate Coherent(s: State) {
    && (forall k :: k in s.cache ==> k in s.rows && s.cache[k] == s.rows[k])
    && (forall t :: t in s.gets && s.gets[t].Read? && s.gets[t].gen == s.gen
                    ==> s.gets[t].key in s.rows && s.gets[t].value == s.rows[s.gets[t].key])
  }

  /** The writer has begun to move the row of key k away from value v and has not yet
      brought the cache in line. */
  ghost predicate Moving(w: Writer, k: Id, v: Json) {
    && (w.Deleted? || w.Inserted? || w.InsertFailed? || w.Lost? || w.Dropped?)
    && w.key == k && w.existing == v
  }

  /** v is the stored row of k, or the row the write in progress is replacing. */
  ghost predicate Current(s: State, k: Id, v: Json) {
    (k in s.rows && s.rows[k] == v) || Moving(s.writer, k, v)
  }

  /** A GET holds the row of k and would still be allowed to cache it. */
  ghost predicate FillOf(s: State, t: Thread, k: Id) {
    t in s.gets && s.gets[t].Read? && s.gets[t].gen == s.gen && s.gets[t].key == k
  }

  /** The two steps of a create that can go wrong, both outside the write lock: seeding the
      cache with a row that has since changed, and undoing a row that somebody has read. */
  ghost predicate Harmful(s: State, a: Action)
    requires Enabled(s, a)
  {
    match a
    case CreatePut(t) => !Current(s, s.creating[t].key, s.creating[t].value)
    case CreateUndo(t, ok) =>
      var k := s.creating[t].key;
      && ok
      && (|| (k in s.cache && !Moving(s.writer, k, s.cache[k]))
          || (exists u :: FillOf(s, u, k) && !Moving(s.writer, k, s.gets[u].value))
          || (s.writer.Inserted? && s.writer.key == k))
    case _ => false
  }

  ghost predicate BeingCreated(s: State, k: Id) {
    exists t :: t in s.creating && s.creating[t].key == k
  }

  /** A request looks up an id whose create has not returned yet. */
  ghost predicate Early(s: State, a: Action)
    requires Enabled(s, a)
  {
    || (a.GetSearch? && BeingCreated(s, s.gets[a.t].key))
    || (a.Search? && BeingCreated(s, s.writer.key))
  }

  /** What is asked of the steps of a run: nothing, that none is harmful, or that clients
      look up an id only after its create has returned. */
  datatype Rule = Any | Harmless | Patient

  ghost predicate Allowed(s: State, a: Action, rule: Rule) {
    && Enabled(s, a)
    && match rule
       case Any => true
       case Harmless => !Harmful(s, a)
       case Patient => !Early(s, a)
  }

  /** A run: each action allowed where it is taken. */
  ghost predicate Runs(s: State, run: seq<Action>, rule: Rule, end: State)
    decreases |run|
  {
    if |run| == 0 then end == s
    else Allowed(s, run[0], rule) && Runs(Apply(s, run[0]), run[1..], rule, end)
  }

  ghost predicate CacheOk(s: State) {
    forall k :: k in s.cache ==> Current(s, k, s.cache[k])
  }

  ghost predicate FillsOk(s: State) {
    forall t :: t in s.gets && s.gets[t].Read? && s.gets[t].gen == s.gen
                ==> Current(s, s.gets[t].key, s.gets[t].value)
  }

  ghost predicate GensOk(s: State) {
    forall t :: t in s.gets && !s.gets[t].Missed? ==> s.gets[t].gen <= s.gen
  }

  ghost predicate WriterOk(s: State) {
    match s.writer
    case Idle => true
    case Locked(k, _) => true
    case Found(k, _, v) => k in s.issued && (k in s.rows ==> s.rows[k] == v)
    case Deleted(k, _, _) => k in s.issued && k !in s.rows
    case Inserted(k, v, _) => k in s.issued && k in s.rows && s.rows[k] == v
    case InsertFailed(k, _) => k in s.issued && k !in s.rows
    case Lost(k, _) => k in s.issued && k !in s.rows
    case Dropped(k, v) => k in s.issued && (k in s.rows ==> s.rows[k] == v)
    case Done => true
  }

  ghost predicate IdsOk(s: State) {
    s.rows.Keys <= s.issued && forall t :: t in s.creating ==> s.creating[t].key in s.issued
  }

  ghost predicate Inv(s: State) {
    CacheOk(s) && FillsOk(s) && GensOk(s) && WriterOk(s) && IdsOk(s)
  }

  lemma {:induction false} GetStepKeeps(s: State, a: Action)
    requires Inv(s) && Enabled(s, a)
    requires a.GetMiss? || a.GetSnapshot? || a.GetSearch?
    ensures Inv(Apply(s, a))
  {
  }

  lemma {:induction false} FillStepKeeps(s: State, a: Action)
    requires Inv(s) && Enabled(s, a) && (a.GetFill? || a.Evict?)
    ensures Inv(Apply(s, a))
  {
  }

  lemma {:induction false} DeleteRowKeeps(s: State, a: Action)
    requires Inv(s) && Enabled(s, a) && a.DeleteRow?
    ensures Inv(Apply(s, a))
  {
  }

  lemma {:induction false} InsertRowKeeps(s: State, a: Action)
    requires Inv(s) && Enabled(s, a) && (a.InsertRow? || a.PutBack?)
    ensures Inv(Apply(s, a))
  {
  }

  lemma {:induction false} LockStepKeeps(s: State, a: Action)
    requires Inv(s) && Enabled(s, a)
    requires a.Lock? || a.Search? || a.Unlock?
    ensures Inv(Apply(s, a))
  {
  }

  /** The two cache calls of a writer: bumping the generation outdates every fill that read
      the store before the change. */
  lemma {:induction false} CacheStepKeeps(s: State, a: Action)
    requires Inv(s) && Enabled(s, a) && (a.Put? || a.Invalidate?)
    ensures Inv(Apply(s, a))
  {
  }

  lemma {:induction false} CreateInsertKeeps(s: State, a: Action)
    requires Inv(s) && Enabled(s, a) && a.CreateInsert?
    ensures Inv(Apply(s, a))
  {
  }

  /** Seeding keeps the invariant exactly when the row still holds the created value. */
  lemma {:induction false} CreatePutExact(s: State, a: Action)
    requires Inv(s) && Enabled(s, a) && a.CreatePut?
    ensures Inv(Apply(s, a)) <==> !Harmful(s, a)
  {
    var c := s.creating[a.t];
    var s' := Apply(s, a);
    assert s'.cache[c.key] == c.value;
    assert Current(s', c.key, c.value) <==> Current(s, c.key, c.value);
  }

  /** Undoing keeps the invariant exactly when nobody has the row. */
  lemma {:induction false} CreateUndoExact(s: State, a: Action)
    requires Inv(s) && Enabled(s, a) && a.CreateUndo?
    ensures Inv(Apply(s, a)) <==> !Harmful(s, a)
  {
    var k := s.creating[a.t].key;
    var s' := Apply(s, a);
    assert a.ok && k in s.cache ==> (Current(s', k, s'.cache[k]) <==> Moving(s.writer, k, s.cache[k]));
    forall u | a.ok && FillOf(s, u, k)
      ensures Current(s', k, s'.gets[u].value) <==> Moving(s.writer, k, s.gets[u].value)
    {
    }
  }

  /** Every step that is not harmful keeps the invariant, whatever ids clients ask for. */
  lemma {:induction false} StepKeeps(s: State, a: Action)
    requires Inv(s) && Enabled(s, a) && !Harmful(s, a)
    ensures Inv(Apply(s, a))
  {
    hide Inv, Apply, Harmful;
    match a
    case GetMiss(_, _) => GetStepKeeps(s, a);
    case GetSnapshot(_) => GetStepKeeps(s, a);
    case GetSearch(_) => GetStepKeeps(s, a);
    case GetFill(_) => FillStepKeeps(s, a);
    case Evict(_) => FillStepKeeps(s, a);
    case Lock(_, _) => LockStepKeeps(s, a);
    case Search(_) => LockStepKeeps(s, a);
    case DeleteRow(_) => DeleteRowKeeps(s, a);
    case InsertRow(_) => InsertRowKeeps(s, a);
    case PutBack(_) => InsertRowKeeps(s, a);
    case Unlock => LockStepKeeps(s, a);
    case Put => CacheStepKeeps(s, a);
    case Invalidate => CacheStepKeeps(s, a);
    case CreateInsert(_, _, _) => CreateInsertKeeps(s, a);
    case CreateUndo(_, _) => CreateUndoExact(s, a);
    case CreatePut(_) => CreatePutExact(s, a);
  }

  lemma {:induction false} RunKeeps(s: State, run: seq<Action>, end: State)
    requires Inv(s) && Runs(s, run, Harmless, end)
    ensures Inv(end)
    decreases |run|
  {
    hide Inv, Apply, Enabled, Harmful;
    if |run| > 0 {
      StepKeeps(s, run[0]);
      RunKeeps(Apply(s, run[0]), run[1..], end);
    }
  }

  /** Coherence of every interleaving without a harmful step: a cached value, and a value a
      GET may still put into the cache, is the stored row or the row that the write in
      progress is replacing; once the write lock is free, it is the stored row. */
  lemma {:induction false} CacheCoherent(s: State, run: seq<Action>, end: State)
    requires Initial(s) && Runs(s, run, Harmless, end)
    ensures CacheOk(end) && FillsOk(end)
    ensures end.writer.Idle? ==> Coherent(end)
  {
    assert Inv(s);
    RunKeeps(s, run, end);
  }

  // ---- when clients wait for a create to return ------------------------------------------

  /** An id still being created is private to its creator. */
  ghost predicate Private(s: State, t: Thread)
    requires t in s.creating
  {
    var c := s.creating[t];
    && c.key in s.rows && s.rows[c.key] == c.value && c.key !in s.cache
    && (forall u :: !FillOf(s, u, c.key))
    && (s.writer.Idle? || s.writer.Done? || s.writer.Locked? || s.writer.key != c.key)
  }

  ghost predicate AllPrivate(s: State) {
    && (forall t :: t in s.creating ==> Private(s, t))
    && (forall t, u :: t in s.creating && u in s.creating && t != u ==> s.creating[t].key != s.creating[u].key)
  }

  /** A step of somebody else leaves an id under creation private. */
  lemma {:induction false} PrivateStays(s: State, a: Action, t: Thread)
    requires GensOk(s) && Enabled(s, a) && !Early(s, a) && t in s.creating && Private(s, t)
    requires a.CreatePut? || a.CreateUndo? ==> s.creating[a.t].key != s.creating[t].key
    requires a.CreateInsert? ==> a.key != s.creating[t].key
    ensures t in Apply(s, a).creating && Apply(s, a).creating[t] == s.creating[t] && Private(Apply(s, a), t)
  {
    var k := s.creating[t].key;
    assert BeingCreated(s, k);
    assert a.GetFill? ==> !FillOf(s, a.t, k);
    forall u ensures !FillOf(Apply(s, a), u, k) {
      FillStays(s, a, u, k);
    }
  }

  /** Only a GET that looks k up comes to hold its row. */
  lemma {:induction false} FillStays(s: State, a: Action, u: Thread, k: Id)
    requires Enabled(s, a) && !FillOf(s, u, k)
    requires !(a.GetSearch? && s.gets[a.t].key == k)
    requires GensOk(s)
    ensures !FillOf(Apply(s, a), u, k)
  {
  }

  /** A freshly issued id is private. */
  lemma {:induction false} NewIsPrivate(s: State, a: Action)
    requires Inv(s) && Enabled(s, a) && a.CreateInsert?
    ensures Private(Apply(s, a), a.t)
  {
    var s' := Apply(s, a);
    forall u ensures !FillOf(s', u, a.key) {
      assert FillOf(s, u, a.key) ==> Current(s, a.key, s.gets[u].value);
    }
  }

  lemma {:induction false} PatientStep(s: State, a: Action)
    requires Inv(s) && AllPrivate(s) && Enabled(s, a) && !Early(s, a)
    ensures !Harmful(s, a) && AllPrivate(Apply(s, a))
  {
    hide CacheOk, FillsOk, GensOk, WriterOk, Early, Private;
    var s' := Apply(s, a);
    forall t | t in s'.creating ensures Private(s', t) {
      if a.CreateInsert? && a.t == t {
        NewIsPrivate(s, a);
      } else {
        PrivateStays(s, a, t);
      }
    }
    if a.CreatePut? || a.CreateUndo? {
      PrivateIsSafe(s, a);
    }
  }

  lemma {:induction false} PrivateIsSafe(s: State, a: Action)
    requires Enabled(s, a) && (a.CreatePut? || a.CreateUndo?) && Private(s, a.t)
    ensures !Harmful(s, a)
  {
  }

  /** If clients look up an id only after its create has returned, no step is harmful. */
  lemma {:induction false} PatientIsHarmless(s: State, run: seq<Action>, end: State)
    requires Inv(s) && AllPrivate(s) && Runs(s, run, Patient, end)
    ensures Runs(s, run, Harmless, end)
    decreases |run|
  {
    hide Inv, AllPrivate, Apply, Enabled, Harmful, Early;
    if |run| > 0 {
      PatientStep(s, run[0]);
      StepKeeps(s, run[0]);
      PatientIsHarmless(Apply(s, run[0]), run[1..], end);
    }
  }

  /** Coherence when clients wait for the create, also of requests for ids that do not
      exist. */
  lemma {:induction false} PatientCoherent(s: State, run: seq<Action>, end: State)
    requires Initial(s) && Runs(s, run, Patient, end)
    ensures CacheOk(end) && FillsOk(end)
    ensures end.writer.Idle? ==> Coherent(end)
  {
    assert Inv(s) && AllPrivate(s);
    PatientIsHarmless(s, run, end);
    CacheCoherent(s, run, end);
  }

  // ---- when they do not ------------------------------------------------------------------

  /** The exact condition for seeding: with the lock free, the cache is coherent after it if
      and only if the row still holds the created value. */
  lemma {:induction false} SeedingExact(s: State, run: seq<Action>, end: State, t: Thread)
    requires Initial(s) && Runs(s, run, Harmless, end) && t in end.creating && end.writer.Idle?
    ensures var c := end.creating[t];
            Coherent(Apply(end, CreatePut(t))) <==> c.key in end.rows && end.rows[c.key] == c.value
  {
    assert Inv(s);
    RunKeeps(s, run, end);
    var c := end.creating[t];
    assert Apply(end, CreatePut(t)).cache[c.key] == c.value;
  }

  /** The exact condition for undoing: with the lock free, the cache is coherent after it if
      and only if it failed, or the row is neither cached nor held by a GET that may still
      cache it. */
  lemma {:induction false} UndoExact(s: State, run: seq<Action>, end: State, t: Thread, ok: bool)
    requires Initial(s) && Runs(s, run, Harmless, end) && end.writer.Idle? && Enabled(end, CreateUndo(t, ok))
    ensures var k := end.creating[t].key;
            Coherent(Apply(end, CreateUndo(t, ok))) <==> !ok || (k !in end.cache && forall u :: !FillOf(end, u, k))
  {
    assert Inv(s);
    RunKeeps(s, run, end);
    var k := end.creating[t].key;
    var s' := Apply(end, CreateUndo(t, ok));
    if ok {
      forall u | FillOf(end, u, k) ensures !Coherent(s') {
        assert u in s'.gets && s'.gets[u] == end.gets[u];
      }
      if k !in end.cache && forall u :: !FillOf(end, u, k) {
        forall t | t in s'.gets && s'.gets[t].Read? && s'.gets[t].gen == s'.gen
          ensures s'.gets[t].key in s'.rows && s'.gets[t].value == s'.rows[s'.gets[t].key]
        {
          assert !FillOf(end, t, k);
        }
      }
    }
  }

  /** A client that updates an id before its create has returned: the create's late seeding
      leaves the old value in the cache for good. */
  lemma {:induction false} EarlyUseGoesStale(s: State) returns (run: seq<Action>, end: State)
    requires s == State(map[], map[], 0, map[], Idle, map[], {})
    ensures Initial(s) && Runs(s, run, Any, end) && end.writer.Idle? && end.gets == map[] && !Coherent(end)
  {
    hide Runs;
    var s1 := Apply(s, CreateInsert(0, 7, "a"));
    var s2 := Apply(s1, Lock(7, Replace("b")));
    var s3 := Apply(s2, Search(true));
    var s4 := Apply(s3, DeleteRow(true));
    var s5 := Apply(s4, InsertRow(true));
    var s6 := Apply(s5, Put);
    var s7 := Apply(s6, Unlock);
    end := Apply(s7, CreatePut(0));
    assert end.cache[7] == "a" && end.rows[7] == "b";
    RunsNil(end);
    run := [];
    RunsCons(s7, CreatePut(0), run, end, end);
    run := [CreatePut(0)] + run;
    RunsCons(s6, Unlock, run, s7, end);
    run := [Unlock] + run;
    RunsCons(s5, Put, run, s6, end);
    run := [Put] + run;
    RunsCons(s4, InsertRow(true), run, s5, end);
    run := [InsertRow(true)] + run;
    RunsCons(s3, DeleteRow(true), run, s4, end);
    run := [DeleteRow(true)] + run;
    RunsCons(s2, Search(true), run, s3, end);
    run := [Search(true)] + run;
    RunsCons(s1, Lock(7, Replace("b")), run, s2, end);
    run := [Lock(7, Replace("b"))] + run;
    RunsCons(s, CreateInsert(0, 7, "a"), run, s1, end);
    run := [CreateInsert(0, 7, "a")] + run;
  }

  lemma {:induction false} RunsNil(s: State)
    ensures Runs(s, [], Any, s)
  {
  }

  lemma {:induction false} RunsCons(s: State, a: Action, rest: seq<Action>, s': State, end: State)
    requires Enabled(s, a) && s' == Apply(s, a) && Runs(s', rest, Any, end)
    ensures Runs(s, [a] + rest, Any, end)
  {
    hide Enabled, Apply;
    assert ([a] + rest)[1..] == rest;
  }

  // ---- what a write leaves behind ----------------------------------------------------------

  /** The id is used up, has no row, and no write in progress is about to store one. */
  ghost predicate Gone(s: State, k: Id) {
    && k in s.issued && k !in s.rows
    && !((s.writer.Deleted? || s.writer.InsertFailed? || s.writer.Lost?) && s.writer.key == k)
  }

  lemma {:induction false} GoneStep(s: State, a: Action, k: Id)
    requires Gone(s, k) && Enabled(s, a)
    ensures Gone(Apply(s, a), k)
  {
  }

  /** Ids are not handed out twice, so a row that is gone stays gone, whatever happens. */
  lemma {:induction false} GoneForGood(s: State, run: seq<Action>, rule: Rule, end: State, k: Id)
    requires Gone(s, k) && Runs(s, run, rule, end)
    ensures Gone(end, k)
    decreases |run|
  {
    hide Gone, Enabled, Apply, Harmful, Early;
    if |run| > 0 {
      GoneStep(s, run[0], k);
      GoneForGood(Apply(s, run[0]), run[1..], rule, end, k);
    }
  }

  /** A delete is final: from the store at once, and from the cache from its last cache call on,
      in every state any harmless run reaches; a GET that looks the id up finds nothing. */
  lemma {:induction false} DropIsFinal(s: State, before: seq<Action>, mid: State,
                                       run: seq<Action>, end: State, t: Thread)
    requires Initial(s) && Runs(s, before, Harmless, mid) && mid.writer.Found? && mid.writer.change.Drop?
    requires Enabled(mid, DeleteRow(true)) && Runs(Apply(mid, DeleteRow(true)), run, Harmless, end)
    ensures var k := mid.writer.key;
            && k !in end.rows
            && (!(end.writer.Dropped? && end.writer.key == k) ==> k !in end.cache)
            && (Enabled(end, GetSearch(t)) && end.gets[t].key == k ==> t !in Apply(end, GetSearch(t)).gets)
  {
    hide Runs, Harmful;
    var k, s' := mid.writer.key, Apply(mid, DeleteRow(true));
    assert Inv(s);
    RunKeeps(s, before, mid);
    assert Gone(s', k);
    GoneForGood(s', run, Harmless, end, k);
    DeleteRowKeeps(mid, DeleteRow(true));
    RunKeeps(s', run, end);
    if k in end.cache { assert Current(end, k, end.cache[k]); }
  }

  /** So is the undoing of a create. */
  lemma {:induction false} UndoIsFinal(s: State, before: seq<Action>, mid: State, t: Thread,
                                       run: seq<Action>, end: State)
    requires Initial(s) && Runs(s, before, Harmless, mid) && Enabled(mid, CreateUndo(t, true))
    requires Runs(Apply(mid, CreateUndo(t, true)), run, Any, end)
    ensures mid.creating[t].key !in end.rows
  {
    hide Runs, Harmful;
    assert Inv(s);
    RunKeeps(s, before, mid);
    assert Gone(Apply(mid, CreateUndo(t, true)), mid.creating[t].key);
    GoneForGood(Apply(mid, CreateUndo(t, true)), run, Any, end, mid.creating[t].key);
  }

  /** The row of k is v, its create has returned, and no write in progress is going to touch it. */
  ghost predicate Settled(s: State, k: Id, v: Json) {
    && k in s.rows && s.rows[k] == v && k in s.issued && !BeingCreated(s, k)
    && (s.writer.Idle? || s.writer.Done? || s.writer.Inserted? || s.writer.key != k)
  }

  ghost predicate NoLock(run: seq<Action>, k: Id) {
    forall i :: 0 <= i < |run| ==> !(run[i].Lock? && run[i].key == k)
  }

  /** An id whose create has returned is not created again. */
  lemma {:induction false} CreatedOnce(s: State, a: Action, k: Id)
    requires Enabled(s, a) && k in s.issued && !BeingCreated(s, k)
    ensures k in Apply(s, a).issued && !BeingCreated(Apply(s, a), k)
  {
    var s' := Apply(s, a);
    forall t | t in s'.creating ensures s'.creating[t].key != k {
      assert t in s.creating ==> s.creating[t].key != k || !BeingCreated(s, k);
    }
  }

  lemma {:induction false} SettledStep(s: State, a: Action, k: Id, v: Json)
    requires Settled(s, k, v) && Enabled(s, a) && !(a.Lock? && a.key == k)
    ensures Settled(Apply(s, a), k, v)
  {
    CreatedOnce(s, a, k);
    assert a.CreateUndo? ==> s.creating[a.t].key != k || BeingCreated(s, k);
    hide BeingCreated;
  }

  /** Nothing touches a row until the next write to it takes the lock. */
  lemma {:induction false} RowStays(s: State, run: seq<Action>, rule: Rule, end: State, k: Id, v: Json)
    requires Settled(s, k, v) && Runs(s, run, rule, end) && NoLock(run, k)
    ensures Settled(end, k, v)
    decreases |run|
  {
    hide Settled, Enabled, Apply, Harmful, Early;
    if |run| > 0 {
      assert NoLock(run[1..], k);
      SettledStep(s, run[0], k, v);
      RowStays(Apply(s, run[0]), run[1..], rule, end, k, v);
    }
  }

  /** A successful update stays: until the next write to its id takes the lock the row is the new
      value, and once the cache call is made whatever is cached for the id is that value too. */
  lemma {:induction false} UpdateStays(s: State, before: seq<Action>, mid: State, run: seq<Action>, end: State)
    requires Initial(s) && Runs(s, before, Harmless, mid) && Enabled(mid, InsertRow(true))
    requires !BeingCreated(mid, mid.writer.key)
    requires Runs(Apply(mid, InsertRow(true)), run, Harmless, end) && NoLock(run, mid.writer.key)
    ensures var k, v := mid.writer.key, mid.writer.value;
            && k in end.rows && end.rows[k] == v
            && (!(end.writer.Inserted? && end.writer.key == k) && k in end.cache ==> end.cache[k] == v)
  {
    hide Runs, Harmful;
    var k, v, s' := mid.writer.key, mid.writer.value, Apply(mid, InsertRow(true));
    assert Inv(s);
    RunKeeps(s, before, mid);
    assert Settled(s', k, v) by { assert s'.creating == mid.creating; }
    RowStays(s', run, Harmless, end, k, v);
    InsertRowKeeps(mid, InsertRow(true));
    RunKeeps(s', run, end);
    if k in end.cache { assert Current(end, k, end.cache[k]); }
  }

  // ---- a whole write section ---------------------------------------------------------------

  ghost function RowIn(s: State, k: Id): Option<Json> {
    if k in s.rows then Some(s.rows[k]) else None
  }

  /** What a write makes of a row, by what the calls of its section answered. */
  ghost function Outcome(row: Option<Json>, change: Change, calls: seq<Action>): Option<Json> {
    if row.None? || Search(false) in calls || DeleteRow(false) in calls then row
    else if change.Drop? then None
    else if InsertRow(true) in calls then Some(change.value)
    else if PutBack(true) in calls then row
    else None
  }

  ghost predicate Undecided(calls: seq<Action>) {
    Search(false) !in calls && DeleteRow(false) !in calls && InsertRow(true) !in calls && PutBack(true) !in calls
  }

  /** Where a section on k that found `row` at its start is, given the calls made since. */
  ghost predicate Underway(s: State, k: Id, change: Change, row: Option<Json>, calls: seq<Action>) {
    && k in s.issued && !BeingCreated(s, k)
    && match s.writer
       case Idle => false
       case Locked(key, c) => key == k && c == change && RowIn(s, k) == row && Undecided(calls)
       case Found(key, c, v) => key == k && c == change && RowIn(s, k) == row == Some(v) && Undecided(calls)
       case Deleted(key, v, was) =>
         key == k && change == Replace(v) && row == Some(was) && RowIn(s, k) == None && Undecided(calls)
       case InsertFailed(key, was) =>
         key == k && change.Replace? && row == Some(was) && RowIn(s, k) == None && Undecided(calls)
       case _ => RowIn(s, k) == Outcome(row, change, calls)
  }

  /** One more call decides at most what it says. */
  lemma {:induction false} OneMoreCall(row: Option<Json>, change: Change, calls: seq<Action>, a: Action)
    ensures var stays := a == Search(false) || a == DeleteRow(false);
            var decides := stays || a == InsertRow(true) || a == PutBack(true);
            && (!decides ==> Outcome(row, change, calls + [a]) == Outcome(row, change, calls))
            && (!decides && Undecided(calls) ==> Undecided(calls + [a]))
            && (Undecided(calls) ==>
                  Outcome(row, change, calls + [a]) ==
                  if row.None? || stays then row
                  else if change.Drop? then None
                  else if a == InsertRow(true) then Some(change.value)
                  else if a == PutBack(true) then row
                  else None)
  {
    assert forall x :: x in calls + [a] <==> x in calls || x == a;
  }

  predicate OfWriter(a: Action) {
    a.Search? || a.DeleteRow? || a.InsertRow? || a.PutBack? || a.Put? || a.Invalidate? || a.Unlock?
  }

  /** A step of anybody else leaves the section and its row alone. */
  lemma {:induction false} BesideStep(s: State, a: Action, k: Id)
    requires Enabled(s, a) && !OfWriter(a) && !s.writer.Idle? && k in s.issued && !BeingCreated(s, k)
    ensures Apply(s, a).writer == s.writer && RowIn(Apply(s, a), k) == RowIn(s, k)
  {
    assert a.CreateUndo? ==> s.creating[a.t].key != k || BeingCreated(s, k);
  }

  lemma {:induction false} SectionStep(s: State, a: Action, k: Id, change: Change, row: Option<Json>,
                                       calls: seq<Action>)
    requires Underway(s, k, change, row, calls) && Enabled(s, a) && !a.Unlock?
    requires s.writer.Inserted? || s.writer.Lost? || s.writer.Dropped? ==> s.writer.key == k
    ensures Underway(Apply(s, a), k, change, row, calls + [a])
    ensures var w := Apply(s, a).writer; w.Inserted? || w.Lost? || w.Dropped? ==> w.key == k
  {
    CreatedOnce(s, a, k);
    OneMoreCall(row, change, calls, a);
    hide BeingCreated, Outcome, Undecided;
    if !OfWriter(a) {
      hide Apply, Enabled;
      BesideStep(s, a, k);
    }
  }

  lemma {:induction false} SectionRuns(s: State, run: seq<Action>, rule: Rule, end: State,
                                       k: Id, change: Change, row: Option<Json>, calls: seq<Action>)
    requires Underway(s, k, change, row, calls) && Runs(s, run, rule, end) && Unlock !in run
    requires s.writer.Inserted? || s.writer.Lost? || s.writer.Dropped? ==> s.writer.key == k
    ensures Underway(end, k, change, row, calls + run)
    decreases |run|
  {
    hide Underway, Enabled, Apply, Harmful, Early;
    if |run| == 0 {
      assert calls + run == calls;
    } else {
      SectionStep(s, run[0], k, change, row, calls);
      SectionRuns(Apply(s, run[0]), run[1..], rule, end, k, change, row, calls + [run[0]]);
      assert calls + [run[0]] + run[1..] == calls + run;
    }
  }

  /** Whatever runs beside it, a write section makes of its row exactly this: a missing row, one
      that is not the caller's and one that could not be deleted stay; a dropped row goes; an
      updated row is the new value if that could be inserted, the old one if that could be put
      back, and otherwise lost. */
  lemma {:induction false} SectionOutcome(s: State, run: seq<Action>, rule: Rule, end: State)
    requires s.writer.Locked? && s.writer.key in s.issued && !BeingCreated(s, s.writer.key)
    requires Runs(s, run, rule, end) && Unlock !in run && end.writer.Done?
    ensures var k := s.writer.key; RowIn(end, k) == Outcome(RowIn(s, k), s.writer.change, run)
  {
    hide Runs;
    SectionRuns(s, run, rule, end, s.writer.key, s.writer.change, RowIn(s, s.writer.key), []);
    assert [] + run == run;
  }

  /** Which cache calls a section has made, by the calls made so far. */
  ghost predicate CallsFit(w: Writer, change: Change, calls: seq<Action>) {
    var ins, gone := InsertRow(true) in calls, PutBack(false) in calls;
    var del := DeleteRow(true) in calls || DeleteRow(false) in calls;
    var open := Put !in calls && Invalidate !in calls;
    match w
    case Idle => false
    case Locked(_, c) => c == change && open && !ins && !gone && !del
    case Found(_, c, _) => c == change && open && !ins && !gone && !del
    case Deleted(_, _, _) => change.Replace? && open && !ins && !gone
    case InsertFailed(_, _) => change.Replace? && open && !ins && !gone
    case Inserted(_, _, _) => change.Replace? && open && ins && !gone
    case Lost(_, _) => change.Replace? && open && !ins && gone
    case Dropped(_, _) => change.Drop? && open && !ins && !gone && del
    case Done => (Put in calls <==> ins) && (Invalidate in calls <==> (change.Drop? && del) || gone)
  }

  lemma {:induction false} CallsStep(s: State, a: Action, change: Change, calls: seq<Action>)
    requires CallsFit(s.writer, change, calls) && Enabled(s, a) && !a.Unlock?
    ensures CallsFit(Apply(s, a).writer, change, calls + [a])
  {
    var more := calls + [a];
    assert forall x :: x in more <==> x in calls || x == a;
    if OfWriter(a) {
      assert a.Search? || a.DeleteRow? || a.InsertRow? || a.PutBack? || a.Put? || a.Invalidate?;
    } else {
      hide Apply, Enabled;
      NotOfWriter(s, a);
    }
  }

  lemma {:induction false} NotOfWriter(s: State, a: Action)
    requires Enabled(s, a) && !OfWriter(a) && !s.writer.Idle?
    ensures Apply(s, a).writer == s.writer
  {
  }

  lemma {:induction false} CallsRun(s: State, run: seq<Action>, rule: Rule, end: State, change: Change,
                                    calls: seq<Action>)
    requires CallsFit(s.writer, change, calls) && Runs(s, run, rule, end) && Unlock !in run
    ensures CallsFit(end.writer, change, calls + run)
    decreases |run|
  {
    hide CallsFit, Enabled, Apply, Harmful, Early;
    if |run| == 0 {
      assert calls + run == calls;
    } else {
      CallsStep(s, run[0], change, calls);
      CallsRun(Apply(s, run[0]), run[1..], rule, end, change, calls + [run[0]]);
      assert calls + [run[0]] + run[1..] == calls + run;
    }
  }

  /** A section puts its value into the cache exactly when it was inserted, and takes the id out of
      it exactly when a delete was tried or a row could not be put back; any other section leaves
      the cache alone. */
  lemma {:induction false} SectionCacheCalls(s: State, run: seq<Action>, rule: Rule, end: State)
    requires s.writer.Locked? && Runs(s, run, rule, end) && Unlock !in run && end.writer.Done?
    ensures Put in run <==> InsertRow(true) in run
    ensures Invalidate in run <==>
              (s.writer.change.Drop? && (DeleteRow(true) in run || DeleteRow(false) in run)) || PutBack(false) in run
  {
    hide Runs;
    CallsRun(s, run, rule, end, s.writer.change, []);
    assert [] + run == run;
  }

  /** How many more steps the holder of the lock takes at most. */
  function StepsLeft(w: Writer): nat {
    match w
    case Idle => 0
    case Done => 1
    case Inserted(_, _, _) => 2
    case Lost(_, _) => 2
    case Dropped(_, _) => 2
    case InsertFailed(_, _) => 3
    case Deleted(_, _, _) => 4
    case Found(_, _, _) => 5
    case Locked(_, _) => 6
  }

  /** The holder of the lock can always go on, whether or not its calls succeed, nobody else moves
      it, and after six steps at most the lock is free. */
  lemma {:induction false} LockReleased(s: State, a: Action)
    requires Enabled(s, a)
    ensures !s.writer.Idle? ==> exists w: Action :: OfWriter(w) && Enabled(s, w)
    ensures OfWriter(a) ==> StepsLeft(Apply(s, a).writer) < StepsLeft(s.writer) <= 6
    ensures !OfWriter(a) && !a.Lock? ==> Apply(s, a).writer == s.writer
    ensures StepsLeft(s.writer) == 0 <==> s.writer.Idle?
  {
    var w := match s.writer
      case Idle => a
      case Locked(_, _) => Search(false)
      case Found(_, _, _) => DeleteRow(false)
      case Deleted(_, _, _) => InsertRow(false)
      case InsertFailed(_, _) => PutBack(false)
      case Inserted(_, _, _) => Put
      case Lost(_, _) => Invalidate
      case Dropped(_, _) => Invalidate
      case Done => Unlock;
    assert !s.writer.Idle? ==> OfWriter(w) && Enabled(s, w);
  }

  // ---- what a reader gets ------------------------------------------------------------------

  /** The value a GET has read was the stored row at some moment since the GET began. */
  lemma {:induction false} ReadWasStored(s: State, run: seq<Action>, rule: Rule, end: State, t: Thread)
    returns (i: nat, mid: State)
    requires t !in s.gets || !s.gets[t].Read?
    requires Runs(s, run, rule, end) && t in end.gets && end.gets[t].Read?
    ensures i <= |run| && Runs(s, run[..i], rule, mid)
    ensures var g := end.gets[t]; g.key in mid.rows && mid.rows[g.key] == g.value
    decreases |run|
  {
    hide Enabled, Apply, Harmful, Early;
    var s' := Apply(s, run[0]);
    if t in s'.gets && s'.gets[t].Read? && s'.gets[t] == end.gets[t] {
      i, mid := 0, s;
      ReadFresh(s, run[0], t);
    } else if t in s'.gets && s'.gets[t].Read? {
      i, mid := ReadAgain(s', run[1..], rule, end, t);
      i := i + 1;
      assert run[..i][1..] == run[1..][..i - 1];
    } else {
      i, mid := ReadWasStored(s', run[1..], rule, end, t);
      i := i + 1;
      assert run[..i][1..] == run[1..][..i - 1];
    }
  }

  lemma {:induction false} ReadFresh(s: State, a: Action, t: Thread)
    requires Enabled(s, a) && (t !in s.gets || !s.gets[t].Read?)
    requires t in Apply(s, a).gets && Apply(s, a).gets[t].Read?
    ensures var g := Apply(s, a).gets[t]; g.key in s.rows && s.rows[g.key] == g.value
  {
  }

  /** A read that is still pending is answered, and t begins anew. */
  lemma {:induction false} ReadAgain(s: State, run: seq<Action>, rule: Rule, end: State, t: Thread)
    returns (i: nat, mid: State)
    requires t in s.gets && s.gets[t].Read? && Runs(s, run, rule, end)
    requires t in end.gets && end.gets[t].Read? && end.gets[t] != s.gets[t]
    ensures i <= |run| && Runs(s, run[..i], rule, mid)
    ensures var g := end.gets[t]; g.key in mid.rows && mid.rows[g.key] == g.value
    decreases |run|
  {
    hide Enabled, Apply, Harmful, Early;
    var s' := Apply(s, run[0]);
    ReadPends(s, run[0], t);
    if t in s'.gets {
      i, mid := ReadAgain(s', run[1..], rule, end, t);
    } else {
      i, mid := ReadWasStored(s', run[1..], rule, end, t);
    }
    i := i + 1;
    assert run[..i][1..] == run[1..][..i - 1];
  }

  lemma {:induction false} ReadPends(s: State, a: Action, t: Thread)
    requires Enabled(s, a) && t in s.gets && s.gets[t].Read?
    ensures t in Apply(s, a).gets ==> Apply(s, a).gets[t] == s.gets[t]
  {
  }

  /** No write finishes its cache call in this stretch. */
  ghost predicate Quiet(run: seq<Action>) {
    forall i :: 0 <= i < |run| ==> !(run[i].Put? || run[i].Invalidate? || run[i].CreatePut?)
  }

  lemma {:induction false} QuietGen(s: State, run: seq<Action>, rule: Rule, end: State)
    requires Runs(s, run, rule, end) && Quiet(run)
    ensures end.gen == s.gen
    decreases |run|
  {
    hide Enabled, Harmful, Early;
    if |run| > 0 {
      assert Quiet(run[1..]);
      QuietGen(Apply(s, run[0]), run[1..], rule, end);
    }
  }

  /** A GET that no write overtakes puts what it read into the cache. */
  lemma {:induction false} QuietFillCaches(s: State, t: Thread, run: seq<Action>, rule: Rule, end: State)
    requires Enabled(s, GetSnapshot(t)) && Runs(Apply(s, GetSnapshot(t)), run, rule, end)
    requires Quiet(run) && NoNewGet(run, t) && Enabled(end, GetFill(t))
    ensures var g := end.gets[t]; Apply(end, GetFill(t)).cache == end.cache[g.key := g.value]
  {
    var s' := Apply(s, GetSnapshot(t));
    QuietGen(s', run, rule, end);
    SnapshotStays(s', run, rule, end, t, s.gen);
  }

  lemma {:induction false} PendingStep(s: State, a: Action, t: Thread)
    requires Enabled(s, a) && t in s.gets && !(a.GetMiss? && a.t == t)
    ensures t in Apply(s, a).gets ==> Apply(s, a).gets[t].key == s.gets[t].key
    ensures s.gets[t].Read? && a != GetFill(t) ==> t in Apply(s, a).gets && Apply(s, a).gets[t] == s.gets[t]
    ensures t !in Apply(s, a).gets ==> a == GetFill(t) || a == GetSearch(t)
  {
  }

  /** A GET that has not ended keeps its key, and what it has read. */
  lemma {:induction false} PendingStays(s: State, run: seq<Action>, rule: Rule, end: State, t: Thread)
    requires t in s.gets && Runs(s, run, rule, end) && NoNewGet(run, t) && GetFill(t) !in run
    ensures t in end.gets ==> end.gets[t].key == s.gets[t].key
    ensures s.gets[t].Read? ==> t in end.gets && end.gets[t] == s.gets[t]
    decreases |run|
  {
    hide Enabled, Apply, Harmful, Early;
    if |run| > 0 {
      var s' := Apply(s, run[0]);
      assert NoNewGet(run[1..], t) && GetFill(t) !in run[1..];
      PendingStep(s, run[0], t);
      if t in s'.gets {
        PendingStays(s', run[1..], rule, end, t);
      } else {
        NeverBack(s', run[1..], rule, end, t);
      }
    }
  }

  lemma {:induction false} NeverBack(s: State, run: seq<Action>, rule: Rule, end: State, t: Thread)
    requires t !in s.gets && Runs(s, run, rule, end) && NoNewGet(run, t)
    ensures t !in end.gets
    decreases |run|
  {
    hide Enabled, Apply, Harmful, Early;
    if |run| > 0 {
      assert NoNewGet(run[1..], t);
      SnapshotStep(s, run[0], t);
      NeverBack(Apply(s, run[0]), run[1..], rule, end, t);
    }
  }

  /** A GET that misses on a stored row which nobody is writing ends with that row in the cache,
      whatever runs between its steps, unless a write makes its cache call meanwhile. */
  lemma {:induction false} MissIsFilled(s: State, t: Thread, v: Json, run: seq<Action>, mid: State,
                                        more: seq<Action>, end: State, rule: Rule)
    requires Enabled(s, GetSnapshot(t)) && Settled(s, s.gets[t].key, v)
    requires Runs(Apply(s, GetSnapshot(t)), run, rule, mid) && Enabled(mid, GetSearch(t))
    requires Runs(Apply(mid, GetSearch(t)), more, rule, end)
    requires Quiet(run) && Quiet(more) && NoNewGet(run, t) && NoNewGet(more, t)
    requires GetFill(t) !in run && GetFill(t) !in more && NoLock(run, s.gets[t].key)
    ensures var k := s.gets[t].key;
            && Enabled(end, GetFill(t))
            && Apply(end, GetFill(t)).cache == end.cache[k := v]
  {
    hide Runs, Harmful, Early;
    var k, s', u := s.gets[t].key, Apply(s, GetSnapshot(t)), Apply(mid, GetSearch(t));
    SettledStep(s, GetSnapshot(t), k, v);
    RowStays(s', run, rule, mid, k, v);
    PendingStays(s', run, rule, mid, t);
    SnapshotStays(s', run, rule, mid, t, s.gen);
    QuietGen(s', run, rule, mid);
    PendingStays(u, more, rule, end, t);
    QuietGen(u, more, rule, end);
  }

  // ---- what stays cached -------------------------------------------------------------------

  ghost predicate NoEvict(run: seq<Action>, k: Id) {
    forall i :: 0 <= i < |run| ==> run[i] != Evict(k)
  }

  /** The row is settled, cached, and the pending cache call of its writer agrees. */
  ghost predicate Warm(s: State, k: Id, v: Json) {
    && Inv(s) && Settled(s, k, v) && k in s.cache && s.cache[k] == v
    && !(s.writer.Inserted? && s.writer.key == k)
  }

  lemma {:induction false} WarmStep(s: State, a: Action, k: Id, v: Json)
    requires Warm(s, k, v) && Enabled(s, a) && !Harmful(s, a) && !(a.Lock? && a.key == k) && a != Evict(k)
    ensures Warm(Apply(s, a), k, v)
  {
    hide Inv, Harmful;
    StepKeeps(s, a);
    SettledStep(s, a, k, v);
    FillAgrees(s, a, k, v);
  }

  lemma {:induction false} FillAgrees(s: State, a: Action, k: Id, v: Json)
    requires Inv(s) && Settled(s, k, v) && Enabled(s, a)
    ensures a.GetFill? && s.gets[a.t].key == k && s.gets[a.t].gen == s.gen ==>
              s.gets[a.t].value == v || (s.writer.Inserted? && s.writer.key == k)
  {
  }

  /** A cached row is served from the cache until it is evicted or the next write to its id takes
      the lock. */
  lemma {:induction false} WarmStays(s: State, run: seq<Action>, end: State, k: Id, v: Json)
    requires Warm(s, k, v) && Runs(s, run, Harmless, end) && NoLock(run, k) && NoEvict(run, k)
    ensures Warm(end, k, v)
    decreases |run|
  {
    hide Warm, Enabled, Apply, Harmful, Early;
    if |run| > 0 {
      assert NoLock(run[1..], k) && NoEvict(run[1..], k);
      WarmStep(s, run[0], k, v);
      WarmStays(Apply(s, run[0]), run[1..], end, k, v);
    }
  }

  /** So an update's value, and a created one, is found in the cache by the GETs that follow. */
  lemma {:induction false} WriteIsCached(s: State, before: seq<Action>, mid: State, a: Action,
                                         run: seq<Action>, end: State, k: Id, v: Json)
    requires Initial(s) && Runs(s, before, Harmless, mid) && Enabled(mid, a) && !Harmful(mid, a)
    requires (a.Put? && mid.writer.key == k && mid.writer.value == v && !BeingCreated(mid, k))
             || (a.CreatePut? && mid.creating[a.t] == Creating(k, v) && Settled(Apply(mid, a), k, v)
                 && !(mid.writer.Inserted? && mid.writer.key == k))
    requires Runs(Apply(mid, a), run, Harmless, end) && NoLock(run, k) && NoEvict(run, k)
    ensures k in end.cache && k in end.rows && end.cache[k] == v == end.rows[k]
  {
    hide Runs, Harmful;
    assert Inv(s);
    RunKeeps(s, before, mid);
    StepKeeps(mid, a);
    assert a.Put? ==> Settled(Apply(mid, a), k, v) by { assert a.Put? ==> Apply(mid, a).creating == mid.creating; }
    WarmStays(Apply(mid, a), run, end, k, v);
  }

  // ---- stale fills -----------------------------------------------------------------------

  /** Thread t begins no new GET. */
  ghost predicate NoNewGet(run: seq<Action>, t: Thread) {
    forall i :: 0 <= i < |run| ==> !(run[i].GetMiss? && run[i].t == t)
  }

  lemma {:induction false} SnapshotStep(s: State, a: Action, t: Thread)
    requires Enabled(s, a) && !(a.GetMiss? && a.t == t)
    ensures s.gen <= Apply(s, a).gen
    ensures t in Apply(s, a).gets ==> t in s.gets
    ensures t in Apply(s, a).gets && !s.gets[t].Missed? ==>
              !Apply(s, a).gets[t].Missed? && Apply(s, a).gets[t].gen == s.gets[t].gen
  {
  }

  /** A pending GET keeps its snapshot, and the generation never goes back. */
  lemma {:induction false} SnapshotStays(s: State, run: seq<Action>, rule: Rule, end: State, t: Thread, gen: nat)
    requires Runs(s, run, rule, end) && NoNewGet(run, t)
    requires t in s.gets ==> !s.gets[t].Missed? && s.gets[t].gen == gen
    ensures s.gen <= end.gen
    ensures t in end.gets ==> !end.gets[t].Missed? && end.gets[t].gen == gen
    decreases |run|
  {
    hide Harmful, Early, Enabled, Apply;
    if |run| > 0 {
      var s' := Apply(s, run[0]);
      SnapshotStep(s, run[0], t);
      assert NoNewGet(run[1..], t);
      SnapshotStays(s', run[1..], rule, end, t, gen);
    }
  }

  /** A GET that took its snapshot before a write cannot change the cache after it, however
      long it stays pending and whatever happens meanwhile. */
  lemma {:induction false} StaleFillDropped(
      s: State, t: Thread, before: seq<Action>, mid: State, a: Action, after: seq<Action>, end: State)
    requires Initial(s) && Runs(s, before, Any, mid)
    requires t in mid.gets && !mid.gets[t].Missed?
    requires (a.Put? || a.Invalidate? || a.CreatePut?) && Enabled(mid, a)
    requires Runs(Apply(mid, a), after, Any, end) && NoNewGet(after, t) && Enabled(end, GetFill(t))
    ensures Apply(end, GetFill(t)).cache == end.cache
  {
    GensKept(s, before, mid);
    SnapshotStays(Apply(mid, a), after, Any, end, t, mid.gets[t].gen);
  }

  lemma {:induction false} GensStep(s: State, a: Action)
    requires GensOk(s) && Enabled(s, a)
    ensures GensOk(Apply(s, a))
  {
  }

  lemma {:induction false} GensKept(s: State, run: seq<Action>, end: State)
    requires GensOk(s) && Runs(s, run, Any, end)
    ensures GensOk(end)
    decreases |run|
  {
    hide Enabled, Apply, Harmful, Early;
    if |run| > 0 {
      GensStep(s, run[0]);
      GensKept(Apply(s, run[0]), run[1..], end);
    }
  }
}
