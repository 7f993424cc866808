/** Per-client token buckets in a bounded probe table (server/src/rate_limit.c), with reals for
    doubles. */
module RateLimit {
  import opened Common

  const TABLE_SIZE: nat := 4096
  const PROBE_WINDOW: nat := 16

  /** A client address of a known family; equal addresses are one client. */
  type Client = nat

  datatype Bucket = Bucket(client: Client, hash: nat, tokens: real, last: real, used: bool)

  /** rate_limit_init leaves both at least 1. */
  datatype Rates = Rates(rps: real, burst: real)

  ghost predicate RatesOk(r: Rates) {
    r.rps >= 1.0 && r.burst >= 1.0
  }

  // ---- one bucket --------------------------------------------------------------------------------

  function Fresh(c: Client, h: nat, now: real, r: Rates): Bucket {
    Bucket(c, h, r.burst, now, true)
  }

  /** What a time brings. */
  function Gain(secs: real, r: Rates): real {
    secs * r.rps
  }

  lemma {:induction false} GainGrows(a: real, b: real, r: Rates)
    requires a >= b && r.rps >= 0.0
    ensures Gain(a, r) >= Gain(b, r) && Gain(0.0, r) == 0.0
  {
    Scale(a, b, r.rps);
  }

  /** The refill for the time since the bucket was last seen, capped at the burst. */
  function Refilled(b: Bucket, now: real, r: Rates): Bucket {
    if now - b.last <= 0.0 then b
    else
      var t := b.tokens + Gain(now - b.last, r);
      b.(tokens := if t > r.burst then r.burst else t, last := now)
  }

  /** One request on a bucket: the bucket after it, and whether it is admitted. */
  function Serve(b: Bucket, now: real, r: Rates): (Bucket, bool) {
    var f := Refilled(b, now, r);
    if f.tokens >= 1.0 then (f.(tokens := f.tokens - 1.0), true) else (f, false)
  }

  /** Seconds until a token is there, rounded up, at least 1. */
  function RetryAfter(b: Bucket, r: Rates): int
    requires r.rps != 0.0
  {
    var secs := (1.0 - b.tokens) / r.rps;
    var wait := if secs > secs.Floor as real then secs.Floor + 1 else secs.Floor;
    if wait > 0 then wait else 1
  }

  ghost predicate BucketOk(b: Bucket, r: Rates) {
    0.0 <= b.tokens <= r.burst
  }

  /** What a request can take is what the bucket gained: admitted tokens never exceed what was
      there plus what the clock's advance brought. */
  lemma {:induction false} ServeAccounts(b: Bucket, now: real, r: Rates)
    requires BucketOk(b, r) && RatesOk(r)
    ensures var (b', ok) := Serve(b, now, r);
            && BucketOk(b', r) && b.last <= b'.last
            && b'.tokens + (if ok then 1.0 else 0.0) <= b.tokens + r.rps * (b'.last - b.last)
  {
    var gap := now - b.last;
    if gap > 0.0 {
      var gain := r.rps * gap;
      assert gap * r.rps == gain;
      assert gain >= 0.0 by { Scale(r.rps, 0.0, gap); }
    } else {
      assert r.rps * 0.0 == 0.0;
    }
  }

  /** The time until a token is there, in the terms of its gain. */
  lemma {:induction false} TokenTime(tokens: real, r: Rates) returns (secs: real)
    requires r.rps > 0.0 && tokens < 1.0
    ensures secs == (1.0 - tokens) / r.rps && secs > 0.0 && Gain(secs, r) == 1.0 - tokens
  {
    secs := (1.0 - tokens) / r.rps;
    assert secs * r.rps == 1.0 - tokens;
  }

  lemma {:induction false} GainStrict(a: real, b: real, r: Rates)
    requires a < b && r.rps > 0.0
    ensures Gain(a, r) < Gain(b, r)
  {
    assert (b - a) * r.rps > 0.0;
  }

  /** What a refusal leaves: less than one token. */
  lemma {:induction false} RefusedLow(b: Bucket, now: real, r: Rates)
    requires !Serve(b, now, r).1
    ensures Serve(b, now, r).0.tokens < 1.0
  {
    hide Gain;
  }

  /** A bucket below one token admits a later request exactly when the wait brings the rest. */
  lemma {:induction false} AdmitsAfter(b: Bucket, gap: real, r: Rates)
    requires b.tokens < 1.0 && r.burst >= 1.0 && gap > 0.0
    ensures Serve(b, b.last + gap, r).1 <==> Gain(gap, r) >= 1.0 - b.tokens
  {
    assert b.last + gap - b.last == gap;
    hide Gain;
  }

  /** A refused client that waits as long as it was told, from the bucket's last refill on,
      is admitted; the clock reading of the refused request may be older than that refill. */
  lemma {:induction false} RetrySuffices(b: Bucket, now: real, r: Rates, later: real)
    requires r.rps > 0.0 && r.burst >= 1.0 && !Serve(b, now, r).1
    requires var b' := Serve(b, now, r).0; later >= b'.last + RetryAfter(b', r) as real
    ensures Serve(Serve(b, now, r).0, later, r).1
  {
    hide Serve, Gain;
    var b' := Serve(b, now, r).0;
    RefusedLow(b, now, r);
    var secs := TokenTime(b'.tokens, r);
    var gap := later - b'.last;
    assert gap >= RetryAfter(b', r) as real >= secs;
    GainGrows(gap, secs, r);
    AdmitsAfter(b', gap, r);
    assert b'.last + gap == later;
  }

  /** And it is told no longer than that: of the whole seconds, those are enough that are at
      least as many as it was told. */
  lemma {:induction false} RetryLeast(b: Bucket, now: real, r: Rates, wait: int)
    requires r.rps > 0.0 && r.burst >= 1.0 && !Serve(b, now, r).1 && wait >= 1
    ensures var b' := Serve(b, now, r).0;
            Serve(b', b'.last + wait as real, r).1 <==> wait >= RetryAfter(b', r)
  {
    hide Serve, Gain;
    var b' := Serve(b, now, r).0;
    RefusedLow(b, now, r);
    var secs := TokenTime(b'.tokens, r);
    AdmitsAfter(b', wait as real, r);
    if wait >= RetryAfter(b', r) {
      GainGrows(wait as real, secs, r);
    } else {
      assert (wait as real) < secs;
      GainStrict(wait as real, secs, r);
    }
  }

  /** With the rates rate_limit_init sets, that is always one second. */
  lemma {:induction false} RetryIsOne(b: Bucket, now: real, r: Rates)
    requires BucketOk(b, r) && RatesOk(r) && !Serve(b, now, r).1
    ensures RetryAfter(Serve(b, now, r).0, r) == 1
  {
    hide Serve, Gain;
    var b' := Serve(b, now, r).0;
    RefusedLow(b, now, r);
    ServeAccounts(b, now, r);
    var secs := TokenTime(b'.tokens, r);
    if secs > 1.0 {
      GainStrict(1.0, secs, r);
      assert Gain(1.0, r) == r.rps by { GainOne(r); }
    }
  }

  lemma {:induction false} GainOne(r: Rates)
    ensures Gain(1.0, r) == r.rps
  {
  }

  lemma {:induction false} Scale(a: real, b: real, k: real)
    requires a >= b && k >= 0.0
    ensures a * k >= b * k
  {
    assert (a - b) * k >= 0.0;
  }

  // ---- the table -----------------------------------------------------------------------------------

  function Slot(h: nat, d: nat): (i: nat)
    ensures i < TABLE_SIZE
  {
    (h % TABLE_SIZE + d) % TABLE_SIZE
  }

  /** A window is consecutive slots from the hash on, around the end of the table, each once. */
  lemma {:induction false} WindowSlots(h: nat, d: nat, e: nat)
    requires e < d < PROBE_WINDOW
    ensures Slot(h, d) == (h + d) % TABLE_SIZE && Slot(h, d) != Slot(h, e)
  {
    var a := h % TABLE_SIZE;
    assert h + d == TABLE_SIZE * (h / TABLE_SIZE) + (a + d);
  }

  datatype Probed = Found(slot: nat) | Vacant(slot: nat) | Crowded

  /** The probe from distance d on. */
  function Probe(t: seq<Bucket>, c: Client, h: nat, d: nat): (p: Probed)
    requires |t| == TABLE_SIZE && d <= PROBE_WINDOW
    ensures !p.Crowded? ==> p.slot < TABLE_SIZE
    decreases PROBE_WINDOW - d
  {
    if d == PROBE_WINDOW then Crowded
    else
      var b := t[Slot(h, d)];
      if !b.used then Vacant(Slot(h, d))
      else if b.hash == h && b.client == c then Found(Slot(h, d))
      else Probe(t, c, h, d + 1)
  }

  /** The slot of the first d seen longest ago, the earliest one on a tie. */
  function Stalest(t: seq<Bucket>, h: nat, d: nat): (i: nat)
    requires |t| == TABLE_SIZE && 0 < d <= PROBE_WINDOW
    ensures i < TABLE_SIZE
    ensures exists e :: 0 <= e < d && i == Slot(h, e)
    ensures forall e :: 0 <= e < d ==> t[i].last <= t[Slot(h, e)].last
  {
    if d == 1 then assert Slot(h, 0) == Slot(h, 0); Slot(h, 0)
    else
      var i := Stalest(t, h, d - 1);
      if t[Slot(h, d - 1)].last < t[i].last then Slot(h, d - 1) else i
  }

  /** acquire_bucket: the slot, and the bucket now in it. */
  function Acquire(t: seq<Bucket>, c: Client, h: nat, now: real, r: Rates): (a: (nat, Bucket))
    requires |t| == TABLE_SIZE
    ensures a.0 < TABLE_SIZE
  {
    match Probe(t, c, h, 0)
    case Found(i) => (i, t[i])
    case Vacant(i) => (i, Fresh(c, h, now, r))
    case Crowded => (Stalest(t, h, PROBE_WINDOW), Fresh(c, h, now, r))
  }

  /** allow_request. */
  function Request(t: seq<Bucket>, c: Client, h: nat, now: real, r: Rates): (u: (seq<Bucket>, bool))
    requires |t| == TABLE_SIZE
    ensures |u.0| == TABLE_SIZE
  {
    var (i, b) := Acquire(t, c, h, now, r);
    var (b', ok) := Serve(b, now, r);
    (t[i := b'], ok)
  }

  /** Slot i is in the window of h, behind used slots only. */
  ghost predicate InWindow(t: seq<Bucket>, i: nat, h: nat)
    requires |t| == TABLE_SIZE
  {
    exists d :: 0 <= d < PROBE_WINDOW && i == Slot(h, d) && forall e :: 0 <= e < d ==> t[Slot(h, e)].used
  }

  /** A used slot lies in its client's window behind used slots only, and is its client's
      only one. */
  ghost predicate SlotOk(t: seq<Bucket>, i: nat, hash: Client -> nat)
    requires |t| == TABLE_SIZE && i < TABLE_SIZE
  {
    t[i].used ==>
      t[i].hash == hash(t[i].client) && InWindow(t, i, t[i].hash)
  }

  ghost predicate OneSlot(t: seq<Bucket>) {
    forall i, j :: 0 <= i < j < |t| && t[i].used && t[j].used ==> t[i].client != t[j].client
  }

  ghost predicate TableOk(t: seq<Bucket>, hash: Client -> nat, r: Rates) {
    && |t| == TABLE_SIZE && OneSlot(t)
    && (forall i :: 0 <= i < TABLE_SIZE ==> SlotOk(t, i, hash))
    && (forall i :: 0 <= i < TABLE_SIZE && t[i].used ==> BucketOk(t[i], r))
  }

  ghost predicate Holds(t: seq<Bucket>, i: nat, c: Client) {
    i < |t| && t[i].used && t[i].client == c
  }

  /** The first d slots of a window are all used, by others. */
  ghost predicate Others(t: seq<Bucket>, c: Client, h: nat, d: nat)
    requires |t| == TABLE_SIZE
  {
    forall e :: 0 <= e < d ==> t[Slot(h, e)].used && !(t[Slot(h, e)].hash == h && t[Slot(h, e)].client == c)
  }

  /** What a probe means: it stops at the first vacant slot or match, all before it used by
      others. */
  lemma {:induction false} ProbeFacts(t: seq<Bucket>, c: Client, h: nat, d: nat)
    requires |t| == TABLE_SIZE && d <= PROBE_WINDOW && Others(t, c, h, d)
    ensures var p := Probe(t, c, h, d);
            match p
            case Found(i) => t[i].used && t[i].client == c && t[i].hash == h
            case Vacant(i) =>
              !t[i].used && exists e :: 0 <= e < PROBE_WINDOW && i == Slot(h, e) && Others(t, c, h, e)
            case Crowded =>
              Others(t, c, h, PROBE_WINDOW)
    decreases PROBE_WINDOW - d
  {
    hide Slot;
    if d < PROBE_WINDOW {
      var b := t[Slot(h, d)];
      if b.used && !(b.hash == h && b.client == c) { ProbeFacts(t, c, h, d + 1); }
    }
  }

  /** A client that has a slot is found in it: slots are never given back, so nothing in front
      of it has become vacant. */
  lemma {:induction false} PresentIsFound(t: seq<Bucket>, c: Client, hash: Client -> nat, r: Rates, i: nat)
    requires TableOk(t, hash, r) && Holds(t, i, c)
    ensures Probe(t, c, hash(c), 0) == Found(i)
  {
    hide Slot, Probe;
    var h := hash(c);
    assert SlotOk(t, i, hash);
    var d :| 0 <= d < PROBE_WINDOW && i == Slot(h, d) && forall e :: 0 <= e < d ==> t[Slot(h, e)].used;
    ProbeFacts(t, c, h, 0);
    ProbeReaches(t, c, h, d, 0);
  }

  lemma {:induction false} ProbeReaches(t: seq<Bucket>, c: Client, h: nat, d: nat, e: nat)
    requires |t| == TABLE_SIZE && OneSlot(t) && e <= d < PROBE_WINDOW
    requires forall a :: 0 <= a < d ==> t[Slot(h, a)].used
    requires t[Slot(h, d)].used && t[Slot(h, d)].client == c && t[Slot(h, d)].hash == h
    ensures Probe(t, c, h, e) == Found(Slot(h, d))
    decreases d - e
  {
    hide Slot;
    var b := t[Slot(h, e)];
    if !(b.hash == h && b.client == c) { ProbeReaches(t, c, h, d, e + 1); }
  }

  /** A probe that does not find the client proves it has no slot. */
  lemma {:induction false} NotFoundIsAbsent(t: seq<Bucket>, c: Client, hash: Client -> nat, r: Rates)
    requires TableOk(t, hash, r) && !Probe(t, c, hash(c), 0).Found?
    ensures forall i :: 0 <= i < TABLE_SIZE ==> !Holds(t, i, c)
  {
    hide Probe, TableOk;
    forall i | 0 <= i < TABLE_SIZE ensures !Holds(t, i, c) {
      if Holds(t, i, c) { PresentIsFound(t, c, hash, r, i); }
    }
  }

  /** The bucket a request ends up in: the client's own, or a fresh one where it had none. */
  lemma {:induction false} AcquireFacts(t: seq<Bucket>, c: Client, hash: Client -> nat, now: real, r: Rates)
    requires TableOk(t, hash, r) && RatesOk(r)
    ensures var (i, b) := Acquire(t, c, hash(c), now, r);
            && b.used && b.client == c && b.hash == hash(c) && BucketOk(b, r)
            && InWindow(t, i, hash(c))
            && (forall j :: 0 <= j < TABLE_SIZE && j != i ==> !Holds(t, j, c))
            && (Holds(t, i, c) ==> b == t[i]) && (!Holds(t, i, c) ==> b == Fresh(c, hash(c), now, r))
  {
    hide Slot, Probe;
    var h := hash(c);
    var p := Probe(t, c, h, 0);
    ProbeFacts(t, c, h, 0);
    if p.Found? {
      assert SlotOk(t, p.slot, hash);
    } else {
      NotFoundIsAbsent(t, c, hash, r);
    }
  }

  lemma {:induction false} SlotsKept(t: seq<Bucket>, i: nat, b: Bucket, hash: Client -> nat, j: nat)
    requires |t| == TABLE_SIZE && i < TABLE_SIZE && j < TABLE_SIZE && b.used
    requires j != i ==> SlotOk(t, j, hash)
    requires j == i ==> b.hash == hash(b.client) && InWindow(t, i, b.hash)
    ensures SlotOk(t[i := b], j, hash)
  {
    hide Slot;
    var u := t[i := b];
    if u[j].used {
      var h := u[j].hash;
      var d :| 0 <= d < PROBE_WINDOW && j == Slot(h, d) && forall e :: 0 <= e < d ==> t[Slot(h, e)].used;
      forall e | 0 <= e < d ensures u[Slot(h, e)].used { }
    }
  }

  /** Every request keeps the table sound. */
  lemma {:induction false} RequestKeeps(t: seq<Bucket>, c: Client, hash: Client -> nat, now: real, r: Rates)
    requires TableOk(t, hash, r) && RatesOk(r)
    ensures TableOk(Request(t, c, hash(c), now, r).0, hash, r)
  {
    hide Acquire, Serve, Slot, SlotOk;
    var (i, b) := Acquire(t, c, hash(c), now, r);
    var (b', ok) := Serve(b, now, r);
    AcquireFacts(t, c, hash, now, r);
    ServeAccounts(b, now, r);
    ServeSame(b, now, r);
    var u := t[i := b'];
    forall j | 0 <= j < TABLE_SIZE ensures SlotOk(u, j, hash) { SlotsKept(t, i, b', hash, j); }
    forall x, y | 0 <= x < y < |u| && u[x].used && u[y].used ensures u[x].client != u[y].client {
      assert x != i ==> !Holds(t, x, c);
      assert y != i ==> !Holds(t, y, c);
    }
  }

  lemma {:induction false} ServeSame(b: Bucket, now: real, r: Rates)
    ensures var b' := Serve(b, now, r).0; b'.client == b.client && b'.hash == b.hash && b'.used == b.used
  {
  }

  // ---- any stretch of requests ------------------------------------------------------------------------

  datatype Arrival = Arrival(client: Client, now: real)

  /** The table after some arrivals. */
  ghost function After(t: seq<Bucket>, xs: seq<Arrival>, hash: Client -> nat, r: Rates): (u: seq<Bucket>)
    requires |t| == TABLE_SIZE
    ensures |u| == TABLE_SIZE
  {
    if |xs| == 0 then t
    else
      var a := xs[|xs| - 1];
      Request(After(t, xs[..|xs| - 1], hash, r), a.client, hash(a.client), a.now, r).0
  }

  /** How many requests of client c are admitted. */
  ghost function Admitted(t: seq<Bucket>, xs: seq<Arrival>, c: Client, hash: Client -> nat, r: Rates): nat
    requires |t| == TABLE_SIZE
  {
    if |xs| == 0 then 0
    else
      var a, front := xs[|xs| - 1], xs[..|xs| - 1];
      Admitted(t, front, c, hash, r)
      + (if a.client == c && Request(After(t, front, hash, r), c, hash(c), a.now, r).1 then 1 else 0)
  }

  /** Slot i is the client's throughout the stretch. */
  ghost predicate Keeps(t: seq<Bucket>, xs: seq<Arrival>, i: nat, c: Client, hash: Client -> nat, r: Rates)
    requires |t| == TABLE_SIZE
  {
    forall n :: 0 <= n <= |xs| ==> Holds(After(t, xs[..n], hash, r), i, c)
  }

  lemma {:induction false} AfterOk(t: seq<Bucket>, xs: seq<Arrival>, hash: Client -> nat, r: Rates)
    requires |t| == TABLE_SIZE && TableOk(t, hash, r) && RatesOk(r)
    ensures TableOk(After(t, xs, hash, r), hash, r)
  {
    hide TableOk, Request;
    if |xs| > 0 {
      var a, front := xs[|xs| - 1], xs[..|xs| - 1];
      AfterOk(t, front, hash, r);
      RequestKeeps(After(t, front, hash, r), a.client, hash, a.now, r);
    }
  }

  /** What one arrival does to a slot that stays with its client. */
  lemma {:induction false} ArrivalAccounts(t: seq<Bucket>, a: Arrival, i: nat, c: Client, hash: Client -> nat, r: Rates)
    requires |t| == TABLE_SIZE && TableOk(t, hash, r) && RatesOk(r) && Holds(t, i, c)
    requires Holds(Request(t, a.client, hash(a.client), a.now, r).0, i, c)
    ensures var u := Request(t, a.client, hash(a.client), a.now, r);
            && t[i].last <= u.0[i].last
            && u.0[i].tokens + (if a.client == c && u.1 then 1.0 else 0.0)
               <= t[i].tokens + r.rps * (u.0[i].last - t[i].last)
  {
    hide Serve, Acquire, TableOk;
    var (j, b) := Acquire(t, a.client, hash(a.client), a.now, r);
    AcquireFacts(t, a.client, hash, a.now, r);
    ServeSame(b, a.now, r);
    ServeAccounts(b, a.now, r);
    assert r.rps * 0.0 == 0.0;
  }

  /** Over any stretch in which a client keeps its slot, the requests it gets admitted are at
      most the burst plus the rate times the advance of the slot's clock. */
  lemma {:induction false} AdmissionBound(t: seq<Bucket>, xs: seq<Arrival>, i: nat, c: Client,
                                          hash: Client -> nat, r: Rates)
    requires |t| == TABLE_SIZE && TableOk(t, hash, r) && RatesOk(r) && Keeps(t, xs, i, c, hash, r)
    ensures var u := After(t, xs, hash, r);
            && i < TABLE_SIZE && t[i].last <= u[i].last && 0.0 <= u[i].tokens && t[i].tokens <= r.burst
            && u[i].tokens + Admitted(t, xs, c, hash, r) as real <= t[i].tokens + r.rps * (u[i].last - t[i].last)
    ensures Admitted(t, xs, c, hash, r) as real <= r.burst + r.rps * (After(t, xs, hash, r)[i].last - t[i].last)
  {
    hide Request, TableOk;
    TokensWithin(t, i, c, hash, r) by { assert xs[..0] == [] && Holds(After(t, xs[..0], hash, r), i, c); }
    assert xs[..|xs|] == xs;
    AfterOk(t, xs, hash, r);
    TokensWithin(After(t, xs, hash, r), i, c, hash, r);
    if |xs| > 0 {
      var a, front := xs[|xs| - 1], xs[..|xs| - 1];
      assert forall n :: 0 <= n <= |front| ==> front[..n] == xs[..n];
      AdmissionBound(t, front, i, c, hash, r);
      var v := After(t, front, hash, r);
      AfterOk(t, front, hash, r);
      assert Holds(After(t, xs[..|xs| - 1], hash, r), i, c);
      ArrivalAccounts(v, a, i, c, hash, r);
      var u := After(t, xs, hash, r);
      assert r.rps * (u[i].last - t[i].last) == r.rps * (u[i].last - v[i].last) + r.rps * (v[i].last - t[i].last);
    } else {
      assert r.rps * 0.0 == 0.0;
    }
  }

  lemma {:induction false} TokensWithin(t: seq<Bucket>, i: nat, c: Client, hash: Client -> nat, r: Rates)
    requires TableOk(t, hash, r) && Holds(t, i, c)
    ensures i < TABLE_SIZE && 0.0 <= t[i].tokens <= r.burst
  {
  }

  // ---- what a client is sure to get ----------------------------------------------------------------------

  /** How many requests client c makes. */
  ghost function Requests(xs: seq<Arrival>, c: Client): nat {
    if |xs| == 0 then 0 else Requests(xs[..|xs| - 1], c) + if xs[|xs| - 1].client == c then 1 else 0
  }

  ghost function Smaller(a: real, b: real): real {
    if a < b then a else b
  }

  /** The tokens after a request are those there, or those a wait of at least g brings, less one. */
  lemma {:induction false} ServeFloor(b: Bucket, now: real, r: Rates, g: real)
    requires BucketOk(b, r) && RatesOk(r) && g >= 0.0 && (g == 0.0 || now >= b.last + g)
    ensures var (b', ok) := Serve(b, now, r);
            var floor := Smaller(r.burst, b.tokens + Gain(g, r));
            b'.tokens >= floor - 1.0 && (floor >= 1.0 ==> ok)
  {
    hide Gain;
    GainGrows(g, 0.0, r);
    if now - b.last > 0.0 { GainGrows(now - b.last, if g > 0.0 then g else 0.0, r); }
  }

  /** Requests of others leave a slot alone as long as it stays with its client. */
  lemma {:induction false} OthersPass(t: seq<Bucket>, a: Arrival, i: nat, c: Client, hash: Client -> nat, r: Rates)
    requires |t| == TABLE_SIZE && TableOk(t, hash, r) && RatesOk(r) && Holds(t, i, c) && a.client != c
    requires Holds(Request(t, a.client, hash(a.client), a.now, r).0, i, c)
    ensures Request(t, a.client, hash(a.client), a.now, r).0[i] == t[i]
  {
    hide Serve, Acquire, TableOk;
    var (j, b) := Acquire(t, a.client, hash(a.client), a.now, r);
    AcquireFacts(t, a.client, hash, a.now, r);
    ServeSame(b, a.now, r);
  }

  /** Its own requests are served from it. */
  lemma {:induction false} OwnServed(t: seq<Bucket>, i: nat, c: Client, hash: Client -> nat, now: real, r: Rates)
    requires |t| == TABLE_SIZE && TableOk(t, hash, r) && RatesOk(r) && Holds(t, i, c)
    ensures var u := Request(t, c, hash(c), now, r); (u.0[i], u.1) == Serve(t[i], now, r) && BucketOk(t[i], r)
  {
    hide Serve, Acquire, TableOk;
    AcquireFacts(t, c, hash, now, r);
    TokensWithin(t, i, c, hash, r);
  }

  /** Every request of the client comes at least g after its slot was last refilled, or g is 0. */
  ghost predicate Waits(xs: seq<Arrival>, c: Client, since: real, g: real) {
    g >= 0.0 && (g > 0.0 ==> forall j :: 0 <= j < |xs| && xs[j].client == c ==> xs[j].now >= since + g)
  }

  /** Tokens of a kept slot: untouched until the first request, then down by at most one a
      request from the tokens there were or the wait brought. */
  lemma {:induction false} TokenFloor(t: seq<Bucket>, xs: seq<Arrival>, i: nat, c: Client,
                                      hash: Client -> nat, r: Rates, g: real)
    requires |t| == TABLE_SIZE && TableOk(t, hash, r) && RatesOk(r) && Keeps(t, xs, i, c, hash, r)
    requires Holds(t, i, c) && Waits(xs, c, t[i].last, g)
    ensures var n, b := Requests(xs, c), After(t, xs, hash, r)[i];
            if n == 0 then b == t[i] else b.tokens >= Smaller(r.burst, t[i].tokens + Gain(g, r)) - n as real
  {
    hide Request, TableOk, Serve, Smaller, Gain;
    if |xs| > 0 {
      var a, front := xs[|xs| - 1], xs[..|xs| - 1];
      assert forall n :: 0 <= n <= |front| ==> front[..n] == xs[..n];
      TokenFloor(t, front, i, c, hash, r, g);
      var v := After(t, front, hash, r);
      AfterOk(t, front, hash, r);
      assert Holds(After(t, xs[..|xs| - 1], hash, r), i, c);
      assert xs[..|xs|] == xs && Holds(After(t, xs[..|xs|], hash, r), i, c);
      if a.client != c {
        OthersPass(v, a, i, c, hash, r);
      } else {
        OwnServed(v, i, c, hash, a.now, r);
        FloorStep(t[i], v[i], Requests(front, c), a.now, r, g);
      }
    }
  }

  /** One request on a slot that has met n since b. */
  lemma {:induction false} FloorStep(b: Bucket, v: Bucket, n: nat, now: real, r: Rates, g: real)
    requires BucketOk(v, r) && RatesOk(r) && g >= 0.0 && (g == 0.0 || now >= b.last + g)
    requires if n == 0 then v == b else v.tokens >= Smaller(r.burst, b.tokens + Gain(g, r)) - n as real
    ensures var floor, (v', ok) := Smaller(r.burst, b.tokens + Gain(g, r)), Serve(v, now, r);
            v'.tokens >= floor - (n + 1) as real && (floor >= (n + 1) as real ==> ok)
  {
    hide Serve, Gain;
    if n == 0 {
      ServeFloor(v, now, r, g);
    } else {
      ServeFloor(v, now, r, 0.0);
      GainGrows(0.0, 0.0, r);
    }
  }

  lemma {:induction false} AdmittedAtLeast(t: seq<Bucket>, xs: seq<Arrival>, i: nat, c: Client,
                                           hash: Client -> nat, r: Rates, g: real, n: nat)
    requires |t| == TABLE_SIZE && TableOk(t, hash, r) && RatesOk(r) && Keeps(t, xs, i, c, hash, r)
    requires Holds(t, i, c) && Waits(xs, c, t[i].last, g)
    requires n <= Requests(xs, c) && n as real <= r.burst && n as real <= t[i].tokens + Gain(g, r)
    ensures Admitted(t, xs, c, hash, r) >= n
  {
    hide Request, TableOk, Serve, Gain;
    if |xs| > 0 {
      var a, front := xs[|xs| - 1], xs[..|xs| - 1];
      assert forall n :: 0 <= n <= |front| ==> front[..n] == xs[..n];
      if n <= Requests(front, c) {
        AdmittedAtLeast(t, front, i, c, hash, r, g, n);
      } else {
        AdmittedAtLeast(t, front, i, c, hash, r, g, n - 1);
        var v := After(t, front, hash, r);
        AfterOk(t, front, hash, r);
        assert Holds(After(t, xs[..|xs| - 1], hash, r), i, c);
        TokenFloor(t, front, i, c, hash, r, g);
        OwnServed(v, i, c, hash, a.now, r);
        FloorStep(t[i], v[i], Requests(front, c), a.now, r, g);
      }
    }
  }

  /** A client that keeps its slot and waits g after the slot's last refill gets its next n
      requests admitted, for every n up to the burst and up to its tokens plus the rate times g.
      With g = 0 this holds whatever the clock readings are. */
  lemma {:induction false} AdmissionFloor(t: seq<Bucket>, xs: seq<Arrival>, i: nat, c: Client,
                                          hash: Client -> nat, r: Rates, g: real, n: nat)
    requires |t| == TABLE_SIZE && TableOk(t, hash, r) && RatesOk(r) && Keeps(t, xs, i, c, hash, r)
    requires Holds(t, i, c) && Waits(xs, c, t[i].last, g)
    requires n <= Requests(xs, c) && n as real <= r.burst && n as real <= t[i].tokens + g * r.rps
    ensures Admitted(t, xs, c, hash, r) >= n
  {
    hide *;
    assert Gain(g, r) == g * r.rps by { GainIs(g, r); }
    AdmittedAtLeast(t, xs, i, c, hash, r, g, n);
  }

  lemma {:induction false} GainIs(g: real, r: Rates)
    ensures Gain(g, r) == g * r.rps
  {
  }

  lemma {:induction false} AfterFirst(t: seq<Bucket>, xs: seq<Arrival>, c: Client, hash: Client -> nat, r: Rates)
    requires |t| == TABLE_SIZE && |xs| > 0
    ensures var a := xs[0];
            var first := Request(t, a.client, hash(a.client), a.now, r);
            && After(t, xs, hash, r) == After(first.0, xs[1..], hash, r)
            && Admitted(t, xs, c, hash, r) ==
               Admitted(first.0, xs[1..], c, hash, r) + (if a.client == c && first.1 then 1 else 0)
            && Requests(xs, c) == Requests(xs[1..], c) + (if a.client == c then 1 else 0)
    decreases |xs|
  {
    hide Request;
    var front, rest := xs[..|xs| - 1], xs[1..];
    if |xs| == 1 {
      assert front == [] && rest == [];
    } else {
      AfterFirst(t, front, c, hash, r);
      assert rest[..|rest| - 1] == front[1..] && rest[|rest| - 1] == xs[|xs| - 1];
    }
  }

  /** A client without a slot that keeps the one its first request is given gets its first n
      requests admitted for every n up to the burst, whatever the clock readings are. */
  lemma {:induction false} NewcomerBurst(t: seq<Bucket>, xs: seq<Arrival>, c: Client, hash: Client -> nat,
                                         r: Rates, n: nat)
    requires |t| == TABLE_SIZE && TableOk(t, hash, r) && RatesOk(r) && |xs| > 0 && xs[0].client == c
    requires forall j :: 0 <= j < TABLE_SIZE ==> !Holds(t, j, c)
    requires var (i, b) := Acquire(t, c, hash(c), xs[0].now, r);
             Keeps(Request(t, c, hash(c), xs[0].now, r).0, xs[1..], i, c, hash, r)
    requires n <= Requests(xs, c) && n as real <= r.burst
    ensures Admitted(t, xs, c, hash, r) >= n
  {
    hide Acquire, TableOk, Serve, Keeps, Gain;
    var now := xs[0].now;
    var (i, b) := Acquire(t, c, hash(c), now, r);
    AcquireFacts(t, c, hash, now, r);
    AfterFirst(t, xs, c, hash, r);
    ServeFloor(b, now, r, 0.0);
    ServeSame(b, now, r);
    RequestKeeps(t, c, hash, now, r);
    GainGrows(0.0, 0.0, r);
    assert b.tokens == r.burst;
    if n > 0 { AdmittedAtLeast(t[i := Serve(b, now, r).0], xs[1..], i, c, hash, r, 0.0, n - 1); }
  }

  /** A client loses its slot only to one that had none, in whose window every slot was in use
      and none had been refilled longer ago. */
  lemma {:induction false} Evicted(t: seq<Bucket>, a: Arrival, i: nat, c: Client, hash: Client -> nat, r: Rates)
    requires |t| == TABLE_SIZE && TableOk(t, hash, r) && RatesOk(r) && Holds(t, i, c)
    requires !Holds(Request(t, a.client, hash(a.client), a.now, r).0, i, c)
    ensures a.client != c && i < TABLE_SIZE && forall j :: 0 <= j < TABLE_SIZE ==> !Holds(t, j, a.client)
    ensures exists d :: 0 <= d < PROBE_WINDOW && i == Slot(hash(a.client), d)
    ensures forall d :: 0 <= d < PROBE_WINDOW ==>
              t[Slot(hash(a.client), d)].used && t[i].last <= t[Slot(hash(a.client), d)].last
  {
    hide Serve, Slot, Probe, TableOk;
    var h := hash(a.client);
    var (j, b) := Acquire(t, a.client, h, a.now, r);
    AcquireFacts(t, a.client, hash, a.now, r);
    ServeSame(b, a.now, r);
    ProbeFacts(t, a.client, h, 0);
    assert i == j && !Probe(t, a.client, h, 0).Found?;
    NotFoundIsAbsent(t, a.client, hash, r);
  }

  // ---- the limiter -------------------------------------------------------------------------------------

  class Limiter {
    const table: array<Bucket>
    const rates: Rates
    ghost const hash: Client -> nat

    ghost predicate Valid()
      reads table
    {
      RatesOk(rates) && TableOk(table[..], hash, rates)
    }

    constructor (rates: Rates, ghost hash: Client -> nat)
      requires RatesOk(rates)
      ensures Valid() && fresh(table) && this.hash == hash && this.rates == rates
      ensures forall i :: 0 <= i < table.Length ==> !table[i].used
    {
      table := new Bucket[TABLE_SIZE](_ => Bucket(0, 0, 0.0, 0.0, false));
      this.rates, this.hash := rates, hash;
    }

    /** acquire_bucket: the client's slot, the first vacant one of its window, or the stalest. */
    method AcquireBucket(c: Client, h: nat, now: real) returns (i: nat)
      requires table.Length == TABLE_SIZE
      modifies table
      ensures i == Acquire(old(table[..]), c, h, now, rates).0
      ensures table[..] == old(table[..])[i := Acquire(old(table[..]), c, h, now, rates).1]
    {
      hide Slot;
      var lru := 0;
      ghost var t := table[..];
      for d := 0 to PROBE_WINDOW
        invariant table[..] == t && Probe(t, c, h, d) == Probe(t, c, h, 0)
        invariant d > 0 ==> lru == Stalest(t, h, d)
      {
        i := Slot(h, d);
        var b := table[i];
        if !b.used {
          table[i] := Fresh(c, h, now, rates);
          return;
        }
        if b.hash == h && b.client == c {
          assert t[i := t[i]] == t;
          return;
        }
        if d == 0 || b.last < table[lru].last {
          lru := i;
        }
      }
      table[lru] := Fresh(c, h, now, rates);
      return lru;
    }

    /** allow_request. */
    method AllowRequest(c: Client, h: nat, now: real) returns (allowed: bool, retryAfter: int)
      requires Valid() && h == hash(c)
      modifies table
      ensures Valid() && (table[..], allowed) == Request(old(table[..]), c, h, now, rates)
      ensures !allowed ==>
                exists i :: 0 <= i < table.Length && Holds(table[..], i, c) && retryAfter == RetryAfter(table[i], rates)
    {
      hide Acquire, TableOk, Gain;
      TableSize(table[..], hash, rates);
      ghost var t := table[..];
      AcquireFacts(t, c, hash, now, rates);
      RequestKeeps(t, c, hash, now, rates);
      ghost var served := Serve(Acquire(t, c, h, now, rates).1, now, rates);
      var i := AcquireBucket(c, h, now);
      var b := table[i];
      var elapsed := now - b.last;
      if elapsed > 0.0 {
        var tokens := b.tokens + Gain(elapsed, rates);
        b := b.(tokens := if tokens > rates.burst then rates.burst else tokens, last := now);
      }
      retryAfter := 1;
      if b.tokens >= 1.0 {
        b := b.(tokens := b.tokens - 1.0);
        allowed := true;
      } else {
        allowed := false;
        var secs := (1.0 - b.tokens) / rates.rps;
        var wait := secs.Floor;
        if secs > wait as real {
          wait := wait + 1;
        }
        retryAfter := if wait > 0 then wait else 1;
      }
      table[i] := b;
      assert (b, allowed) == served && table[..] == t[i := b];
      assert !allowed ==> Holds(table[..], i, c) && retryAfter == RetryAfter(table[i], rates);
    }
  }

  lemma {:induction false} TableSize(t: seq<Bucket>, hash: Client -> nat, r: Rates)
    requires TableOk(t, hash, r)
    ensures |t| == TABLE_SIZE
  {
  }
}
