/** Smooth weighted round robin (balancer/src/selection.c): the fairness theory of the
    algorithm over vectors of weights, and the selection loop itself. */
module Fairness {

  /** Sum of a vector. */
  function Sum(s: seq<int>): int {
    if |s| == 0 then 0 else Sum(s[..|s| - 1]) + s[|s| - 1]
  }

  lemma {:induction false} SumUpdate(s: seq<int>, i: nat, x: int)
    requires i < |s|
    ensures Sum(s[i := x]) == Sum(s) - s[i] + x
    decreases |s|
  {
    var t := s[i := x];
    if i == |s| - 1 {
      assert t[..|s| - 1] == s[..|s| - 1];
    } else {
      assert t[..|s| - 1] == s[..|s| - 1][i := x];
      SumUpdate(s[..|s| - 1], i, x);
    }
  }

  function Add(a: seq<int>, b: seq<int>): (c: seq<int>)
    requires |a| == |b|
    ensures |c| == |a| && forall i :: 0 <= i < |c| ==> c[i] == a[i] + b[i]
  {
    seq(|a|, i requires 0 <= i < |a| => a[i] + b[i])
  }

  lemma {:induction false} SumAdd(a: seq<int>, b: seq<int>)
    requires |a| == |b|
    ensures Sum(Add(a, b)) == Sum(a) + Sum(b)
    decreases |a|
  {
    if |a| > 0 {
      SumAdd(a[..|a| - 1], b[..|b| - 1]);
      assert Add(a, b)[..|a| - 1] == Add(a[..|a| - 1], b[..|b| - 1]);
    }
  }

  function Zeros(n: nat): (z: seq<int>)
    ensures |z| == n && forall i :: 0 <= i < n ==> z[i] == 0
  {
    seq(n, i => 0)
  }

  lemma {:induction false} SumZeros(n: nat)
    ensures Sum(Zeros(n)) == 0
  {
    if n > 0 {
      assert Zeros(n)[..n - 1] == Zeros(n - 1);
      SumZeros(n - 1);
    }
  }

  /** Non-negative vectors: a zero sum means all zero. */
  lemma {:induction false} SumNonNegative(s: seq<int>)
    requires forall i :: 0 <= i < |s| ==> 0 <= s[i]
    ensures 0 <= Sum(s)
    ensures Sum(s) == 0 ==> forall i :: 0 <= i < |s| ==> s[i] == 0
  {
    if |s| > 0 {
      SumNonNegative(s[..|s| - 1]);
      assert forall i :: 0 <= i < |s| - 1 ==> s[i] == s[..|s| - 1][i];
    }
  }

  /** A vector with a positive sum has a positive entry. */
  lemma {:induction false} SumPositive(s: seq<int>) returns (i: nat)
    requires Sum(s) > 0
    ensures i < |s| && s[i] > 0
  {
    i := |s| - 1;
    if s[i] <= 0 {
      i := SumPositive(s[..|s| - 1]);
    }
  }

  // ---- one selection over effective weights -----------------------------------
  //
  // e[i] is the weight of backend i while it is healthy and 0 while it is not.

  ghost predicate Weights(e: seq<int>) {
    (forall i :: 0 <= i < |e| ==> 0 <= e[i]) && Sum(e) > 0
  }

  /** b is the first healthy backend whose raised weight is largest. */
  ghost predicate Chosen(e: seq<int>, v: seq<int>, b: nat) {
    && |v| == |e| && b < |e| && e[b] > 0
    && (forall i :: 0 <= i < |e| && e[i] > 0 ==> v[i] <= v[b])
    && (forall i :: 0 <= i < b && e[i] > 0 ==> v[i] < v[b])
  }

  /** The first maximum among the healthy, scanning up to n. */
  function Best(e: seq<int>, v: seq<int>, n: nat): (b: int)
    requires |e| == |v| && n <= |e|
    ensures -1 <= b < n && (b >= 0 ==> e[b] > 0)
    ensures b == -1 <==> forall i :: 0 <= i < n ==> e[i] <= 0
    ensures b >= 0 ==> forall i :: 0 <= i < n && e[i] > 0 ==> v[i] <= v[b]
    ensures b >= 0 ==> forall i :: 0 <= i < b && e[i] > 0 ==> v[i] < v[b]
  {
    if n == 0 then -1
    else
      var b := Best(e, v, n - 1);
      if e[n - 1] > 0 && (b == -1 || v[n - 1] > v[b]) then n - 1 else b
  }

  lemma {:induction false} BestStep(e: seq<int>, v: seq<int>, n: nat)
    requires |e| == |v| && n < |e|
    ensures var b := Best(e, v, n);
            Best(e, v, n + 1) == if e[n] > 0 && (b == -1 || v[n] > v[b]) then n else b
  {
  }

  function Pick(e: seq<int>, c: seq<int>): (b: int)
    requires |e| == |c|
  {
    Best(e, Add(c, e), |e|)
  }

  lemma {:induction false} PickChosen(e: seq<int>, c: seq<int>)
    requires |e| == |c| && Weights(e)
    ensures Pick(e, c) >= 0 && Chosen(e, Add(c, e), Pick(e, c))
  {
    var i := SumPositive(e);
  }

  /** One smooth-WRR selection: every healthy weight is raised, the winner pays the total. */
  function Next(e: seq<int>, c: seq<int>): (d: seq<int>)
    requires |e| == |c|
    ensures |d| == |c|
  {
    var b := Pick(e, c);
    var v := Add(c, e);
    if b >= 0 then v[b := v[b] - Sum(e)] else v
  }

  /** The sum of all current weights never changes. */
  lemma {:induction false} NextKeepsSum(e: seq<int>, c: seq<int>)
    requires |e| == |c| && Weights(e)
    ensures Sum(Next(e, c)) == Sum(c)
  {
    PickChosen(e, c);
    var b, v := Pick(e, c), Add(c, e);
    SumAdd(c, e);
    SumUpdate(v, b, v[b] - Sum(e));
  }

  // ---- a run with fixed health, from the all-zero state ------------------------

  /** Current weights after t selections. */
  function At(e: seq<int>, t: nat): (c: seq<int>)
    ensures |c| == |e|
  {
    if t == 0 then Zeros(|e|) else Next(e, At(e, t - 1))
  }

  /** The backend chosen by selection number t. */
  function PickAt(e: seq<int>, t: nat): int {
    Pick(e, At(e, t))
  }

  /** How often i is chosen by the selections from..from+n. */
  function Picks(e: seq<int>, i: int, from: nat, n: nat): nat {
    if n == 0 then 0 else Picks(e, i, from, n - 1) + (if PickAt(e, from + n - 1) == i then 1 else 0)
  }

  /** What every state of such a run satisfies. */
  ghost predicate Balanced(e: seq<int>, c: seq<int>) {
    && |c| == |e| && Sum(c) == 0
    && (forall i :: 0 <= i < |e| ==> -Sum(e) < c[i])
    && (forall i :: 0 <= i < |e| && e[i] == 0 ==> c[i] == 0)
  }

  lemma {:induction false} NextBalanced(e: seq<int>, c: seq<int>)
    requires Weights(e) && Balanced(e, c)
    ensures Balanced(e, Next(e, c))
  {
    PickChosen(e, c);
    NextKeepsSum(e, c);
    var b, v := Pick(e, c), Add(c, e);
    SumAdd(c, e);
    var p := SumPositive(v);
    assert e[p] > 0 && v[b] >= v[p] > 0;
  }

  /** Every current weight stays above -W, and their sum stays 0. */
  lemma {:induction false} AtBalanced(e: seq<int>, t: nat)
    requires Weights(e)
    ensures Balanced(e, At(e, t))
  {
    if t == 0 {
      SumZeros(|e|);
    } else {
      AtBalanced(e, t - 1);
      NextBalanced(e, At(e, t - 1));
    }
  }

  /** Each current weight is its share of the selections so far, minus W per win. */
  lemma {:induction false} AtCounts(e: seq<int>, t: nat, i: nat)
    requires Weights(e) && i < |e|
    ensures At(e, t)[i] == t * e[i] - Sum(e) * Picks(e, i, 0, t)
  {
    hide Sum, Best;
    if t > 0 {
      AtCounts(e, t - 1, i);
      NextAt(e, At(e, t - 1), i);
      ShareStep(t, e[i], Sum(e), Picks(e, i, 0, t - 1));
    }
  }

  /** What one selection does to backend i. */
  lemma {:induction false} NextAt(e: seq<int>, c: seq<int>, i: nat)
    requires |e| == |c| && Weights(e) && i < |e|
    ensures Next(e, c)[i] == c[i] + e[i] - (if Pick(e, c) == i then Sum(e) else 0)
  {
    hide Sum;
    PickChosen(e, c);
  }

  lemma {:induction false} ShareStep(t: nat, x: int, w: int, p: nat)
    requires t > 0
    ensures t * x == (t - 1) * x + x
    ensures w * (p + 1) == w * p + w
  {
  }

  function Tally(e: seq<int>, from: nat, n: nat): (s: seq<int>)
    ensures |s| == |e|
  {
    seq(|e|, i requires 0 <= i < |e| => Picks(e, i, from, n))
  }

  /** Each selection chooses exactly one backend. */
  lemma {:induction false} TallyTotal(e: seq<int>, from: nat, n: nat)
    requires Weights(e)
    ensures Sum(Tally(e, from, n)) == n
    decreases n
  {
    hide Sum, At, Best;
    if n == 0 {
      assert Tally(e, from, 0) == Zeros(|e|);
      SumZeros(|e|);
    } else {
      TallyTotal(e, from, n - 1);
      var s := Tally(e, from, n - 1);
      var b := PickAt(e, from + n - 1);
      PickChosen(e, At(e, from + n - 1));
      assert Tally(e, from, n) == s[b := s[b] + 1];
      SumUpdate(s, b, s[b] + 1);
    }
  }

  /** After W selections every backend has won exactly its weight, and the state is back
      to all zero. */
  lemma {:induction false} FullRound(e: seq<int>)
    requires Weights(e)
    ensures Sum(e) > 0 && At(e, Sum(e)) == Zeros(|e|)
    ensures forall i :: 0 <= i < |e| ==> Picks(e, i, 0, Sum(e)) == e[i]
  {
    hide Sum, At, Picks;
    var w: nat := Sum(e);
    var spare := seq(|e|, i requires 0 <= i < |e| => e[i] - Picks(e, i, 0, w));
    forall i | 0 <= i < |e| ensures At(e, w)[i] == w * spare[i] && 0 <= spare[i] {
      SpareAt(e, i);
    }
    assert Add(spare, Tally(e, 0, w)) == e;
    SumAdd(spare, Tally(e, 0, w));
    TallyTotal(e, 0, w);
    SumNonNegative(spare);
    assert At(e, w) == Zeros(|e|);
  }

  /** After W selections the weight of i is W times what it has not won: never negative,
      because every weight stays above -W. */
  lemma {:induction false} SpareAt(e: seq<int>, i: nat)
    requires Weights(e) && i < |e|
    ensures Sum(e) > 0
    ensures var x := e[i] - Picks(e, i, 0, Sum(e)); At(e, Sum(e))[i] == Sum(e) * x && 0 <= x
  {
    hide Sum, At, Picks;
    AtBalanced(e, Sum(e));
    AtCounts(e, Sum(e), i);
    ScaledAbove(Sum(e), e[i], Picks(e, i, 0, Sum(e)));
  }

  lemma {:induction false} ScaledAbove(w: int, a: int, p: int)
    requires w > 0
    ensures w * a - w * p == w * (a - p)
    ensures w * (a - p) > -w ==> a - p >= 0
  {
    if a - p <= -1 { assert w * (a - p) <= w * -1; }
  }

  /** The schedule repeats every W selections. */
  lemma {:induction false} Periodic(e: seq<int>, t: nat)
    requires Weights(e)
    ensures Sum(e) > 0 && At(e, t + Sum(e)) == At(e, t)
  {
    hide Sum, Next, Picks;
    if t == 0 {
      FullRound(e);
    } else {
      Periodic(e, t - 1);
      assert t + Sum(e) - 1 == t - 1 + Sum(e);
    }
  }

  /** Fairness: any W consecutive selections choose each backend exactly its weight many
      times. */
  lemma {:induction false} EveryWindowFair(e: seq<int>, i: nat, from: nat)
    requires Weights(e) && i < |e|
    ensures Sum(e) > 0 && Picks(e, i, from, Sum(e)) == e[i]
  {
    hide Sum, At, Picks;
    if from == 0 {
      FullRound(e);
    } else {
      EveryWindowFair(e, i, from - 1);
      Periodic(e, from - 1);
      WindowShift(e, i, from - 1, Sum(e));
    }
  }

  lemma {:induction false} WindowShift(e: seq<int>, i: nat, from: nat, n: nat)
    requires n > 0
    ensures Picks(e, i, from + 1, n) + (if PickAt(e, from) == i then 1 else 0)
         == Picks(e, i, from, n) + (if PickAt(e, from + n) == i then 1 else 0)
    decreases n
  {
    hide PickAt;
    if n > 1 {
      WindowShift(e, i, from, n - 1);
    }
  }

  /** Number of healthy backends. */
  function Healthy(e: seq<int>): nat {
    if |e| == 0 then 0 else Healthy(e[..|e| - 1]) + (if e[|e| - 1] > 0 then 1 else 0)
  }

  /** If every entry but i is at least -m on the healthy and 0 elsewhere, the sum is at
      least c[i] minus m for each other healthy backend. */
  lemma {:induction false} SumBelow(e: seq<int>, c: seq<int>, m: int, i: int)
    requires |e| == |c| && i < |e| && 0 <= m
    requires forall j :: 0 <= j < |e| ==> (if e[j] > 0 then -m <= c[j] else c[j] == 0)
    ensures 0 <= i && e[i] > 0 ==> Healthy(e) >= 1 && Sum(c) >= c[i] - (Healthy(e) - 1) * m
    ensures i < 0 ==> Sum(c) >= -(Healthy(e) * m)
    decreases |e|
  {
    if |e| > 0 {
      var k := Healthy(e[..|e| - 1]);
      var i' := if i == |e| - 1 then -1 else i;
      SumBelow(e[..|e| - 1], c[..|c| - 1], m, i');
      assert (k + 1) * m == k * m + m;
      if k >= 1 { assert (k - 1) * m + m == k * m; }
    }
  }

  /** With k healthy backends of total weight W, no current weight exceeds (k-1)(W-1). */
  lemma {:induction false} UpperBound(e: seq<int>, t: nat, i: nat)
    requires Weights(e) && i < |e| && e[i] > 0
    ensures Healthy(e) >= 1 && At(e, t)[i] <= (Healthy(e) - 1) * (Sum(e) - 1)
  {
    hide Sum, At, Healthy;
    AtBalanced(e, t);
    SumBelow(e, At(e, t), Sum(e) - 1, i);
  }

  // ---- any health, any run --------------------------------------------------------

  /** The entries of a group of backends; the others count 0. */
  function Masked(c: seq<int>, group: set<nat>): (m: seq<int>)
    ensures |m| == |c| && forall i :: 0 <= i < |m| ==> m[i] == if i in group then c[i] else 0
  {
    seq(|c|, i requires 0 <= i < |c| => if i in group then c[i] else 0)
  }

  /** What a group of backends holds together. */
  function Held(c: seq<int>, group: set<nat>): int {
    Sum(Masked(c, group))
  }

  function Indices(k: nat): (all: set<nat>)
    ensures forall i: nat :: i in all <==> i < k
  {
    if k == 0 then {} else Indices(k - 1) + {k - 1}
  }

  lemma {:induction false} IndexCount(k: nat)
    ensures |Indices(k)| == k
  {
    if k > 0 {
      IndexCount(k - 1);
    }
  }

  lemma {:induction false} HeldWith(c: seq<int>, group: set<nat>, j: nat)
    requires j < |c| && j !in group
    ensures Held(c, group + {j}) == Held(c, group) + c[j]
  {
    hide Sum;
    assert Masked(c, group + {j}) == Masked(c, group)[j := c[j]];
    SumUpdate(Masked(c, group), j, c[j]);
  }

  lemma {:induction false} SumMonotone(a: seq<int>, b: seq<int>)
    requires |a| == |b| && forall i :: 0 <= i < |a| ==> a[i] <= b[i]
    ensures Sum(a) <= Sum(b)
    decreases |a|
  {
    if |a| > 0 { SumMonotone(a[..|a| - 1], b[..|b| - 1]); }
  }

  /** What one selection does to what a group holds. */
  lemma {:induction false} HeldNext(e: seq<int>, c: seq<int>, group: set<nat>)
    requires |e| == |c| && Weights(e)
    ensures Held(Next(e, c), group) == Held(c, group) + Held(e, group) - (if Pick(e, c) in group then Sum(e) else 0)
    ensures 0 <= Held(e, group) <= Sum(e)
  {
    hide Sum, Best;
    PickChosen(e, c);
    var b, v := Pick(e, c), Add(c, e);
    assert Masked(v, group) == Add(Masked(c, group), Masked(e, group));
    SumAdd(Masked(c, group), Masked(e, group));
    if b in group {
      assert Masked(Next(e, c), group) == Masked(v, group)[b := v[b] - Sum(e)];
      SumUpdate(Masked(v, group), b, v[b] - Sum(e));
    } else {
      assert Masked(Next(e, c), group) == Masked(v, group);
    }
    SumMonotone(Masked(e, group), e);
    SumNonNegative(Masked(e, group));
  }

  /** Twice what n of k backends may hold when all weights add up to w. */
  function Cap(w: nat, n: nat, k: nat): int {
    w * (n * (k - n))
  }

  ghost predicate WithinCap(c: seq<int>, w: nat, group: set<nat>) {
    2 * Held(c, group) <= Cap(w, |group|, |c|)
  }

  /** No group of backends holds more than its share allows. */
  ghost predicate Spread(c: seq<int>, w: nat) {
    forall group :: group <= Indices(|c|) ==> WithinCap(c, w, group)
  }

  /** The caps of one backend more and one less leave room for the weight just added. */
  lemma {:induction false} CapsMeet(w: nat, n: nat, k: nat)
    requires 0 < n < k
    ensures Cap(w, n - 1, k) + Cap(w, n + 1, k) + 2 * w == 2 * Cap(w, n, k)
  {
    var p := n * (k - n);
    assert (n - 1) * (k - (n - 1)) == p + 2 * n - k - 1;
    assert (n + 1) * (k - (n + 1)) == p + k - 2 * n - 1;
    assert w * (p + 2 * n - k - 1) + w * (p + k - 2 * n - 1) == w * (2 * p - 2);
  }

  lemma {:induction false} CapNonNegative(w: nat, n: nat, k: nat)
    requires n <= k
    ensures 0 <= Cap(w, n, k)
  {
    assert 0 <= n * (k - n);
  }

  lemma {:induction false} GroupSize(group: set<nat>, k: nat)
    requires group <= Indices(k)
    ensures |group| <= k
  {
    hide Indices;
    IndexCount(k);
    assert Indices(k) == group + (Indices(k) - group);
  }

  /** One selection keeps every group within its cap, whichever backends are healthy.  A
      group without the winner is squeezed between the group with the winner added and the
      group with one raised member taken out. */
  lemma {:induction false} NextWithinCap(e: seq<int>, c: seq<int>, w: nat, group: set<nat>)
    requires |e| == |c| && Weights(e) && Sum(e) <= w && Spread(c, w) && group <= Indices(|c|)
    ensures WithinCap(Next(e, c), w, group)
    decreases |group|
  {
    hide Sum, Best, Next, Held, Cap, Indices;
    PickChosen(e, c);
    HeldNext(e, c, group);
    assert WithinCap(c, w, group);
    var b, v := Pick(e, c), Add(c, e);
    if b !in group && Held(e, group) > 0 {
      var j := RaisedMember(e, group);
      var d := Next(e, c);
      NextAt(e, c, j);
      NextAt(e, c, b);
      assert v[j] <= v[b] && d[j] <= d[b] + Sum(e);
      var less, more := group - {j}, group + {b};
      assert group == less + {j};
      NextWithinCap(e, c, w, less);
      HeldWith(d, less, j);
      HeldWith(d, group, b);
      HeldNext(e, c, more);
      assert WithinCap(c, w, more);
      GroupSize(more, |c|);
      CapsMeet(w, |group|, |c|);
    }
  }

  lemma {:induction false} RaisedMember(e: seq<int>, group: set<nat>) returns (j: nat)
    requires Held(e, group) > 0
    ensures j < |e| && j in group && e[j] > 0
  {
    j := SumPositive(Masked(e, group));
  }

  lemma {:induction false} NextSpread(e: seq<int>, c: seq<int>, w: nat)
    requires |e| == |c| && Weights(e) && Sum(e) <= w && Spread(c, w)
    ensures Spread(Next(e, c), w)
  {
    forall group | group <= Indices(|c|) ensures WithinCap(Next(e, c), w, group) {
      NextWithinCap(e, c, w, group);
    }
  }

  lemma {:induction false} ZerosSpread(k: nat, w: nat)
    ensures Spread(Zeros(k), w)
  {
    forall group | group <= Indices(k) ensures WithinCap(Zeros(k), w, group) {
      assert Masked(Zeros(k), group) == Zeros(k);
      SumZeros(k);
      GroupSize(group, k);
      CapNonNegative(w, |group|, k);
    }
  }

  lemma {:induction false} HeldOne(c: seq<int>, i: nat)
    requires i < |c|
    ensures Held(c, {i}) == c[i] && Held(c, Indices(|c|) - {i}) == Sum(c) - c[i]
  {
    hide Sum, Indices;
    var all, none: set<nat> := Indices(|c|), {};
    assert Masked(c, all) == c;
    assert Masked(c, none) == Zeros(|c|);
    SumZeros(|c|);
    HeldWith(c, none, i);
    assert none + {i} == {i};
    HeldWith(c, all - {i}, i);
    assert all - {i} + {i} == all;
  }

  /** A single weight stays within half of w * (k - 1) of 0, above and below. */
  lemma {:induction false} SpreadEach(c: seq<int>, w: nat, i: nat)
    requires Spread(c, w) && Sum(c) == 0 && i < |c|
    ensures -(w * (|c| - 1)) <= 2 * c[i] <= w * (|c| - 1)
  {
    hide Sum, Indices, Held;
    var k := |c|;
    IndexCount(k);
    HeldOne(c, i);
    assert WithinCap(c, w, {i});
    assert WithinCap(c, w, Indices(k) - {i});
    assert 1 * (k - 1) == k - 1 && (k - 1) * (k - (k - 1)) == k - 1;
  }
}

/** The balancer's backend table and its round-robin selector. */
module Selection {
  import opened Fairness

  const MAX_BACKENDS: nat := 100
  const MAX_BACKEND_WEIGHT: nat := 10000
  const HEALTH_FAILURE_THRESHOLD: nat := 3
  const HEALTH_RECOVERY_SECS: nat := 30

  datatype Backend = Backend(weight: int, current: int, healthy: bool, failures: nat, lastCheck: int)

  ghost predicate WeightsOk(bs: seq<Backend>) {
    forall i :: 0 <= i < |bs| ==> bs[i].weight >= 1
  }

  /** The weights selection works with: unhealthy backends do not take part. */
  function Effective(bs: seq<Backend>): (e: seq<int>)
    ensures |e| == |bs| && forall i :: 0 <= i < |e| ==> e[i] == if bs[i].healthy then bs[i].weight else 0
  {
    seq(|bs|, i requires 0 <= i < |bs| => if bs[i].healthy then bs[i].weight else 0)
  }

  function Currents(bs: seq<Backend>): (c: seq<int>)
    ensures |c| == |bs| && forall i :: 0 <= i < |c| ==> c[i] == bs[i].current
  {
    seq(|bs|, i requires 0 <= i < |bs| => bs[i].current)
  }

  function WithCurrents(bs: seq<Backend>, c: seq<int>): (r: seq<Backend>)
    requires |c| == |bs|
    ensures |r| == |bs| && forall i :: 0 <= i < |r| ==> r[i] == bs[i].(current := c[i])
  {
    seq(|bs|, i requires 0 <= i < |bs| => bs[i].(current := c[i]))
  }

  /** passive_recovery on one backend. */
  function Recovered(b: Backend, now: int): Backend {
    if !b.healthy && now - b.lastCheck >= HEALTH_RECOVERY_SECS then b.(healthy := true, failures := 0) else b
  }

  function AllRecovered(bs: seq<Backend>, now: int): (r: seq<Backend>)
    ensures |r| == |bs| && forall i :: 0 <= i < |r| ==> r[i] == Recovered(bs[i], now)
  {
    seq(|bs|, i requires 0 <= i < |bs| => Recovered(bs[i], now))
  }

  /** backend_round_robin_select as a function: recovery, then one smooth-WRR step. */
  function Selected(bs: seq<Backend>, now: int): (r: (seq<Backend>, int))
  {
    var rs := AllRecovered(bs, now);
    var e := Effective(rs);
    if Sum(e) == 0 then (rs, -1)
    else (WithCurrents(rs, Next(e, Currents(rs))), Pick(e, Currents(rs)))
  }

  /** The table after the winner has paid the total. */
  lemma {:induction false} PaidTotal(rs: seq<Backend>, after: seq<Backend>)
    requires |after| == |rs|
    requires var e, c := Effective(rs), Currents(rs);
             var b := Pick(e, c);
             forall i :: 0 <= i < |rs| ==> after[i] == rs[i].(current := c[i] + e[i] - if i == b then Sum(e) else 0)
    ensures after == WithCurrents(rs, Next(Effective(rs), Currents(rs)))
  {
    hide Sum, Best;
  }

  /** mark_backend_failure. */
  function Failed(b: Backend, now: int): Backend {
    var f := b.failures + 1;
    b.(failures := f, lastCheck := now, healthy := b.healthy && f < HEALTH_FAILURE_THRESHOLD)
  }

  /** mark_backend_success. */
  function Succeeded(b: Backend): Backend {
    if b.failures != 0 || !b.healthy then b.(failures := 0, healthy := true) else b
  }

  class LoadBalancer {
    const backends: array<Backend>
    var count: nat

    ghost predicate Valid()
      reads this, backends
    {
      && backends.Length == MAX_BACKENDS && count <= MAX_BACKENDS
      && WeightsOk(backends[..count])
    }

    ghost function Table(): seq<Backend>
      requires count <= backends.Length
      reads this, backends
    {
      backends[..count]
    }

    constructor ()
      ensures Valid() && fresh(backends) && Table() == []
    {
      backends := new Backend[MAX_BACKENDS](_ => Backend(1, 0, true, 0, 0));
      count := 0;
    }

    /** add_backend: a non-positive weight counts as 1; current weight starts at 0. */
    method AddBackend(weight: int) returns (ok: bool)
      requires Valid()
      modifies this, backends
      ensures Valid()
      ensures ok <==> old(count) < MAX_BACKENDS
      ensures Table() == old(Table()) + (if ok then [Backend(if weight > 0 then weight else 1, 0, true, 0, 0)] else [])
    {
      if count >= MAX_BACKENDS {
        return false;
      }
      backends[count] := Backend(if weight > 0 then weight else 1, 0, true, 0, 0);
      count := count + 1;
      return true;
    }

    /** passive_recovery. */
    method PassiveRecovery(now: int)
      requires Valid()
      modifies backends
      ensures Valid() && Table() == AllRecovered(old(Table()), now)
    {
      for i := 0 to count
        invariant forall j :: 0 <= j < i ==> backends[j] == Recovered(old(backends[j]), now)
        invariant forall j :: i <= j < count ==> backends[j] == old(backends[j])
      {
        if !backends[i].healthy && now - backends[i].lastCheck >= HEALTH_RECOVERY_SECS {
          backends[i] := backends[i].(healthy := true, failures := 0);
        }
      }
    }

    /** The first loop of backend_round_robin_select: the weight of the healthy. */
    method TotalWeight() returns (total: int)
      requires Valid()
      ensures total == Sum(Effective(Table()))
    {
      total := 0;
      for i := 0 to count
        invariant total == Sum(Effective(Table())[..i])
      {
        assert Effective(Table())[..i + 1][..i] == Effective(Table())[..i];
        if backends[i].healthy {
          total := total + backends[i].weight;
        }
      }
      assert Effective(Table())[..count] == Effective(Table());
    }

    /** The second loop: raise every healthy weight and keep the first best. */
    method RaiseAndPick() returns (selected: int)
      requires Valid()
      modifies backends
      ensures Valid()
      ensures selected == Pick(Effective(old(Table())), Currents(old(Table())))
      ensures Table() == WithCurrents(old(Table()), Add(Currents(old(Table())), Effective(old(Table()))))
    {
      hide Sum, Effective, Currents, WithCurrents, Add, Best;
      ghost var e := Effective(Table());
      ghost var v := Add(Currents(Table()), e);
      selected := -1;
      var best := 0;
      for i := 0 to count
        invariant forall j :: 0 <= j < i ==> backends[j] == old(backends[j]).(current := v[j])
        invariant forall j :: i <= j < count ==> backends[j] == old(backends[j])
        invariant selected == Best(e, v, i)
        invariant selected >= 0 ==> best == v[selected]
      {
        BestStep(e, v, i);
        if !backends[i].healthy {
          continue;
        }
        backends[i] := backends[i].(current := backends[i].current + backends[i].weight);
        if selected == -1 || backends[i].current > best {
          best := backends[i].current;
          selected := i;
        }
      }
    }

    /** backend_round_robin_select: NULL (-1) exactly when no backend is healthy. */
    method RoundRobinSelect(now: int) returns (selected: int)
      requires Valid()
      modifies backends
      ensures Valid()
      ensures (Table(), selected) == Selected(old(Table()), now)
    {
      hide Sum, Best, Weights;
      PassiveRecovery(now);
      ghost var rs := Table();
      var total := TotalWeight();
      if total == 0 {
        return -1;
      }
      selected := RaiseAndPick();
      if selected >= 0 {
        backends[selected] := backends[selected].(current := backends[selected].current - total);
      }
      PaidTotal(rs, Table());
    }

    method MarkFailure(i: nat, now: int)
      requires Valid() && i < count
      modifies backends
      ensures Valid() && Table() == old(Table())[i := Failed(old(Table())[i], now)]
    {
      var b := backends[i].(failures := backends[i].failures + 1, lastCheck := now);
      if b.failures >= HEALTH_FAILURE_THRESHOLD {
        b := b.(healthy := false);
      }
      backends[i] := b;
    }

    method MarkSuccess(i: nat)
      requires Valid() && i < count
      modifies backends
      ensures Valid() && Table() == old(Table())[i := Succeeded(old(Table())[i])]
    {
      if backends[i].failures != 0 || !backends[i].healthy {
        backends[i] := backends[i].(failures := 0, healthy := true);
      }
    }
  }

  // ---- runs ------------------------------------------------------------------

  /** Anything that can happen to the table once its backends are registered. */
  datatype Event = Select(now: int) | Failure(backend: nat, now: int) | Success(backend: nat)

  function Step(bs: seq<Backend>, ev: Event): (r: seq<Backend>)
    ensures |r| == |bs|
  {
    match ev
    case Select(now) => Selected(bs, now).0
    case Failure(i, now) => if i < |bs| then bs[i := Failed(bs[i], now)] else bs
    case Success(i) => if i < |bs| then bs[i := Succeeded(bs[i])] else bs
  }

  function RunEvents(bs: seq<Backend>, evs: seq<Event>): (r: seq<Backend>)
    ensures |r| == |bs|
    decreases |evs|
  {
    if |evs| == 0 then bs else Step(RunEvents(bs, evs[..|evs| - 1]), evs[|evs| - 1])
  }

  lemma {:induction false} StepKeepsSum(bs: seq<Backend>, ev: Event)
    requires WeightsOk(bs)
    ensures WeightsOk(Step(bs, ev)) && Sum(Currents(Step(bs, ev))) == Sum(Currents(bs))
  {
    match ev
    case Select(now) =>
      var rs := AllRecovered(bs, now);
      var e := Effective(rs);
      assert Currents(rs) == Currents(bs);
      SumNonNegative(e);
      if Sum(e) != 0 {
        NextKeepsSum(e, Currents(rs));
        assert Currents(Step(bs, ev)) == Next(e, Currents(rs));
      }
    case Failure(i, now) =>
      assert Currents(Step(bs, ev)) == Currents(bs);
    case Success(i) =>
      assert Currents(Step(bs, ev)) == Currents(bs);
  }

  /** In every run, whatever fails and recovers, the current weights of all backends keep
      the sum they started with: 0 for a fresh table. */
  lemma {:induction false} RunKeepsSum(bs: seq<Backend>, evs: seq<Event>)
    requires WeightsOk(bs)
    ensures WeightsOk(RunEvents(bs, evs)) && Sum(Currents(RunEvents(bs, evs))) == Sum(Currents(bs))
    decreases |evs|
  {
    if |evs| > 0 {
      RunKeepsSum(bs, evs[..|evs| - 1]);
      StepKeepsSum(RunEvents(bs, evs[..|evs| - 1]), evs[|evs| - 1]);
    }
  }

  /** n selections during which no backend is due for recovery. */
  function Selections(bs: seq<Backend>, now: seq<int>): (r: seq<Backend>)
    ensures |r| == |bs|
    decreases |now|
  {
    if |now| == 0 then bs else Selected(Selections(bs, now[..|now| - 1]), now[|now| - 1]).0
  }

  ghost predicate NoRecovery(bs: seq<Backend>, now: seq<int>) {
    forall i, t :: 0 <= i < |bs| && 0 <= t < |now| && !bs[i].healthy ==> now[t] - bs[i].lastCheck < HEALTH_RECOVERY_SECS
  }

  /** One selection while no backend is due for recovery. */
  lemma {:induction false} SelectedFixed(bs: seq<Backend>, c: seq<int>, now: int)
    requires |c| == |bs| && Weights(Effective(bs))
    requires forall i :: 0 <= i < |bs| && !bs[i].healthy ==> now - bs[i].lastCheck < HEALTH_RECOVERY_SECS
    ensures Selected(WithCurrents(bs, c), now)
         == (WithCurrents(bs, Next(Effective(bs), c)), Pick(Effective(bs), c))
  {
    hide Sum, Best, Next, Pick;
    var rs := WithCurrents(bs, c);
    assert AllRecovered(rs, now) == rs;
    assert Effective(rs) == Effective(bs);
    assert Currents(rs) == c;
    assert WithCurrents(rs, Next(Effective(bs), c)) == WithCurrents(bs, Next(Effective(bs), c));
  }

  /** The table's selector follows the schedule of the theory: with health fixed, from the
      all-zero state, its current weights after n selections are At(e, n). */
  lemma {:induction false} SelectionsFollow(bs: seq<Backend>, now: seq<int>)
    requires WeightsOk(bs) && Weights(Effective(bs)) && NoRecovery(bs, now)
    requires Currents(bs) == Zeros(|bs|)
    ensures Selections(bs, now) == WithCurrents(bs, At(Effective(bs), |now|))
    decreases |now|
  {
    hide Selected, Next, Weights;
    var e := Effective(bs);
    if |now| == 0 {
      assert WithCurrents(bs, At(e, 0)) == bs;
    } else {
      SelectionsFollow(bs, now[..|now| - 1]);
      SelectedFixed(bs, At(e, |now| - 1), now[|now| - 1]);
    }
  }

  /** Which backend the next selection returns in such a run. */
  lemma {:induction false} SelectionsPick(bs: seq<Backend>, now: seq<int>, next: int)
    requires WeightsOk(bs) && Weights(Effective(bs)) && NoRecovery(bs, now + [next])
    requires Currents(bs) == Zeros(|bs|)
    ensures Selected(Selections(bs, now), next).1 == PickAt(Effective(bs), |now|)
  {
    assert NoRecovery(bs, now) by {
      forall i, t | 0 <= i < |bs| && 0 <= t < |now| && !bs[i].healthy
        ensures now[t] - bs[i].lastCheck < HEALTH_RECOVERY_SECS
      {
        assert (now + [next])[t] == now[t];
      }
    }
    SelectionsFollow(bs, now);
    assert (now + [next])[|now|] == next;
    SelectedFixed(bs, At(Effective(bs), |now|), next);
  }

  function AllWeights(bs: seq<Backend>): (w: seq<int>)
    ensures |w| == |bs| && forall i :: 0 <= i < |w| ==> w[i] == bs[i].weight
  {
    seq(|bs|, i requires 0 <= i < |bs| => bs[i].weight)
  }

  lemma {:induction false} StepSpread(bs: seq<Backend>, ev: Event, w: nat)
    requires WeightsOk(bs) && Sum(AllWeights(bs)) <= w && Spread(Currents(bs), w)
    ensures AllWeights(Step(bs, ev)) == AllWeights(bs) && Spread(Currents(Step(bs, ev)), w)
  {
    hide Spread, Sum, Next, Pick;
    match ev
    case Select(now) =>
      var rs := AllRecovered(bs, now);
      var e := Effective(rs);
      assert Currents(rs) == Currents(bs);
      SumNonNegative(e);
      SumMonotone(e, AllWeights(bs));
      if Sum(e) != 0 {
        NextSpread(e, Currents(rs), w);
        assert Currents(Step(bs, ev)) == Next(e, Currents(rs));
      }
    case Failure(i, now) =>
      assert Currents(Step(bs, ev)) == Currents(bs);
    case Success(i) =>
      assert Currents(Step(bs, ev)) == Currents(bs);
  }

  /** In every run from a fresh table, whatever fails and recovers, no group of n of the k
      backends together holds more than half of W * n * (k - n). */
  lemma {:induction false} RunSpread(bs: seq<Backend>, evs: seq<Event>)
    requires WeightsOk(bs) && Currents(bs) == Zeros(|bs|)
    ensures Sum(AllWeights(bs)) >= 0 && AllWeights(RunEvents(bs, evs)) == AllWeights(bs)
    ensures Spread(Currents(RunEvents(bs, evs)), Sum(AllWeights(bs)))
    decreases |evs|
  {
    hide Spread, Sum, Step;
    SumNonNegative(AllWeights(bs));
    if |evs| == 0 {
      ZerosSpread(|bs|, Sum(AllWeights(bs)));
    } else {
      RunSpread(bs, evs[..|evs| - 1]);
      RunKeepsSum(bs, evs[..|evs| - 1]);
      StepSpread(RunEvents(bs, evs[..|evs| - 1]), evs[|evs| - 1], Sum(AllWeights(bs)));
    }
  }

  /** Within the configured limits (at most 100 backends of weight at most 10000) every
      current weight of every run, even just raised or charged with the total, stays far
      from 32-bit overflow. */
  lemma {:induction false} NoOverflow(bs: seq<Backend>, evs: seq<Event>, i: nat)
    requires |bs| <= MAX_BACKENDS && WeightsOk(bs) && Currents(bs) == Zeros(|bs|) && i < |bs|
    requires forall j :: 0 <= j < |bs| ==> bs[j].weight <= MAX_BACKEND_WEIGHT
    ensures var c, w := RunEvents(bs, evs)[i].current, Sum(AllWeights(bs));
            -0x8000_0000 < c - w && c + w < 0x8000_0000
  {
    hide Spread, Sum, Step;
    var k, w := |bs|, Sum(AllWeights(bs));
    RunSpread(bs, evs);
    RunKeepsSum(bs, evs);
    SumZeros(k);
    SpreadEach(Currents(RunEvents(bs, evs)), w, i);
    SumAtMost(AllWeights(bs), MAX_BACKEND_WEIGHT);
    ProductAtMost(k - 1, w);
  }

  lemma {:induction false} ProductAtMost(a: nat, b: nat)
    requires a <= 99 && b <= 1_000_000
    ensures b * a <= 99_000_000
  {
    assert b * a <= b * 99;
  }

  lemma {:induction false} SumAtMost(s: seq<int>, m: nat)
    requires forall i :: 0 <= i < |s| ==> s[i] <= m
    ensures Sum(s) <= |s| * m
  {
    if |s| > 0 { SumAtMost(s[..|s| - 1], m); }
  }

  // ---- in and out of rotation -----------------------------------------------------

  /** What selection does to the health of a backend is passive recovery. */
  lemma {:induction false} SelectHealth(bs: seq<Backend>, now: int, i: nat)
    requires i < |bs|
    ensures var b, r := Selected(bs, now).0[i], Recovered(bs[i], now);
            b.healthy == r.healthy && b.failures == r.failures && b.lastCheck == r.lastCheck && b.weight == r.weight
  {
    hide Sum, Next, Pick;
  }

  /** A backend is returned only if it is in rotation or its last failure is 30 seconds old, and
      none is returned exactly when there is no such backend. */
  lemma {:induction false} OutNotSelected(bs: seq<Backend>, now: int, i: nat)
    requires WeightsOk(bs) && i < |bs|
    ensures Selected(bs, now).1 == i ==> bs[i].healthy || now >= bs[i].lastCheck + 30
    ensures Selected(bs, now).1 == -1 ==> !bs[i].healthy && now < bs[i].lastCheck + 30
    ensures -1 <= Selected(bs, now).1 < |bs|
  {
    hide Sum, Best;
    var rs := AllRecovered(bs, now);
    var e := Effective(rs);
    SumNonNegative(e);
    if Sum(e) != 0 { PickChosen(e, Currents(rs)); }
  }

  /** The failures of backend i in a row at the end of the events, f before them. */
  function Streak(evs: seq<Event>, i: nat, f: nat): nat {
    if |evs| == 0 then f
    else
      var s := Streak(evs[..|evs| - 1], i, f);
      match evs[|evs| - 1]
      case Failure(b, _) => if b == i then s + 1 else s
      case Success(b) => if b == i then 0 else s
      case Select(_) => s
  }

  /** No selection comes 30 seconds or more after an earlier failure of backend i. */
  ghost predicate NoneDue(evs: seq<Event>, i: nat) {
    forall a, b :: 0 <= b < a < |evs| && evs[a].Select? && evs[b].Failure? && evs[b].backend == i
                   ==> evs[a].now < evs[b].now + 30
  }

  /** A backend is taken out by its third failure in a row, no sooner and no later, and a
      success puts it back. */
  lemma {:induction false} OutByThree(bs: seq<Backend>, evs: seq<Event>, i: nat)
    requires i < |bs| && bs[i].healthy && bs[i].failures < 3 && NoneDue(evs, i)
    ensures var b, n := RunEvents(bs, evs)[i], Streak(evs, i, bs[i].failures);
            b.failures == n && (b.healthy <==> n < 3)
    ensures var b := RunEvents(bs, evs)[i];
            !b.healthy ==> exists j :: 0 <= j < |evs| && evs[j] == Failure(i, b.lastCheck)
    decreases |evs|
  {
    hide Selected;
    if |evs| > 0 {
      var front, last := evs[..|evs| - 1], evs[|evs| - 1];
      OutByThree(bs, front, i);
      var b := RunEvents(bs, front)[i];
      if last.Select? {
        SelectHealth(RunEvents(bs, front), last.now, i);
        if !b.healthy {
          var j :| 0 <= j < |front| && front[j] == Failure(i, b.lastCheck);
          assert evs[j] == Failure(i, b.lastCheck);
        }
      } else if last.Failure? && last.backend == i {
        assert evs[|evs| - 1] == Failure(i, last.now);
      } else if !b.healthy {
        var j :| 0 <= j < |front| && front[j] == Failure(i, b.lastCheck);
        assert evs[j] == Failure(i, b.lastCheck);
      }
    }
  }

  /** This event puts a backend back whose last failure was at `since`. */
  predicate Readmits(ev: Event, i: nat, since: int) {
    ev == Success(i) || (ev.Select? && ev.now >= since + 30)
  }

  /** A backend that is out comes back, its failures forgotten, exactly by a success or by a
      selection 30 seconds after its last failure. */
  lemma {:induction false} BackIn(bs: seq<Backend>, evs: seq<Event>, i: nat)
    requires i < |bs| && !bs[i].healthy
    requires forall j :: 0 <= j < |evs| && evs[j].Failure? ==> evs[j].backend != i
    ensures var b := RunEvents(bs, evs)[i];
            && (b.healthy <==> exists j :: 0 <= j < |evs| && Readmits(evs[j], i, bs[i].lastCheck))
            && (if b.healthy then b.failures == 0 else b.failures == bs[i].failures)
            && b.lastCheck == bs[i].lastCheck
    decreases |evs|
  {
    hide Selected;
    if |evs| > 0 {
      var front, last := evs[..|evs| - 1], evs[|evs| - 1];
      assert forall j :: 0 <= j < |front| ==> front[j] == evs[j];
      BackIn(bs, front, i);
      if last.Select? { SelectHealth(RunEvents(bs, front), last.now, i); }
      assert (exists j :: 0 <= j < |evs| && Readmits(evs[j], i, bs[i].lastCheck)) <==>
             (exists j :: 0 <= j < |front| && Readmits(front[j], i, bs[i].lastCheck))
             || Readmits(last, i, bs[i].lastCheck)
      by {
        if j :| 0 <= j < |front| && Readmits(front[j], i, bs[i].lastCheck) {
          assert Readmits(evs[j], i, bs[i].lastCheck);
        }
      }
    }
  }
}
