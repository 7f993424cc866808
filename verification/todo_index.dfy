/** The keys of the todo namespace (api/src/todo_index.c): rows under a bare decimal id,
    index entries under idx:user:<uid>:<id> with both ids padded to 20 digits. */
module IndexKeys {
  import opened Common
  import opened Keys
  import opened Decimal

  const INDEX_ID_WIDTH: nat := 20
  const SEPARATOR: Byte := 58
  const INDEX_PREFIX: Bytes := Ascii("idx:user:")
  const INDEX_KEY_LEN: nat := 9 + INDEX_ID_WIDTH + 1 + INDEX_ID_WIDTH

  type Id = n: nat | n <= UINT64_MAX

  function RowKey(id: Id): Key {
    Show(id)
  }

  /** The digits from i on, with `id` read so far; None on a non-digit or past 64 bits. */
  function ParseDigits(key: Key, i: nat, id: Id): (r: Option<Id>)
    requires i <= |key|
    decreases |key| - i
  {
    if i == |key| then Some(id)
    else if !IsDigit(key[i]) then None
    else if id > (UINT64_MAX - Digit(key[i])) / 10 then None
    else ParseDigits(key, i + 1, id * 10 + Digit(key[i]))
  }

  /** todo_row_key_parse. */
  function RowId(key: Key): Option<Id> {
    if |key| == 0 || |key| > INDEX_ID_WIDTH then None else ParseDigits(key, 0, 0)
  }

  function UserPrefix(user: Id): Key {
    INDEX_PREFIX + (Pad(user, INDEX_ID_WIDTH) + [SEPARATOR])
  }

  function IndexKey(user: Id, id: Id): Key {
    UserPrefix(user) + Pad(id, INDEX_ID_WIDTH)
  }

  /** todo_index_key_parse. */
  function IndexIds(key: Key): Option<(Id, Id)> {
    if |key| != INDEX_KEY_LEN || key[..9] != INDEX_PREFIX || key[29] != SEPARATOR then None
    else
      match (RowId(key[9..29]), RowId(key[30..]))
      case (Some(u), Some(t)) => Some((u, t))
      case _ => None
  }

  method ParseRowKey(key: Key) returns (r: Option<Id>)
    ensures r == RowId(key)
  {
    if |key| == 0 || |key| > INDEX_ID_WIDTH {
      return None;
    }
    var id: Id := 0;
    for i := 0 to |key|
      invariant ParseDigits(key, i, id) == ParseDigits(key, 0, 0)
    {
      if !IsDigit(key[i]) {
        return None;
      }
      if id > (UINT64_MAX - Digit(key[i])) / 10 {
        return None;
      }
      id := id * 10 + Digit(key[i]);
    }
    return Some(id);
  }

  // ---- parsing ---------------------------------------------------------------------------------

  /** Reading digits gives their value, exactly when it fits 64 bits. */
  lemma {:induction false} ParseIsNumber(key: Key, i: nat)
    requires i <= |key| && AllDigits(key) && Number(key[..i]) <= UINT64_MAX
    ensures ParseDigits(key, i, Number(key[..i])) == if Number(key) <= UINT64_MAX then Some(Number(key)) else None
    decreases |key| - i
  {
    if i < |key| {
      var n := Number(key[..i]);
      assert key[..i + 1][..i] == key[..i];
      PrefixBelow(key, i + 1);
      if n <= (UINT64_MAX - Digit(key[i])) / 10 { ParseIsNumber(key, i + 1); }
    } else {
      assert key[..i] == key;
    }
  }

  lemma {:induction false} ParseNeedsDigits(key: Key, i: nat, id: Id)
    requires i <= |key| && ParseDigits(key, i, id).Some?
    ensures forall j :: i <= j < |key| ==> IsDigit(key[j])
    decreases |key| - i
  {
    if i < |key| { ParseNeedsDigits(key, i + 1, id * 10 + Digit(key[i])); }
  }

  /** What is a row id: one to twenty digits with a 64-bit value. */
  lemma {:induction false} RowIdIs(key: Key)
    ensures RowId(key).Some? <==> 0 < |key| <= INDEX_ID_WIDTH && AllDigits(key) && Number(key) <= UINT64_MAX
    ensures RowId(key).Some? ==> RowId(key).value == Number(key)
  {
    if 0 < |key| <= INDEX_ID_WIDTH {
      if ParseDigits(key, 0, 0).Some? { ParseNeedsDigits(key, 0, 0); }
      assert key[..0] == [];
      if AllDigits(key) { ParseIsNumber(key, 0); }
    }
  }

  lemma {:induction false} WidthFits(n: Id)
    ensures n < Pow(10, INDEX_ID_WIDTH)
  {
    assert Pow(10, 10) == 10_000_000_000;
    assert Pow(10, 20) == 10 * (10 * (10 * (10 * (10 * (10 * (10 * (10 * (10 * (10 * Pow(10, 10))))))))));
  }

  /** Row keys parse back. */
  lemma {:induction false} RowKeyParses(id: Id)
    ensures RowId(RowKey(id)) == Some(id)
  {
    WidthFits(id);
    ShowLength(id, INDEX_ID_WIDTH);
    NumberShow(id);
    RowIdIs(RowKey(id));
  }

  lemma {:induction false} PadParses(id: Id)
    ensures RowId(Pad(id, INDEX_ID_WIDTH)) == Some(id)
  {
    WidthFits(id);
    NumberPad(id, INDEX_ID_WIDTH);
    RowIdIs(Pad(id, INDEX_ID_WIDTH));
  }

  lemma {:induction false} IndexKeyPieces(user: Id, id: Id)
    ensures var k := IndexKey(user, id);
            && |k| == INDEX_KEY_LEN && k[..9] == INDEX_PREFIX && k[29] == SEPARATOR
            && k[9..29] == Pad(user, INDEX_ID_WIDTH) && k[30..] == Pad(id, INDEX_ID_WIDTH)
  {
    hide Pad, INDEX_PREFIX;
    assert |INDEX_PREFIX| == 9 by { PrefixLength(); }
  }

  lemma {:induction false} PrefixLength()
    ensures |INDEX_PREFIX| == 9 && !IsDigit(INDEX_PREFIX[0])
  {
    assert INDEX_PREFIX[0] == 105;
  }

  /** Index keys parse back, and only they parse: the two ids determine the key. */
  lemma {:induction false} IndexKeyParses(user: Id, id: Id, key: Key)
    ensures IndexIds(IndexKey(user, id)) == Some((user, id))
    ensures IndexIds(key) == Some((user, id)) ==> key == IndexKey(user, id)
  {
    hide Pad, RowId, INDEX_PREFIX;
    IndexKeyPieces(user, id);
    PadParses(user);
    PadParses(id);
    if IndexIds(key) == Some((user, id)) {
      PadOfRowId(key[9..29]);
      PadOfRowId(key[30..]);
      assert key == key[..9] + key[9..29] + [key[29]] + key[30..];
      assert IndexKey(user, id) == INDEX_PREFIX + Pad(user, INDEX_ID_WIDTH) + [SEPARATOR] + Pad(id, INDEX_ID_WIDTH);
    }
  }

  lemma {:induction false} PadOfRowId(d: Key)
    requires |d| == INDEX_ID_WIDTH && RowId(d).Some?
    ensures Pad(RowId(d).value, INDEX_ID_WIDTH) == d
  {
    RowIdIs(d);
    PadNumber(d);
  }

  /** No key is both a row and an index entry. */
  lemma {:induction false} RowsAreNotEntries(key: Key)
    ensures !(RowId(key).Some? && IndexIds(key).Some?)
  {
    PrefixLength();
    RowIdIs(key);
    if IndexIds(key).Some? { assert key[0] == key[..9][0]; }
  }

  // ---- order --------------------------------------------------------------------------------------

  /** Equally long fronts decide first. */
  lemma {:induction false} LtConcat(a: Key, b: Key, x: Key, y: Key)
    requires |a| == |b|
    ensures Lt(a + x, b + y) <==> Lt(a, b) || (a == b && Lt(x, y))
  {
    if |a| == 0 {
      assert a + x == x && b + y == y;
    } else {
      assert (a + x)[1..] == a[1..] + x && (b + y)[1..] == b[1..] + y;
      LtConcat(a[1..], b[1..], x, y);
      assert a == [a[0]] + a[1..] && b == [b[0]] + b[1..];
    }
  }

  /** Padded numbers order bytewise as numbers. */
  lemma {:induction false} PadOrder(a: nat, b: nat, k: nat)
    requires a < Pow(10, k) && b < Pow(10, k)
    ensures Lt(Pad(a, k), Pad(b, k)) <==> a < b
    ensures Pad(a, k) == Pad(b, k) <==> a == b
  {
    if k > 0 {
      PadOrder(a / 10, b / 10, k - 1);
      var x, y := [DigitByte(a % 10)], [DigitByte(b % 10)];
      LtConcat(Pad(a / 10, k - 1), Pad(b / 10, k - 1), x, y);
      assert Lt(x, y) <==> a % 10 < b % 10;
      assert Pad(a, k)[..k - 1] == Pad(a / 10, k - 1) && Pad(b, k)[..k - 1] == Pad(b / 10, k - 1);
      assert Pad(a, k)[k - 1] == DigitByte(a % 10) && Pad(b, k)[k - 1] == DigitByte(b % 10);
    }
  }

  /** The bytewise order of index keys is the numeric order of (user, id). */
  lemma {:induction false} IndexOrder(u: Id, i: Id, v: Id, j: Id)
    ensures Lt(IndexKey(u, i), IndexKey(v, j)) <==> u < v || (u == v && i < j)
    ensures IndexKey(u, i) == IndexKey(v, j) <==> u == v && i == j
  {
    hide Pad, INDEX_PREFIX, Lt;
    var a, b := Pad(u, INDEX_ID_WIDTH), Pad(v, INDEX_ID_WIDTH);
    var x, y := Pad(i, INDEX_ID_WIDTH), Pad(j, INDEX_ID_WIDTH);
    WidthFits(u);
    WidthFits(v);
    WidthFits(i);
    WidthFits(j);
    PadOrder(u, v, INDEX_ID_WIDTH);
    PadOrder(i, j, INDEX_ID_WIDTH);
    assert IndexKey(u, i) == INDEX_PREFIX + (a + ([SEPARATOR] + x));
    assert IndexKey(v, j) == INDEX_PREFIX + (b + ([SEPARATOR] + y));
    LtConcat(INDEX_PREFIX, INDEX_PREFIX, a + ([SEPARATOR] + x), b + ([SEPARATOR] + y));
    LtConcat(a, b, [SEPARATOR] + x, [SEPARATOR] + y);
    LtConcat([SEPARATOR], [SEPARATOR], x, y);
    NotBelowItself(INDEX_PREFIX);
    NotBelowItself([SEPARATOR]);
    IndexKeyParses(u, i, IndexKey(u, i));
    IndexKeyParses(v, j, IndexKey(v, j));
  }

  lemma {:induction false} NotBelowItself(a: Key)
    ensures !Lt(a, a)
  {
    RankOrders(a, a);
  }

  /** One user's prefix selects that user's keys and no other's. */
  lemma {:induction false} PrefixSelects(u: Id, v: Id, i: Id)
    ensures UserPrefix(u) <= IndexKey(v, i) <==> u == v
  {
    hide Pad, INDEX_PREFIX;
    PrefixLength();
    IndexKeyPieces(v, i);
    WidthFits(u);
    WidthFits(v);
    PadOrder(u, v, INDEX_ID_WIDTH);
    var p, k := UserPrefix(u), IndexKey(v, i);
    assert |p| == 30 && p[9..29] == Pad(u, INDEX_ID_WIDTH);
    if p <= k { assert k[9..29] == k[..30][9..29] == p[9..29]; }
  }
}
