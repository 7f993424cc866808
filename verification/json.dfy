/** The flat JSON objects todos are stored as (common/src/json_util.c and build_todo_json in
    api/src/todo_handlers.c). */
module Json {
  import opened Common
  import opened Decimal

  const QUOTE: Byte := 34
  const COMMA: Byte := 44
  const COLON: Byte := 58
  const QUESTION: Byte := 63
  const BACKSLASH: Byte := 92

  // ---- escaping ------------------------------------------------------------------------------

  predicate Control(c: Byte) {
    c < 32 && c != 9 && c != 10 && c != 13
  }

  function EscapeByte(c: Byte): (e: Bytes)
    ensures 1 <= |e| <= 6
  {
    if c == QUOTE then [BACKSLASH, QUOTE]
    else if c == BACKSLASH then [BACKSLASH, BACKSLASH]
    else if c == 10 then [BACKSLASH, 110]
    else if c == 13 then [BACKSLASH, 114]
    else if c == 9 then [BACKSLASH, 116]
    else if c < 32 then [BACKSLASH, 117, 48, 48, HexByte(c / 16), HexByte(c % 16)]
    else [c]
  }

  function Escape(t: Bytes): Bytes {
    if |t| == 0 then [] else EscapeByte(t[0]) + Escape(t[1..])
  }

  /** Text without quotes, backslashes and control bytes is written as it is. */
  lemma {:induction false} EscapePlain(t: Bytes)
    requires forall i :: 0 <= i < |t| ==> t[i] >= 32 && t[i] != QUOTE && t[i] != BACKSLASH
    ensures Escape(t) == t
  {
    if |t| > 0 {
      EscapePlain(t[1..]);
      assert t == [t[0]] + t[1..];
    }
  }

  lemma {:induction false} EscapeAppend(t: Bytes, c: Byte)
    ensures Escape(t + [c]) == Escape(t) + EscapeByte(c)
  {
    if |t| > 0 {
      assert (t + [c])[1..] == t[1..] + [c];
      EscapeAppend(t[1..], c);
    } else {
      assert (t + [c])[1..] == [];
    }
  }

  lemma {:induction false} EscapeGrows(t: Bytes, n: nat)
    requires n <= |t|
    ensures |Escape(t[..n])| <= |Escape(t)|
    decreases |t|
  {
    if n < |t| {
      var front := t[..|t| - 1];
      assert t == front + [t[|t| - 1]] && front[..n] == t[..n];
      EscapeAppend(front, t[|t| - 1]);
      EscapeGrows(front, n);
    } else {
      assert t[..n] == t;
    }
  }

  /** json_escape: the length written before the final NUL, -1 when it does not fit. */
  method JsonEscape(dst: array<Byte>, src: Bytes) returns (n: int)
    modifies dst
    ensures n == if |Escape(src)| < dst.Length then |Escape(src)| else -1
    ensures n != -1 ==> dst[..n] == Escape(src) && dst[n] == 0
  {
    var out := 0;
    for i := 0 to |src|
      invariant 0 <= out == |Escape(src[..i])| && (out < dst.Length || i == 0)
      invariant out <= dst.Length && dst[..out] == Escape(src[..i])
    {
      assert src[..i + 1] == src[..i] + [src[i]];
      EscapeAppend(src[..i], src[i]);
      EscapeGrows(src, i + 1);
      var rep := EscapeByte(src[i]);
      if out + |rep| >= dst.Length {
        return -1;
      }
      CopyInto(dst, out, rep);
      out := out + |rep|;
    }
    assert src[..|src|] == src;
    if out >= dst.Length {
      return -1;
    }
    dst[out] := 0;
    return out;
  }

  // ---- finding a field -------------------------------------------------------------------------

  predicate IsWs(b: Byte) {
    b == 32 || b == 9 || b == 10 || b == 13
  }

  function SkipWs(b: Bytes, p: nat): (r: nat)
    requires p <= |b|
    ensures p <= r <= |b|
    decreases |b| - p
  {
    if p < |b| && IsWs(b[p]) then SkipWs(b, p + 1) else p
  }

  /** The closing quote of the string whose first byte is at q, |b| when there is none. */
  function StringEnd(b: Bytes, q: nat): (r: nat)
    requires q <= |b|
    ensures q <= r <= |b|
    decreases |b| - q
  {
    if q == |b| || b[q] == QUOTE then q
    else if b[q] == BACKSLASH && q + 1 < |b| then StringEnd(b, q + 2)
    else StringEnd(b, q + 1)
  }

  /** json_find_field from p on: where the value of the field starts. */
  function FindField(b: Bytes, p: nat, field: Bytes): (r: Option<nat>)
    requires p <= |b|
    ensures r.Some? ==> r.value <= |b|
    decreases |b| - p
  {
    if p == |b| then None
    else if b[p] != QUOTE then FindField(b, p + 1, field)
    else
      var q := StringEnd(b, p + 1);
      if q == |b| then None
      else
        var after := SkipWs(b, q + 1);
        if after < |b| && b[after] == COLON && b[p + 1..q] == field then Some(SkipWs(b, after + 1))
        else FindField(b, q + 1, field)
  }

  // ---- reading values ----------------------------------------------------------------------------

  /** What the byte after a backslash stands for, "u" apart. */
  function Unescaped(e: Byte): Byte {
    if e == 110 then 10 else if e == 114 then 13 else if e == 116 then 9
    else if e == 98 then 8 else if e == 102 then 12 else e
  }

  /** The string whose bytes start at p, with `acc` already read; None when unterminated. */
  function ReadString(b: Bytes, p: nat, acc: Bytes): (r: Option<Bytes>)
    requires p <= |b|
    ensures r.Some? ==> |acc| <= |r.value|
    decreases |b| - p
  {
    if p == |b| then None
    else if b[p] == QUOTE then Some(acc)
    else if b[p] == BACKSLASH && p + 1 < |b| then
      if b[p + 1] == 117 then ReadString(b, if p + 5 < |b| then p + 6 else p + 2, acc + [QUESTION])
      else ReadString(b, p + 2, acc + [Unescaped(b[p + 1])])
    else ReadString(b, p + 1, acc + [b[p]])
  }

  /** json_get_string. */
  function GetString(b: Bytes, field: Bytes, outSize: nat): Option<Bytes> {
    match FindField(b, 0, field)
    case None => None
    case Some(p) =>
      if p == |b| || b[p] != QUOTE then None
      else
        match ReadString(b, p + 1, [])
        case Some(v) => if |v| < outSize then Some(v) else None
        case None => None
  }

  /** json_get_bool. */
  function GetBool(b: Bytes, field: Bytes): Option<bool> {
    match FindField(b, 0, field)
    case None => None
    case Some(p) =>
      if Ascii("true") <= b[p..] then Some(true)
      else if Ascii("false") <= b[p..] then Some(false)
      else None
  }

  /** The digits from p on, in 64-bit arithmetic. */
  function ReadNumber(b: Bytes, p: nat, value: nat): (r: nat)
    requires p <= |b| && value <= UINT64_MAX
    ensures r <= UINT64_MAX
    decreases |b| - p
  {
    if p < |b| && IsDigit(b[p]) then ReadNumber(b, p + 1, (value * 10 + Digit(b[p])) % (UINT64_MAX + 1)) else value
  }

  /** json_get_uint64. */
  function GetUint64(b: Bytes, field: Bytes): (r: Option<nat>)
    ensures r.Some? ==> r.value <= UINT64_MAX
  {
    match FindField(b, 0, field)
    case None => None
    case Some(p) => if p == |b| || !IsDigit(b[p]) then None else Some(ReadNumber(b, p, 0))
  }

  // ---- the scanning loops ------------------------------------------------------------------------

  method JsonFindField(b: Bytes, field: Bytes) returns (r: Option<nat>)
    ensures r == FindField(b, 0, field)
  {
    hide SkipWs;
    var p := 0;
    while p < |b|
      invariant 0 <= p <= |b| && FindField(b, p, field) == FindField(b, 0, field)
    {
      if b[p] != QUOTE {
        p := p + 1;
      } else {
        var q := p + 1;
        while q < |b| && b[q] != QUOTE
          invariant p < q <= |b| && StringEnd(b, q) == StringEnd(b, p + 1)
        {
          if b[q] == BACKSLASH && q + 1 < |b| {
            q := q + 1;
          }
          q := q + 1;
        }
        if q >= |b| {
          return None;
        }
        var after := SkipWs(b, q + 1);
        if after < |b| && b[after] == COLON {
          if b[p + 1..q] == field {
            return Some(SkipWs(b, after + 1));
          }
        }
        p := q + 1;
      }
    }
    return None;
  }

  method JsonGetString(b: Bytes, field: Bytes, out: array<Byte>) returns (ok: bool, n: nat)
    requires out.Length > 0
    modifies out
    ensures ok <==> GetString(b, field, out.Length).Some?
    ensures ok ==> n < out.Length && out[..n] == GetString(b, field, out.Length).value && out[n] == 0
  {
    hide FindField;
    var start := JsonFindField(b, field);
    if start == None || start.value >= |b| || b[start.value] != QUOTE {
      return false, 0;
    }
    var p := start.value + 1;
    n := 0;
    while p < |b| && b[p] != QUOTE
      invariant start.value < p <= |b| && n < out.Length
      invariant ReadString(b, p, out[..n]) == ReadString(b, start.value + 1, [])
    {
      var c := b[p];
      if c == BACKSLASH && p + 1 < |b| {
        p := p + 1;
        c := if b[p] == 117 then QUESTION else Unescaped(b[p]);
        if b[p] == 117 && p + 4 < |b| {
          p := p + 4;
        }
      }
      if n + 1 >= out.Length {
        return false, 0;
      }
      ghost var was := out[..n];
      out[n] := c;
      assert out[..n + 1] == was + [c];
      n := n + 1;
      p := p + 1;
    }
    if p >= |b| {
      return false, 0;
    }
    out[n] := 0;
    return true, n;
  }

  method JsonGetUint64(b: Bytes, field: Bytes) returns (r: Option<nat>)
    ensures r == GetUint64(b, field)
  {
    hide FindField;
    var start := JsonFindField(b, field);
    if start == None || start.value >= |b| || !IsDigit(b[start.value]) {
      return None;
    }
    var p, value := start.value, 0;
    while p < |b| && IsDigit(b[p])
      invariant start.value <= p <= |b| && 0 <= value <= UINT64_MAX
      invariant ReadNumber(b, p, value) == ReadNumber(b, start.value, 0)
    {
      value := (value * 10 + Digit(b[p])) % (UINT64_MAX + 1);
      p := p + 1;
    }
    return Some(value);
  }
}

/** What is written in a todo row is what is read from it. */
module TodoRow {
  import opened Common
  import opened Decimal
  import opened Json

  const MAX_VALUE_SIZE: nat := 1024

  ghost predicate At(b: Bytes, p: nat, s: Bytes) {
    p + |s| <= |b| && b[p..p + |s|] == s
  }

  lemma {:induction false} AtBytes(b: Bytes, p: nat, s: Bytes)
    requires At(b, p, s)
    ensures forall j {:trigger s[j]} :: 0 <= j < |s| ==> b[p + j] == s[j]
  {
    assert forall j {:trigger s[j]} :: 0 <= j < |s| ==> b[p + j] == b[p..p + |s|][j];
  }

  lemma {:induction false} AtSplit(b: Bytes, p: nat, s: Bytes, t: Bytes)
    requires At(b, p, s + t)
    ensures At(b, p, s) && At(b, p + |s|, t)
  {
    assert b[p..p + |s|] == b[p..p + |s + t|][..|s|];
    assert b[p + |s|..p + |s| + |t|] == b[p..p + |s + t|][|s|..];
  }

  // ---- walking over the pieces of a row ------------------------------------------------------------

  /** Bytes without a quote are walked over. */
  lemma {:induction false} OverPlain(b: Bytes, p: nat, s: Bytes, f: Bytes)
    requires At(b, p, s) && QUOTE !in s
    ensures FindField(b, p, f) == FindField(b, p + |s|, f)
    decreases |s|
  {
    if |s| > 0 {
      AtSplit(b, p, s[..1], s[1..]) by { assert s == s[..1] + s[1..]; }
      AtBytes(b, p, s);
      assert s[0] in s && b[p + 0] == s[0];
      OverPlain(b, p + 1, s[1..], f);
    }
  }

  lemma {:induction false} PlainEnd(b: Bytes, q: nat, s: Bytes)
    requires At(b, q, s + [QUOTE]) && QUOTE !in s && BACKSLASH !in s
    ensures StringEnd(b, q) == q + |s|
    decreases |s|
  {
    AtBytes(b, q, s + [QUOTE]);
    if |s| > 0 {
      assert s[0] in s && (s + [QUOTE])[0] == s[0] && b[q + 0] == s[0];
      assert s + [QUOTE] == [s[0]] + (s[1..] + [QUOTE]);
      AtSplit(b, q, [s[0]], s[1..] + [QUOTE]);
      PlainEnd(b, q + 1, s[1..]);
    } else {
      assert (s + [QUOTE])[0] == QUOTE && b[q + 0] == QUOTE;
    }
  }

  function Key(k: Bytes): Bytes {
    [QUOTE] + k + [QUOTE, COLON]
  }

  /** At a key, the search stops exactly when it is the key asked for. */
  lemma {:induction false} AtKey(b: Bytes, p: nat, k: Bytes, f: Bytes)
    requires At(b, p, Key(k)) && QUOTE !in k && BACKSLASH !in k
    ensures FindField(b, p, f) == if k == f then Some(SkipWs(b, p + |k| + 3)) else FindField(b, p + |k| + 3, f)
  {
    var s := Key(k);
    AtBytes(b, p, s);
    assert s[0] == QUOTE && b[p + 0] == QUOTE;
    assert s == [QUOTE] + ((k + [QUOTE]) + [COLON]);
    AtSplit(b, p, [QUOTE], (k + [QUOTE]) + [COLON]);
    AtSplit(b, p + 1, k + [QUOTE], [COLON]);
    AtSplit(b, p + 1, k, [QUOTE]);
    PlainEnd(b, p + 1, k);
    AtBytes(b, p + |k| + 2, [COLON]);
    assert b[p + |k| + 2 + 0] == COLON;
    assert SkipWs(b, p + |k| + 2) == p + |k| + 2;
  }

  // ---- the title ------------------------------------------------------------------------------------

  lemma {:induction false} EscapedEnd(b: Bytes, q: nat, t: Bytes)
    requires At(b, q, Escape(t) + [QUOTE])
    ensures StringEnd(b, q) == q + |Escape(t)|
    decreases |t|
  {
    AtBytes(b, q, Escape(t) + [QUOTE]);
    if |t| > 0 {
      var e, rest := EscapeByte(t[0]), Escape(t[1..]) + [QUOTE];
      assert Escape(t) + [QUOTE] == e + rest;
      AtSplit(b, q, e, rest);
      EscapedEnd(b, q + |e|, t[1..]);
      OverEscape(b, q, t[0]);
    } else {
      assert (Escape(t) + [QUOTE])[0] == QUOTE && b[q + 0] == QUOTE;
    }
  }

  /** One escaped byte holds no closing quote. */
  lemma {:induction false} OverEscape(b: Bytes, q: nat, c: Byte)
    requires At(b, q, EscapeByte(c))
    ensures StringEnd(b, q) == StringEnd(b, q + |EscapeByte(c)|)
  {
    var e := EscapeByte(c);
    AtBytes(b, q, e);
    assert b[q + 0] == e[0];
    if |e| > 1 {
      assert b[q + 1] == e[1];
      if |e| == 6 {
        assert b[q + 2] == e[2] && b[q + 3] == e[3] && b[q + 4] == e[4] && b[q + 5] == e[5];
        assert StringEnd(b, q + 2) == StringEnd(b, q + 3) == StringEnd(b, q + 4) == StringEnd(b, q + 5)
               == StringEnd(b, q + 6);
      }
    }
  }

  /** What reading makes of a byte: control bytes other than tab and line ends become "?". */
  function Collapse(t: Bytes): (r: Bytes)
    ensures |r| == |t|
  {
    seq(|t|, i requires 0 <= i < |t| => if Control(t[i]) then QUESTION else t[i])
  }

  lemma {:induction false} ReadEscaped(b: Bytes, p: nat, t: Bytes, acc: Bytes)
    requires At(b, p, Escape(t) + [QUOTE])
    ensures ReadString(b, p, acc) == Some(acc + Collapse(t))
    decreases |t|
  {
    hide Escape, EscapeByte, ReadString, Control;
    if |t| > 0 {
      var e, rest := EscapeByte(t[0]), Escape(t[1..]) + [QUOTE];
      var c := if Control(t[0]) then QUESTION else t[0];
      EscapeHead(t);
      AtSplit(b, p, e, rest);
      ReadOne(b, p, t[0], acc);
      ReadEscaped(b, p + |e|, t[1..], acc + [c]);
      assert Collapse(t) == [c] + Collapse(t[1..]);
      assert acc + [c] + Collapse(t[1..]) == acc + Collapse(t);
    } else {
      EscapeNothing(t);
      ReadEnd(b, p, acc);
      assert acc + Collapse(t) == acc;
    }
  }

  lemma {:induction false} EscapeHead(t: Bytes)
    requires |t| > 0
    ensures Escape(t) + [QUOTE] == EscapeByte(t[0]) + (Escape(t[1..]) + [QUOTE])
  {
  }

  lemma {:induction false} EscapeNothing(t: Bytes)
    requires |t| == 0
    ensures Escape(t) + [QUOTE] == [QUOTE]
  {
  }

  lemma {:induction false} ReadEnd(b: Bytes, p: nat, acc: Bytes)
    requires At(b, p, [QUOTE])
    ensures ReadString(b, p, acc) == Some(acc)
  {
    AtBytes(b, p, [QUOTE]);
    assert b[p + 0] == [QUOTE][0];
  }

  lemma {:induction false} ReadOne(b: Bytes, p: nat, c: Byte, acc: Bytes)
    requires At(b, p, EscapeByte(c))
    ensures ReadString(b, p, acc) == ReadString(b, p + |EscapeByte(c)|, acc + [if Control(c) then QUESTION else c])
  {
    var e := EscapeByte(c);
    AtBytes(b, p, e);
    assert b[p + 0] == e[0];
    if |e| > 1 { assert b[p + 1] == e[1]; }
  }

  // ---- the row ----------------------------------------------------------------------------------------

  const ID := Ascii("id")
  const USER_ID := Ascii("user_id")
  const TITLE := Ascii("title")
  const COMPLETED := Ascii("completed")

  function Truth(c: bool): Bytes {
    if c then Ascii("true") else Ascii("false")
  }

  function Ending(completed: bool): Bytes {
    [COMMA] + (Key(COMPLETED) + (Truth(completed) + [125]))
  }

  function TitleText(escaped: Bytes, completed: bool): Bytes {
    Key(TITLE) + ([QUOTE] + ((escaped + [QUOTE]) + Ending(completed)))
  }

  function TitlePart(title: Bytes, completed: bool): Bytes {
    TitleText(Escape(title), completed)
  }

  function NumberPart(key: Bytes, n: nat, rest: Bytes): Bytes {
    Key(key) + (Show(n) + ([COMMA] + rest))
  }

  /** The text build_todo_json prints. */
  function Row(id: nat, user: nat, title: Bytes, completed: bool): Bytes {
    [123] + NumberPart(ID, id, NumberPart(USER_ID, user, TitlePart(title, completed)))
  }

  /** build_todo_json: the escaped title must fit its own buffer, and the row the caller's. */
  method BuildTodoJson(dstSize: nat, id: nat, user: nat, title: Bytes, completed: bool) returns (r: Option<Bytes>)
    ensures r == if |Escape(title)| < MAX_VALUE_SIZE && |Row(id, user, title, completed)| < dstSize
                 then Some(Row(id, user, title, completed)) else None
  {
    hide Escape, NumberPart, TitleText;
    var escaped := new Byte[MAX_VALUE_SIZE];
    var n := JsonEscape(escaped, title);
    if n < 0 {
      return None;
    }
    var text := [123] + NumberPart(ID, id, NumberPart(USER_ID, user, TitleText(escaped[..n], completed)));
    return if |text| >= dstSize then None else Some(text);
  }

  ghost predicate PlainKey(k: Bytes) {
    QUOTE !in k && BACKSLASH !in k
  }

  lemma {:induction false} PlainKeys()
    ensures PlainKey(ID) && PlainKey(USER_ID) && PlainKey(TITLE) && PlainKey(COMPLETED)
    ensures ID != USER_ID && ID != TITLE && ID != COMPLETED
    ensures USER_ID != TITLE && USER_ID != COMPLETED && TITLE != COMPLETED
  {
    assert |ID| == 2 && |USER_ID| == 7 && |TITLE| == 5 && |COMPLETED| == 9;
    PlainAscii("id");
    PlainAscii("user_id");
    PlainAscii("title");
    PlainAscii("completed");
  }

  lemma {:induction false} PlainAscii(s: string)
    requires forall i :: 0 <= i < |s| ==> s[i] == '_' || 'a' <= s[i] <= 'z'
    ensures PlainKey(Ascii(s))
  {
    forall i | 0 <= i < |s| ensures Ascii(s)[i] != QUOTE && Ascii(s)[i] != BACKSLASH {
      assert Ascii(s)[i] == s[i] as int % 256;
    }
  }

  // ---- numbers ------------------------------------------------------------------------------------------

  lemma {:induction false} ReadStep(b: Bytes, p: nat, value: nat)
    requires p < |b| && IsDigit(b[p]) && value * 10 + Digit(b[p]) <= UINT64_MAX
    ensures ReadNumber(b, p, value) == ReadNumber(b, p + 1, value * 10 + Digit(b[p]))
  {
  }

  lemma {:induction false} ReadDigits(b: Bytes, p: nat, d: Bytes, i: nat)
    requires At(b, p, d) && AllDigits(d) && Number(d) <= UINT64_MAX && i <= |d|
    ensures AllDigits(d[..i]) && Number(d[..i]) <= UINT64_MAX
    ensures ReadNumber(b, p + i, Number(d[..i])) == ReadNumber(b, p + |d|, Number(d))
    decreases |d| - i
  {
    hide ReadNumber;
    PrefixBelow(d, i);
    if i < |d| {
      AtBytes(b, p, d);
      assert b[p + i] == d[i];
      assert d[..i + 1][..i] == d[..i];
      PrefixBelow(d, i + 1);
      ReadStep(b, p + i, Number(d[..i]));
      ReadDigits(b, p, d, i + 1);
    } else {
      assert d[..i] == d;
    }
  }

  lemma {:induction false} ReadShown(b: Bytes, p: nat, n: nat, rest: Bytes)
    requires At(b, p, Show(n) + rest) && |rest| > 0 && !IsDigit(rest[0]) && n <= UINT64_MAX
    ensures p < |b| && IsDigit(b[p]) && ReadNumber(b, p, 0) == n
  {
    var d := Show(n);
    AtSplit(b, p, d, rest);
    AtBytes(b, p, d);
    AtBytes(b, p + |d|, rest);
    assert b[p + 0] == d[0] && b[p + |d| + 0] == rest[0];
    NumberShow(n);
    ReadDigits(b, p, d, 0);
    assert d[..0] == [];
  }

  // ---- fields -------------------------------------------------------------------------------------------

  lemma {:induction false} NoQuoteInShow(n: nat)
    ensures QUOTE !in Show(n)
  {
  }

  /** A numeric field: found when asked for, walked over otherwise. */
  lemma {:induction false} NumberField(b: Bytes, p: nat, k: Bytes, n: nat, rest: Bytes, f: Bytes)
    requires At(b, p, NumberPart(k, n, rest)) && PlainKey(k) && n <= UINT64_MAX
    ensures var q := p + |k| + 3;
            && q <= |b| && At(b, q + |Show(n)| + 1, rest)
            && (k == f ==> FindField(b, p, f) == Some(q) && q < |b| && IsDigit(b[q]) && ReadNumber(b, q, 0) == n)
            && (k != f ==> FindField(b, p, f) == FindField(b, q + |Show(n)| + 1, f))
  {
    hide FindField, ReadNumber;
    var q, tail := p + |k| + 3, [COMMA] + rest;
    AtSplit(b, p, Key(k), Show(n) + tail);
    AtSplit(b, q, Show(n), tail);
    AtSplit(b, q + |Show(n)|, [COMMA], rest);
    AtKey(b, p, k, f);
    ReadShown(b, q, n, tail);
    assert SkipWs(b, q) == q;
    NoQuoteInShow(n);
    OverPlain(b, q, Show(n), f);
    OverPlain(b, q + |Show(n)|, [COMMA], f);
  }

  /** The title: found when asked for, and whatever it contains, walked over otherwise. */
  lemma {:induction false} TitleField(b: Bytes, p: nat, title: Bytes, completed: bool, f: Bytes)
    requires At(b, p, TitlePart(title, completed))
    ensures var q := p + |TITLE| + 3;
            && q < |b| && b[q] == QUOTE && At(b, q + 1, Escape(title) + [QUOTE])
            && At(b, q + 2 + |Escape(title)|, Ending(completed))
            && (f == TITLE ==> FindField(b, p, f) == Some(q))
            && (f != TITLE ==> FindField(b, p, f) == FindField(b, q + 2 + |Escape(title)|, f))
  {
    hide FindField, Escape, TITLE;
    var q, e, end := p + |TITLE| + 3, Escape(title) + [QUOTE], Ending(completed);
    PlainKeys();
    AtSplit(b, p, Key(TITLE), [QUOTE] + (e + end));
    AtSplit(b, q, [QUOTE], e + end);
    AtSplit(b, q + 1, e, end);
    AtBytes(b, q, [QUOTE]);
    assert b[q + 0] == QUOTE;
    AtKey(b, p, TITLE, f);
    assert SkipWs(b, q) == q;
    OverTitle(b, q, title, end, f);
  }

  /** A string that is not followed by a colon is not a key. */
  lemma {:induction false} OverTitle(b: Bytes, q: nat, title: Bytes, end: Bytes, f: Bytes)
    requires q < |b| && b[q] == QUOTE && At(b, q + 1, (Escape(title) + [QUOTE])) && At(b, q + 2 + |Escape(title)|, end)
    requires |end| > 0 && end[0] == COMMA
    ensures FindField(b, q, f) == FindField(b, q + 2 + |Escape(title)|, f)
  {
    EscapedEnd(b, q + 1, title);
    AtBytes(b, q + 2 + |Escape(title)|, end);
    assert b[q + 2 + |Escape(title)| + 0] == COMMA;
  }

  lemma {:induction false} CompletedField(b: Bytes, p: nat, completed: bool)
    requires At(b, p, Ending(completed))
    ensures exists q :: FindField(b, p, COMPLETED) == Some(q) && q <= |b| && Truth(completed) <= b[q..]
  {
    hide FindField;
    var tail := Truth(completed) + [125];
    PlainKeys();
    AtSplit(b, p, [COMMA], Key(COMPLETED) + tail);
    AtSplit(b, p + 1, Key(COMPLETED), tail);
    var q := p + 1 + |COMPLETED| + 3;
    AtSplit(b, q, Truth(completed), [125]);
    OverPlain(b, p, [COMMA], COMPLETED);
    AtKey(b, p + 1, COMPLETED, COMPLETED);
    AtBytes(b, q, Truth(completed));
    assert b[q + 0] == Truth(completed)[0];
    assert SkipWs(b, q) == q;
    assert b[q..][..|Truth(completed)|] == Truth(completed);
  }

  // ---- the round trip -------------------------------------------------------------------------------------

  /** Every field of a built row reads back, whatever the title contains; the title itself
      comes back with control bytes other than tab and line ends turned into "?". */
  lemma {:induction false} RowReadsBack(id: nat, user: nat, title: Bytes, completed: bool, outSize: nat)
    requires id <= UINT64_MAX && user <= UINT64_MAX
    ensures var b := Row(id, user, title, completed);
            && GetUint64(b, ID) == Some(id) && GetUint64(b, USER_ID) == Some(user)
            && GetBool(b, COMPLETED) == Some(completed)
            && GetString(b, TITLE, outSize) == (if |title| < outSize then Some(Collapse(title)) else None)
  {
    hide FindField, GetString, GetBool, ReadNumber, TitlePart, Show, ID, USER_ID, TITLE, COMPLETED;
    var b := Row(id, user, title, completed);
    var owner := NumberPart(USER_ID, user, TitlePart(title, completed));
    assert At(b, 0, b) by { assert b[0..|b|] == b; }
    AtSplit(b, 0, [123], NumberPart(ID, id, owner));
    PlainKeys();
    forall f ensures FindField(b, 0, f) == FindField(b, 1, f) { OverPlain(b, 0, [123], f); }
    NumberField(b, 1, ID, id, owner, ID);
    NumberField(b, 1, ID, id, owner, USER_ID);
    NumberField(b, 1, ID, id, owner, TITLE);
    NumberField(b, 1, ID, id, owner, COMPLETED);
    var p := 1 + |ID| + 3 + |Show(id)| + 1;
    RestReadsBack(b, p, user, title, completed, outSize);
  }

  lemma {:induction false} RestReadsBack(b: Bytes, p: nat, user: nat, title: Bytes, completed: bool, outSize: nat)
    requires At(b, p, NumberPart(USER_ID, user, TitlePart(title, completed))) && user <= UINT64_MAX
    requires FindField(b, 0, USER_ID) == FindField(b, p, USER_ID) && FindField(b, 0, TITLE) == FindField(b, p, TITLE)
    requires FindField(b, 0, COMPLETED) == FindField(b, p, COMPLETED)
    ensures GetUint64(b, USER_ID) == Some(user) && GetBool(b, COMPLETED) == Some(completed)
    ensures GetString(b, TITLE, outSize) == if |title| < outSize then Some(Collapse(title)) else None
  {
    hide *;
    PlainKeys();
    var rest := TitlePart(title, completed);
    OwnerReadsBack(b, p, user, rest);
    NumberField(b, p, USER_ID, user, rest, TITLE);
    NumberField(b, p, USER_ID, user, rest, COMPLETED);
    var q := p + |USER_ID| + 3 + |Show(user)| + 1;
    TitleReadsBack(b, q, title, completed, outSize);
    FlagReadsBack(b, q, title, completed);
  }

  lemma {:induction false} OwnerReadsBack(b: Bytes, p: nat, user: nat, rest: Bytes)
    requires At(b, p, NumberPart(USER_ID, user, rest)) && user <= UINT64_MAX
    requires FindField(b, 0, USER_ID) == FindField(b, p, USER_ID)
    ensures GetUint64(b, USER_ID) == Some(user)
  {
    hide FindField, ReadNumber, USER_ID;
    PlainKeys();
    NumberField(b, p, USER_ID, user, rest, USER_ID);
  }

  lemma {:induction false} TitleReadsBack(b: Bytes, q: nat, title: Bytes, completed: bool, outSize: nat)
    requires At(b, q, TitlePart(title, completed)) && FindField(b, 0, TITLE) == FindField(b, q, TITLE)
    ensures GetString(b, TITLE, outSize) == if |title| < outSize then Some(Collapse(title)) else None
  {
    hide FindField, ReadString, Escape, TITLE;
    TitleField(b, q, title, completed, TITLE);
    ReadEscaped(b, q + |TITLE| + 4, title, []);
    assert [] + Collapse(title) == Collapse(title);
  }

  lemma {:induction false} FlagReadsBack(b: Bytes, q: nat, title: Bytes, completed: bool)
    requires At(b, q, TitlePart(title, completed)) && FindField(b, 0, COMPLETED) == FindField(b, q, COMPLETED)
    ensures GetBool(b, COMPLETED) == Some(completed)
  {
    hide FindField, Escape, TITLE, COMPLETED;
    PlainKeys();
    TitleField(b, q, title, completed, COMPLETED);
    CompletedField(b, q + |TITLE| + 5 + |Escape(title)|, completed);
    TruthDiffers(b[FindField(b, 0, COMPLETED).value..]);
  }

  lemma {:induction false} TruthDiffers(s: Bytes)
    ensures !(Ascii("true") <= s && Ascii("false") <= s)
  {
    assert Ascii("true")[0] == 116 && Ascii("false")[0] == 102;
  }

  /** The title comes back exactly when it holds none of those control bytes. */
  lemma {:induction false} TitleRoundTrip(id: nat, user: nat, title: Bytes, completed: bool, outSize: nat)
    requires id <= UINT64_MAX && user <= UINT64_MAX && |title| < outSize
    ensures GetString(Row(id, user, title, completed), TITLE, outSize) == Some(title)
            <==> forall i :: 0 <= i < |title| ==> !Control(title[i])
  {
    hide GetString, Row;
    RowReadsBack(id, user, title, completed, outSize);
    if i :| 0 <= i < |title| && Control(title[i]) {
      assert Collapse(title)[i] == QUESTION != title[i];
    } else {
      assert Collapse(title) == title;
    }
  }
}
