/** Byte-string helpers the HTTP code is written with. */
module HttpText {
  import opened Common
  import opened Decimal

  const NUL: Byte := 0
  const TAB: Byte := 9
  const LF: Byte := 10
  const CR: Byte := 13
  const SPACE: Byte := 32
  const COLON: Byte := 58

  const CONTENT_LENGTH: Bytes := Ascii("Content-Length")
  const TRANSFER_ENCODING: Bytes := Ascii("Transfer-Encoding")
  const CHUNKED: Bytes := Ascii("chunked")

  predicate IsBlank(b: Byte) {
    b == SPACE || b == TAB
  }

  /** isspace in the C locale. */
  predicate IsSpace(b: Byte) {
    b == SPACE || 9 <= b <= 13
  }

  function Lower(b: Byte): Byte {
    if 65 <= b <= 90 then b + 32 else b
  }

  /** strcasecmp on strings without NUL. */
  predicate EqualFold(a: Bytes, b: Bytes) {
    |a| == |b| && forall i :: 0 <= i < |a| ==> Lower(a[i]) == Lower(b[i])
  }

  /** memchr from position i: the first occurrence, -1 when there is none. */
  function Find(s: Bytes, i: nat, b: Byte): (r: int)
    requires i <= |s|
    ensures r == -1 || i <= r < |s|
    ensures r == -1 ==> forall j :: i <= j < |s| ==> s[j] != b
    ensures r != -1 ==> s[r] == b && forall j :: i <= j < r ==> s[j] != b
    decreases |s| - i
  {
    if i == |s| then -1 else if s[i] == b then i else Find(s, i + 1, b)
  }

  lemma {:induction false} FindIs(s: Bytes, i: nat, b: Byte, r: nat)
    requires i <= r < |s| && s[r] == b && forall j :: i <= j < r ==> s[j] != b
    ensures Find(s, i, b) == r
  {
  }

  /** Two buffers that agree past the first occurrence agree on it. */
  lemma {:induction false} FindLocal(s: Bytes, t: Bytes, i: nat, b: Byte)
    requires i <= |s| && Find(s, i, b) != -1
    requires Find(s, i, b) < |t| && s[..Find(s, i, b) + 1] == t[..Find(s, i, b) + 1]
    ensures Find(t, i, b) == Find(s, i, b)
  {
    var r := Find(s, i, b);
    assert forall j :: 0 <= j <= r ==> s[j] == s[..r + 1][j] == t[j];
    assert t[r] == b;
  }

  /** A line without the CR before its line feed. */
  function Chomp(line: Bytes): (r: Bytes)
    ensures r <= line && |line| - 1 <= |r|
    ensures |r| < |line| ==> line[|r|] == CR
  {
    if |line| > 0 && line[|line| - 1] == CR then line[..|line| - 1] else line
  }

  function SkipBlanks(s: Bytes, i: nat): (r: nat)
    requires i <= |s|
    ensures i <= r <= |s| && (forall j :: i <= j < r ==> IsBlank(s[j])) && (r < |s| ==> !IsBlank(s[r]))
    decreases |s| - i
  {
    if i < |s| && IsBlank(s[i]) then SkipBlanks(s, i + 1) else i
  }

  /** The end of s[from..] without its trailing blanks. */
  function BlanksStart(s: Bytes, from: nat, e: nat): (r: nat)
    requires from <= e <= |s|
    ensures from <= r <= e && (forall j :: r <= j < e ==> IsBlank(s[j])) && (r > from ==> !IsBlank(s[r - 1]))
    decreases e
  {
    if e > from && IsBlank(s[e - 1]) then BlanksStart(s, from, e - 1) else e
  }

  function TrimLeft(v: Bytes): Bytes {
    v[SkipBlanks(v, 0)..]
  }

  /** copy_header_value: blanks trimmed at both ends. */
  function Trim(v: Bytes): Bytes {
    var a := SkipBlanks(v, 0);
    v[a..BlanksStart(v, a, |v|)]
  }

  /** A line end: CRLF, or LF alone. */
  function LineEnd(cr: bool): (e: Bytes)
    ensures 1 <= |e| <= 2 && e[|e| - 1] == LF
  {
    if cr then [CR, LF] else [LF]
  }

  // ---- http_parse_content_length ------------------------------------------------------

  const ULONG_MAX: nat := 0xFFFF_FFFF_FFFF_FFFF

  function DigitsEnd(s: Bytes, i: nat): (r: nat)
    requires i <= |s|
    ensures i <= r <= |s| && (forall j :: i <= j < r ==> IsDigit(s[j])) && (r < |s| ==> !IsDigit(s[r]))
    decreases |s| - i
  {
    if i < |s| && IsDigit(s[i]) then DigitsEnd(s, i + 1) else i
  }

  /** The declared length: blanks, digits, blanks and nothing else, within unsigned long. */
  function ContentLength(v: Bytes): (r: Option<nat>)
    ensures r.Some? ==> r.value <= ULONG_MAX
  {
    var a := SkipBlanks(v, 0);
    var b := DigitsEnd(v, a);
    var n := Number(v[a..b]);
    if a == b || n > ULONG_MAX || SkipBlanks(v, b) != |v| then None else Some(n)
  }

  lemma {:induction false} SkipBlanksIs(s: Bytes, i: nat, r: nat)
    requires i <= r <= |s| && (forall j :: i <= j < r ==> IsBlank(s[j])) && (r < |s| ==> !IsBlank(s[r]))
    ensures SkipBlanks(s, i) == r
  {
  }

  lemma {:induction false} DigitsEndIs(s: Bytes, i: nat, r: nat)
    requires i <= r <= |s| && (forall j :: i <= j < r ==> IsDigit(s[j])) && (r < |s| ==> !IsDigit(s[r]))
    ensures DigitsEnd(s, i) == r
  {
  }

  /** Dropping the blanks around a value does not change the length it declares. */
  lemma {:induction false} LengthOfCore(v: Bytes, a: nat, e: nat)
    requires a == SkipBlanks(v, 0) && a <= e <= |v| && (forall j :: e <= j < |v| ==> IsBlank(v[j]))
    ensures ContentLength(v[a..e]) == ContentLength(v)
  {
    hide SkipBlanks, DigitsEnd, Number;
    var t := v[a..e];
    var b := DigitsEnd(v, a);
    assert forall j {:trigger t[j]} :: 0 <= j < |t| ==> t[j] == v[a + j];
    if e < |v| { assert !IsDigit(v[e]); }
    SkipBlanksIs(t, 0, 0);
    DigitsEndIs(t, 0, b - a);
    assert t[0..b - a] == v[a..b];
    CoreRest(v, a, e, b);
  }

  lemma {:induction false} CoreRest(v: Bytes, a: nat, e: nat, b: nat)
    requires a <= b <= e <= |v| && (forall j :: e <= j < |v| ==> IsBlank(v[j]))
    ensures SkipBlanks(v[a..e], b - a) == |v[a..e]| <==> SkipBlanks(v, b) == |v|
  {
    hide SkipBlanks;
    var t := v[a..e];
    assert forall j {:trigger t[j]} :: 0 <= j < |t| ==> t[j] == v[a + j];
    var c := SkipBlanks(v, b);
    if c < e {
      SkipBlanksIs(t, b - a, c - a);
    } else {
      SkipBlanksIs(t, b - a, |t|);
    }
  }

  /** Trimming the value first, as the framing pass does, or not, as the parser does, gives
      the same length. */
  lemma {:induction false} TrimKeepsLength(v: Bytes)
    ensures ContentLength(Trim(v)) == ContentLength(v) == ContentLength(TrimLeft(v))
  {
    var a := SkipBlanks(v, 0);
    LengthOfCore(v, a, BlanksStart(v, a, |v|));
    LengthOfCore(v, a, |v|);
    assert v[a..|v|] == TrimLeft(v);
  }

  // ---- what a value declares, without the scanning ---------------------------------------

  ghost predicate Blanks(p: Bytes) {
    forall i :: 0 <= i < |p| ==> p[i] == SPACE || p[i] == TAB
  }

  /** The value is the digits d between blanks. */
  ghost predicate Spells(v: Bytes, p: Bytes, d: Bytes, q: Bytes) {
    v == p + d + q && Blanks(p) && Blanks(q) && AllDigits(d) && |d| > 0
  }

  /** Digits between blanks declare their decimal value, unless it exceeds unsigned long. */
  lemma {:induction false} LengthReads(v: Bytes, p: Bytes, d: Bytes, q: Bytes)
    requires Spells(v, p, d, q)
    ensures ContentLength(v) == if Number(d) <= ULONG_MAX then Some(Number(d)) else None
  {
    hide SkipBlanks, DigitsEnd, Number;
    var a, b := |p|, |p| + |d|;
    assert forall j {:trigger v[j]} :: 0 <= j < |v| ==>
             v[j] == if j < a then p[j] else if j < b then d[j - a] else q[j - b];
    SkipBlanksIs(v, 0, a);
    DigitsEndIs(v, a, b);
    SkipBlanksIs(v, b, |v|);
    assert v[a..b] == d;
  }

  /** Exactly what declares n: a non-empty digit string of value n between blanks, within
      unsigned long. */
  lemma {:induction false} ContentLengthExact(v: Bytes, n: nat)
    ensures ContentLength(v) == Some(n) <==>
              n <= ULONG_MAX && exists p, d, q :: Spells(v, p, d, q) && Number(d) == n
  {
    hide SkipBlanks, DigitsEnd, Number;
    var a := SkipBlanks(v, 0);
    var b := DigitsEnd(v, a);
    if ContentLength(v) == Some(n) {
      assert Spells(v, v[..a], v[a..b], v[b..]);
    }
    if p, d, q :| Spells(v, p, d, q) && Number(d) == n {
      LengthReads(v, p, d, q);
    }
  }

  lemma {:induction false} ContentLengthShow(p: Bytes, n: nat, q: Bytes)
    requires Blanks(p) && Blanks(q)
    ensures ContentLength(p + Show(n) + q) == if n <= ULONG_MAX then Some(n) else None
  {
    hide ContentLength, Show, Number;
    NumberShow(n);
    LengthReads(p + Show(n) + q, p, Show(n), q);
  }

  /** Names compare without regard to the case of ASCII letters, and of nothing else. */
  lemma {:induction false} EqualFoldExact(a: Bytes, b: Bytes)
    ensures EqualFold(a, b) <==>
              |a| == |b| && forall i :: 0 <= i < |a| ==>
                a[i] == b[i] || (65 <= a[i] <= 90 && b[i] == a[i] + 32) || (65 <= b[i] <= 90 && a[i] == b[i] + 32)
  {
    if EqualFold(a, b) {
      forall i | 0 <= i < |a|
        ensures a[i] == b[i] || (65 <= a[i] <= 90 && b[i] == a[i] + 32) || (65 <= b[i] <= 90 && a[i] == b[i] + 32)
      {
        assert Lower(a[i]) == Lower(b[i]);
      }
    }
  }

  method ParseContentLength(v: Bytes) returns (r: Option<nat>)
    ensures r == ContentLength(v)
  {
    hide SkipBlanks, DigitsEnd;
    var i := 0;
    while i < |v| && IsBlank(v[i])
      invariant 0 <= i <= |v| && forall j :: 0 <= j < i ==> IsBlank(v[j])
    {
      i := i + 1;
    }
    SkipBlanksIs(v, 0, i);
    var b, n := i, 0;
    while b < |v| && IsDigit(v[b])
      invariant i <= b <= |v| && forall j :: i <= j < b ==> IsDigit(v[j])
      invariant n == Number(v[i..b])
    {
      assert v[i..b + 1][..b - i] == v[i..b];
      n := n * 10 + Digit(v[b]);
      b := b + 1;
    }
    DigitsEndIs(v, i, b);
    if b == i || n > ULONG_MAX {
      return None;
    }
    var e := b;
    while e < |v| && IsBlank(v[e])
      invariant b <= e <= |v| && forall j :: b <= j < e ==> IsBlank(v[j])
    {
      e := e + 1;
    }
    SkipBlanksIs(v, b, e);
    return if e != |v| then None else Some(n);
  }
}
