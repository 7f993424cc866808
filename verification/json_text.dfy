/** Flat JSON objects as a client may write them (RFC 8259): blanks anywhere between the tokens,
    string characters plain or escaped, and what the field readers make of them. */
module JsonText {
  import opened Common
  import opened Decimal
  import opened Json
  import opened TodoRow

  ghost predicate Blank(s: Bytes) {
    forall i :: 0 <= i < |s| ==> s[i] == 0x20 || s[i] == 0x09 || s[i] == 0x0A || s[i] == 0x0D
  }

  // ---- strings ---------------------------------------------------------------------------------

  /** A character of a string as it is spelled: itself, one of the eight short escapes, named by
      the byte it stands for, or a Unicode escape. */
  datatype Spelled = Plain(b: Byte) | Short(b: Byte) | Unicode(hex: Bytes)

  /** The letter of a short escape, section 7 of RFC 8259. */
  function Letter(b: Byte): Option<Byte> {
    match b
    case 0x22 => Some(0x22)
    case 0x5C => Some(0x5C)
    case 0x2F => Some(0x2F)
    case 0x08 => Some(0x62)
    case 0x0C => Some(0x66)
    case 0x0A => Some(0x6E)
    case 0x0D => Some(0x72)
    case 0x09 => Some(0x74)
    case _ => None
  }

  ghost predicate SpelledOk(x: Spelled) {
    match x
    case Plain(b) => b != QUOTE && b != BACKSLASH
    case Short(b) => Letter(b).Some?
    case Unicode(hex) => |hex| == 4 && PlainKey(hex)
  }

  ghost predicate AllSpelled(xs: seq<Spelled>) {
    forall i :: 0 <= i < |xs| ==> SpelledOk(xs[i])
  }

  ghost function SpelledText(x: Spelled): (t: Bytes)
    requires SpelledOk(x)
    ensures 1 <= |t| <= 6
  {
    match x
    case Plain(b) => [b]
    case Short(b) => [BACKSLASH, Letter(b).value]
    case Unicode(hex) => [BACKSLASH, 0x75] + hex
  }

  ghost function Spelling(xs: seq<Spelled>): Bytes
    requires AllSpelled(xs)
  {
    if |xs| == 0 then [] else SpelledText(xs[0]) + Spelling(xs[1..])
  }

  /** What is read: a Unicode escape as "?". */
  function Meaning(xs: seq<Spelled>): (r: Bytes)
    ensures |r| == |xs|
  {
    seq(|xs|, i requires 0 <= i < |xs| => if xs[i].Unicode? then QUESTION else xs[i].b)
  }

  lemma {:induction false} SpellingStep(xs: seq<Spelled>)
    requires AllSpelled(xs)
    ensures |xs| == 0 ==> Spelling(xs) + [QUOTE] == [QUOTE]
    ensures |xs| > 0 ==> SpelledOk(xs[0]) && AllSpelled(xs[1..]) &&
                         Spelling(xs) + [QUOTE] == SpelledText(xs[0]) + (Spelling(xs[1..]) + [QUOTE])
  {
    hide SpelledText, SpelledOk;
  }

  /** One spelled character holds no closing quote. */
  lemma {:induction false} OverSpelled(b: Bytes, q: nat, x: Spelled)
    requires SpelledOk(x) && At(b, q, SpelledText(x))
    ensures StringEnd(b, q) == StringEnd(b, q + |SpelledText(x)|)
  {
    var e := SpelledText(x);
    AtBytes(b, q, e);
    assert b[q + 0] == e[0];
    if |e| > 1 {
      assert b[q + 1] == e[1];
      if x.Unicode? {
        assert forall i :: 0 <= i < 4 ==> x.hex[i] in x.hex;
        assert b[q + 2] == e[2] && b[q + 3] == e[3] && b[q + 4] == e[4] && b[q + 5] == e[5];
        assert StringEnd(b, q + 2) == StringEnd(b, q + 3) == StringEnd(b, q + 4) == StringEnd(b, q + 5)
               == StringEnd(b, q + 6);
      }
    }
  }

  lemma {:induction false} SpelledEnd(b: Bytes, q: nat, xs: seq<Spelled>)
    requires AllSpelled(xs) && At(b, q, Spelling(xs) + [QUOTE])
    ensures StringEnd(b, q) == q + |Spelling(xs)|
    decreases |xs|
  {
    hide SpelledText, SpelledOk, AllSpelled;
    SpellingStep(xs);
    if |xs| > 0 {
      var e, rest := SpelledText(xs[0]), Spelling(xs[1..]) + [QUOTE];
      AtSplit(b, q, e, rest);
      SpelledEnd(b, q + |e|, xs[1..]);
      OverSpelled(b, q, xs[0]);
    } else {
      AtBytes(b, q, [QUOTE]);
      assert b[q + 0] == QUOTE;
    }
  }

  lemma {:induction false} ReadSpelledOne(b: Bytes, p: nat, x: Spelled, acc: Bytes)
    requires SpelledOk(x) && At(b, p, SpelledText(x))
    ensures ReadString(b, p, acc) ==
            ReadString(b, p + |SpelledText(x)|, acc + [if x.Unicode? then QUESTION else x.b])
  {
    var e := SpelledText(x);
    AtBytes(b, p, e);
    assert b[p + 0] == e[0];
    if |e| > 1 { assert b[p + 1] == e[1]; }
  }

  lemma {:induction false} ReadSpelled(b: Bytes, p: nat, xs: seq<Spelled>, acc: Bytes)
    requires AllSpelled(xs) && At(b, p, Spelling(xs) + [QUOTE])
    ensures ReadString(b, p, acc) == Some(acc + Meaning(xs))
    decreases |xs|
  {
    hide SpelledText, SpelledOk, AllSpelled, ReadString;
    SpellingStep(xs);
    if |xs| > 0 {
      var e, rest := SpelledText(xs[0]), Spelling(xs[1..]) + [QUOTE];
      var c := if xs[0].Unicode? then QUESTION else xs[0].b;
      AtSplit(b, p, e, rest);
      ReadSpelledOne(b, p, xs[0], acc);
      ReadSpelled(b, p + |e|, xs[1..], acc + [c]);
      assert acc + [c] + Meaning(xs[1..]) == acc + Meaning(xs);
    } else {
      ReadEnd(b, p, acc);
      assert acc + Meaning(xs) == acc;
    }
  }

  // ---- objects ---------------------------------------------------------------------------------

  /** Other: a negative number or null. */
  datatype Value = Str(chars: seq<Spelled>) | Num(digits: Bytes) | Bool(truth: bool) | Other(text: Bytes)

  ghost predicate ValueOk(v: Value) {
    match v
    case Str(xs) => AllSpelled(xs)
    case Num(d) => |d| > 0 && AllDigits(d)
    case Bool(_) => true
    case Other(t) => |t| > 0 && QUOTE !in t && (t[0] == 0x2D || t[0] == 0x6E)
  }

  ghost function ValueText(v: Value): (t: Bytes)
    requires ValueOk(v)
    ensures |t| > 0
  {
    match v
    case Str(xs) => [QUOTE] + (Spelling(xs) + [QUOTE])
    case Num(d) => d
    case Bool(c) => Truth(c)
    case Other(t) => t
  }

  /** A field with the blanks before its key, before and after the colon, and after the value. */
  datatype Field = Field(lead: Bytes, key: Bytes, gap: Bytes, pad: Bytes, value: Value, trail: Bytes)

  ghost predicate FieldOk(f: Field) {
    Blank(f.lead) && Blank(f.gap) && Blank(f.pad) && Blank(f.trail) && PlainKey(f.key) && ValueOk(f.value)
  }

  ghost predicate FieldsOk(fs: seq<Field>) {
    forall i :: 0 <= i < |fs| ==> FieldOk(fs[i])
  }

  ghost function KeyText(f: Field): Bytes {
    f.lead + (([QUOTE] + (f.key + [QUOTE])) + (f.gap + ([COLON] + f.pad)))
  }

  ghost function FieldText(f: Field): Bytes
    requires FieldOk(f)
  {
    KeyText(f) + (ValueText(f.value) + f.trail)
  }

  /** The fields, each but the last followed by a comma, and the closing brace. */
  ghost function FieldsText(fs: seq<Field>): (t: Bytes)
    requires FieldsOk(fs)
  {
    if |fs| == 0 then [0x7D] else FieldText(fs[0]) + ((if |fs| == 1 then [] else [COMMA]) + FieldsText(fs[1..]))
  }

  ghost function Object(fs: seq<Field>): Bytes
    requires FieldsOk(fs)
  {
    [0x7B] + FieldsText(fs)
  }

  // ---- walking over them -------------------------------------------------------------------------

  lemma {:induction false} OverBlank(b: Bytes, p: nat, s: Bytes)
    requires At(b, p, s) && Blank(s) && (p + |s| < |b| ==> !IsWs(b[p + |s|]))
    ensures SkipWs(b, p) == p + |s|
    decreases |s|
  {
    if |s| > 0 {
      AtSplit(b, p, s[..1], s[1..]) by { assert s == s[..1] + s[1..]; }
      AtBytes(b, p, s);
      assert b[p + 0] == s[0];
      OverBlank(b, p + 1, s[1..]);
    }
  }

  lemma {:induction false} BlankPlain(s: Bytes)
    requires Blank(s)
    ensures QUOTE !in s
  {
  }

  /** At a key the search stops exactly when it is the one asked for. */
  lemma {:induction false} AtSpacedKey(b: Bytes, p: nat, f: Field, name: Bytes)
    requires FieldOk(f) && At(b, p, FieldText(f))
    ensures var q := p + |KeyText(f)|;
            && At(b, q, ValueText(f.value)) && At(b, q + |ValueText(f.value)|, f.trail)
            && FindField(b, p, name) == if f.key == name then Some(q) else FindField(b, q, name)
  {
    hide *;
    KeyPlaces(b, p, f);
    var q, colon := p + |f.lead|, p + |f.lead| + |f.key| + 2 + |f.gap|;
    ValueStarts(b, p + |KeyText(f)|, f.value);
    KeyEnds(b, q, f.key);
    ColonAt(b, q + |f.key| + 2, f.gap);
    PadEnds(b, colon + 1, f.pad);
    AfterKey(b, q, f.key, colon, name);
    OverLead(b, p, f.lead, name);
    OverLead(b, q + |f.key| + 2, f.gap, name);
    OverColon(b, colon, name);
    OverLead(b, colon + 1, f.pad, name);
  }

  /** Where the pieces of a field are. */
  lemma {:induction false} KeyPlaces(b: Bytes, p: nat, f: Field)
    requires FieldOk(f) && At(b, p, FieldText(f))
    ensures var q, v := p + |f.lead|, p + |KeyText(f)|;
            && At(b, p, f.lead) && At(b, q, [QUOTE] + (f.key + [QUOTE])) && At(b, q + |f.key| + 2, f.gap)
            && At(b, q + |f.key| + 2 + |f.gap|, [COLON]) && At(b, q + |f.key| + 2 + |f.gap| + 1, f.pad)
            && v == q + |f.key| + 2 + |f.gap| + 1 + |f.pad|
            && ValueOk(f.value) && At(b, v, ValueText(f.value)) && At(b, v + |ValueText(f.value)|, f.trail)
            && Blank(f.lead) && Blank(f.gap) && Blank(f.pad) && Blank(f.trail) && PlainKey(f.key)
  {
    hide ValueText, ValueOk, At, Blank, PlainKey;
    var q, k := p + |f.lead|, [QUOTE] + (f.key + [QUOTE]);
    AtSplit(b, p, KeyText(f), ValueText(f.value) + f.trail);
    AtSplit(b, p + |KeyText(f)|, ValueText(f.value), f.trail);
    AtSplit(b, p, f.lead, k + (f.gap + ([COLON] + f.pad)));
    AtSplit(b, q, k, f.gap + ([COLON] + f.pad));
    AtSplit(b, q + |k|, f.gap, [COLON] + f.pad);
    AtSplit(b, q + |k| + |f.gap|, [COLON], f.pad);
  }

  lemma {:induction false} OverLead(b: Bytes, p: nat, s: Bytes, name: Bytes)
    requires At(b, p, s) && Blank(s)
    ensures p + |s| <= |b| && FindField(b, p, name) == FindField(b, p + |s|, name)
  {
    hide FindField;
    BlankPlain(s);
    OverPlain(b, p, s, name);
  }

  lemma {:induction false} OverColon(b: Bytes, p: nat, name: Bytes)
    requires At(b, p, [COLON])
    ensures p + 1 <= |b| && FindField(b, p, name) == FindField(b, p + 1, name)
  {
    hide FindField;
    OverPlain(b, p, [COLON], name);
  }

  lemma {:induction false} KeyEnds(b: Bytes, q: nat, key: Bytes)
    requires At(b, q, [QUOTE] + (key + [QUOTE])) && PlainKey(key)
    ensures q + |key| + 1 < |b| && b[q] == QUOTE && StringEnd(b, q + 1) == q + 1 + |key|
    ensures b[q + 1..q + 1 + |key|] == key
  {
    AtSplit(b, q, [QUOTE], key + [QUOTE]);
    AtSplit(b, q + 1, key, [QUOTE]);
    AtBytes(b, q, [QUOTE]);
    assert b[q + 0] == QUOTE;
    PlainEnd(b, q + 1, key);
  }

  lemma {:induction false} ColonAt(b: Bytes, q: nat, gap: Bytes)
    requires At(b, q, gap) && At(b, q + |gap|, [COLON]) && Blank(gap)
    ensures q + |gap| < |b| && SkipWs(b, q) == q + |gap| && b[q + |gap|] == COLON
  {
    AtBytes(b, q + |gap|, [COLON]);
    assert b[q + |gap| + 0] == COLON;
    OverBlank(b, q, gap);
  }

  lemma {:induction false} PadEnds(b: Bytes, q: nat, pad: Bytes)
    requires At(b, q, pad) && Blank(pad) && q + |pad| < |b| && !IsWs(b[q + |pad|])
    ensures q <= |b| && SkipWs(b, q) == q + |pad|
  {
    OverBlank(b, q, pad);
  }

  /** No value begins with a blank. */
  lemma {:induction false} ValueStarts(b: Bytes, q: nat, v: Value)
    requires ValueOk(v) && At(b, q, ValueText(v))
    ensures q < |b| && b[q] == ValueText(v)[0] && !IsWs(b[q])
    ensures (b[q] == QUOTE <==> v.Str?) && (IsDigit(b[q]) <==> v.Num?) && (b[q] == 116 || b[q] == 102 <==> v.Bool?)
  {
    AtBytes(b, q, ValueText(v));
    assert b[q + 0] == ValueText(v)[0];
    assert Ascii("true")[0] == 116 && Ascii("false")[0] == 102;
  }

  lemma {:induction false} AfterKey(b: Bytes, q: nat, key: Bytes, colon: nat, name: Bytes)
    requires q + |key| + 1 < colon < |b| && b[q] == QUOTE && StringEnd(b, q + 1) == q + 1 + |key|
    requires b[q + 1..q + 1 + |key|] == key && SkipWs(b, q + |key| + 2) == colon && b[colon] == COLON
    ensures FindField(b, q, name) ==
            if key == name then Some(SkipWs(b, colon + 1)) else FindField(b, q + |key| + 2, name)
  {
    hide StringEnd, SkipWs;
  }

  /** A value and the blanks after it are walked over: a string among them is not a key. */
  lemma {:induction false} OverValue(b: Bytes, q: nat, v: Value, trail: Bytes, name: Bytes)
    requires ValueOk(v) && At(b, q, ValueText(v)) && At(b, q + |ValueText(v)|, trail) && Blank(trail)
    requires var end := q + |ValueText(v)| + |trail|; end < |b| && (b[end] == COMMA || b[end] == 0x7D)
    ensures FindField(b, q, name) == FindField(b, q + |ValueText(v)| + |trail|, name)
  {
    hide FindField, StringEnd, SkipWs, Spelling, AllSpelled, Blank, AllDigits, At, Truth;
    OverLead(b, q + |ValueText(v)|, trail, name);
    match v
    case Str(xs) => OverString(b, q, xs, trail, name);
    case Num(d) => DigitsPlain(d); OverPlain(b, q, d, name);
    case Bool(c) => TruthPlain(c); OverPlain(b, q, Truth(c), name);
    case Other(t) => OverPlain(b, q, t, name);
  }

  lemma {:induction false} OverString(b: Bytes, q: nat, xs: seq<Spelled>, trail: Bytes, name: Bytes)
    requires AllSpelled(xs) && At(b, q, [QUOTE] + (Spelling(xs) + [QUOTE])) && Blank(trail)
    requires At(b, q + |Spelling(xs)| + 2, trail)
    requires var end := q + |Spelling(xs)| + 2 + |trail|; end < |b| && (b[end] == COMMA || b[end] == 0x7D)
    ensures FindField(b, q, name) == FindField(b, q + |Spelling(xs)| + 2, name)
  {
    hide FindField, StringEnd, SkipWs, Spelling, AllSpelled, Blank, At;
    var end := q + |Spelling(xs)| + 2;
    AtSplit(b, q, [QUOTE], Spelling(xs) + [QUOTE]);
    QuoteAt(b, q);
    SpelledEnd(b, q + 1, xs);
    OverBlank(b, end, trail);
    NotAKey(b, q, end - 1, name);
  }

  lemma {:induction false} QuoteAt(b: Bytes, q: nat)
    requires At(b, q, [QUOTE])
    ensures q < |b| && b[q] == QUOTE
  {
    AtBytes(b, q, [QUOTE]);
    assert b[q + 0] == QUOTE;
  }

  lemma {:induction false} NotAKey(b: Bytes, q: nat, end: nat, name: Bytes)
    requires q < end < |b| && b[q] == QUOTE && StringEnd(b, q + 1) == end
    requires var after := SkipWs(b, end + 1); after < |b| && b[after] != COLON
    ensures FindField(b, q, name) == FindField(b, end + 1, name)
  {
    hide StringEnd, SkipWs;
  }

  lemma {:induction false} DigitsPlain(d: Bytes)
    requires AllDigits(d)
    ensures QUOTE !in d
  {
  }

  lemma {:induction false} TruthPlain(c: bool)
    ensures QUOTE !in Truth(c)
  {
    assert Ascii("true") == [116, 114, 117, 101] && Ascii("false") == [102, 97, 108, 115, 101];
  }

  // ---- finding a field ---------------------------------------------------------------------------

  /** The first of the fields with this key, or the number of fields. */
  function FirstOf(fs: seq<Field>, name: Bytes): (n: nat)
    ensures n <= |fs| && (n < |fs| ==> fs[n].key == name) && forall j :: 0 <= j < n ==> fs[j].key != name
  {
    if |fs| == 0 || fs[0].key == name then 0 else 1 + FirstOf(fs[1..], name)
  }

  /** The value is at q, up to something that is no part of it. */
  ghost predicate ValueAt(b: Bytes, q: nat, v: Value) {
    && ValueOk(v) && At(b, q, ValueText(v))
    && q + |ValueText(v)| < |b| && !IsDigit(b[q + |ValueText(v)|])
  }

  lemma {:induction false} FieldsStep(fs: seq<Field>)
    requires FieldsOk(fs)
    ensures |fs| == 0 ==> FieldsText(fs) == [0x7D]
    ensures |fs| > 0 ==>
              && FieldOk(fs[0]) && FieldsOk(fs[1..])
              && FieldsText(fs) == FieldText(fs[0]) + ((if |fs| == 1 then [] else [COMMA]) + FieldsText(fs[1..]))
  {
    hide FieldOk, FieldText;
  }

  /** What follows a field: a comma or the closing brace. */
  lemma {:induction false} Separator(b: Bytes, p: nat, fs: seq<Field>, name: Bytes)
    requires |fs| > 0 && FieldsOk(fs[1..]) && At(b, p, (if |fs| == 1 then [] else [COMMA]) + FieldsText(fs[1..]))
    ensures p < |b| && (b[p] == COMMA || b[p] == 0x7D)
    ensures var q := p + (if |fs| == 1 then 0 else 1);
            At(b, q, FieldsText(fs[1..])) && FindField(b, p, name) == FindField(b, q, name)
  {
    hide FindField, FieldsOk, FieldsText, FieldText;
    var sep := if |fs| == 1 then [] else [COMMA];
    AtSplit(b, p, sep, FieldsText(fs[1..]));
    OverPlain(b, p, sep, name);
    FieldsStep(fs[1..]);
    AtBytes(b, p, if |fs| == 1 then FieldsText(fs[1..]) else sep);
    assert b[p + 0] == (if |fs| == 1 then FieldsText(fs[1..]) else sep)[0];
  }

  /** The field is found where its value begins, and a missing one is not found. */
  lemma {:induction false} FieldsFound(b: Bytes, p: nat, fs: seq<Field>, name: Bytes)
    requires FieldsOk(fs) && At(b, p, FieldsText(fs)) && p + |FieldsText(fs)| == |b|
    ensures var n, r := FirstOf(fs, name), FindField(b, p, name);
            if n == |fs| then r == None else r.Some? && ValueAt(b, r.value, fs[n].value)
    decreases |fs|
  {
    hide FindField, FieldsOk, FieldText, FieldOk, FieldsText, KeyText, ValueText, ValueOk, IsDigit, At, Blank, ValueAt;
    FieldsStep(fs);
    if |fs| == 0 {
      NothingLeft(b, p, name);
    } else {
      var f := fs[0];
      var tail := (if |fs| == 1 then [] else [COMMA]) + FieldsText(fs[1..]);
      AtSplit(b, p, FieldText(f), tail);
      FieldFacts(f);
      var q, end := p + |KeyText(f)|, p + |FieldText(f)|;
      Separator(b, end, fs, name);
      AtSpacedKey(b, p, f, name);
      ValueEnds(b, q, f);
      OverValue(b, q, f.value, f.trail, name);
      FieldsFound(b, end + (if |fs| == 1 then 0 else 1), fs[1..], name);
    }
  }

  lemma {:induction false} FieldFacts(f: Field)
    requires FieldOk(f)
    ensures ValueOk(f.value) && Blank(f.trail) && |FieldText(f)| == |KeyText(f)| + |ValueText(f.value)| + |f.trail|
  {
  }

  lemma {:induction false} ValueEnds(b: Bytes, q: nat, f: Field)
    requires FieldOk(f) && At(b, q, ValueText(f.value)) && At(b, q + |ValueText(f.value)|, f.trail)
    requires var end := q + |ValueText(f.value)| + |f.trail|; end < |b| && (b[end] == COMMA || b[end] == 0x7D)
    ensures ValueAt(b, q, f.value)
  {
    hide ValueText, ValueOk;
    AtBytes(b, q + |ValueText(f.value)|, f.trail);
    if |f.trail| > 0 { assert b[q + |ValueText(f.value)| + 0] == f.trail[0]; }
  }

  lemma {:induction false} NothingLeft(b: Bytes, p: nat, name: Bytes)
    requires At(b, p, [0x7D]) && p + 1 == |b|
    ensures FindField(b, p, name) == None
  {
    AtBytes(b, p, [0x7D]);
    assert b[p + 0] == 0x7D;
  }

  // ---- reading it --------------------------------------------------------------------------------

  /** What is left of a number in 64 bits. */
  function Wrapped(n: nat): (r: nat)
    ensures r <= UINT64_MAX
  {
    n % (UINT64_MAX + 1)
  }

  lemma {:induction false} WrapStep(x: nat, d: nat)
    ensures Wrapped(Wrapped(x) * 10 + d) == Wrapped(x * 10 + d)
  {
    var m := UINT64_MAX + 1;
    var y := x % m * 10 + d;
    RemainderIs(x * 10 + d, 10 * (x / m) + y / m, y % m);
  }

  lemma {:induction false} RemainderIs(a: nat, q: nat, r: nat)
    requires a == q * (UINT64_MAX + 1) + r && r <= UINT64_MAX
    ensures a % (UINT64_MAX + 1) == r
  {
    var m := UINT64_MAX + 1;
    var p, s := a / m, a % m;
    assert a == p * m + s && 0 <= s < m;
    assert (p - q) * m == r - s;
  }

  lemma {:induction false} ReadWraps(b: Bytes, p: nat, d: Bytes, i: nat)
    requires At(b, p, d) && AllDigits(d) && i <= |d| && (p + |d| < |b| ==> !IsDigit(b[p + |d|]))
    ensures AllDigits(d[..i])
    ensures ReadNumber(b, p + i, Wrapped(Number(d[..i]))) == Wrapped(Number(d))
    decreases |d| - i
  {
    hide ReadNumber, Number, Digit, Wrapped, IsDigit;
    if i < |d| {
      AtBytes(b, p, d);
      assert b[p + i] == d[i];
      ReadWraps(b, p, d, i + 1);
      NumberPrefix(d, i);
      WrapStep(Number(d[..i]), Digit(d[i]));
      ReadDigit(b, p + i, Wrapped(Number(d[..i])));
    } else {
      assert d[..i] == d;
      ReadStops(b, p + i, Wrapped(Number(d)));
    }
  }

  lemma {:induction false} NumberPrefix(d: Bytes, i: nat)
    requires i < |d| && AllDigits(d)
    ensures AllDigits(d[..i]) && AllDigits(d[..i + 1]) && Number(d[..i + 1]) == Number(d[..i]) * 10 + Digit(d[i])
  {
    assert d[..i + 1][..i] == d[..i];
  }

  lemma {:induction false} ReadStops(b: Bytes, p: nat, value: nat)
    requires p <= |b| && (p < |b| ==> !IsDigit(b[p])) && value <= UINT64_MAX
    ensures ReadNumber(b, p, value) == value
  {
  }

  lemma {:induction false} ReadDigit(b: Bytes, p: nat, value: nat)
    requires p < |b| && IsDigit(b[p]) && value <= UINT64_MAX
    ensures ReadNumber(b, p, value) == ReadNumber(b, p + 1, Wrapped(value * 10 + Digit(b[p])))
  {
  }

  /** The readers on an object a client wrote, by the first field with the key: a string is read
      character by character and must fit, a number modulo 2 to the 64, a boolean as it is, and a
      value of another kind, like a missing field, not at all. */
  lemma {:induction false} ObjectReads(fs: seq<Field>, name: Bytes, outSize: nat)
    requires FieldsOk(fs)
    ensures var b, n := Object(fs), FirstOf(fs, name);
            var v := if n < |fs| then Some(fs[n].value) else None;
            && GetString(b, name, outSize) ==
               (if v.Some? && v.value.Str? && |v.value.chars| < outSize then Some(Meaning(v.value.chars)) else None)
            && GetUint64(b, name) ==
               (if v.Some? && v.value.Num? then Some(Number(v.value.digits) % (UINT64_MAX + 1)) else None)
            && GetBool(b, name) == (if v.Some? && v.value.Bool? then Some(v.value.truth) else None)
  {
    hide FindField, FieldsOk, FieldsText, ValueText, ValueOk, IsDigit, ReadString, ReadNumber, Truth;
    var b, n := Object(fs), FirstOf(fs, name);
    assert At(b, 0, b) by { assert b[0..|b|] == b; }
    AtSplit(b, 0, [0x7B], FieldsText(fs));
    OverPlain(b, 0, [0x7B], name);
    FieldsFound(b, 1, fs, name);
    if n < |fs| {
      var q, v := FindField(b, 0, name).value, fs[n].value;
      ValueStarts(b, q, v);
      if v.Str? { StringReads(b, q, v); }
      if v.Num? { NumberReads(b, q, v); }
      TruthReads(b, q, v);
    }
  }

  lemma {:induction false} StringReads(b: Bytes, q: nat, v: Value)
    requires ValueAt(b, q, v) && v.Str?
    ensures q < |b| && ReadString(b, q + 1, []) == Some(Meaning(v.chars))
  {
    hide ReadString, Spelling;
    AtSplit(b, q, [QUOTE], Spelling(v.chars) + [QUOTE]);
    ReadSpelled(b, q + 1, v.chars, []);
    assert [] + Meaning(v.chars) == Meaning(v.chars);
  }

  lemma {:induction false} NumberReads(b: Bytes, q: nat, v: Value)
    requires ValueAt(b, q, v) && v.Num?
    ensures q <= |b| && AllDigits(v.digits) && ReadNumber(b, q, 0) == Number(v.digits) % (UINT64_MAX + 1)
  {
    hide ReadNumber, IsDigit;
    ReadWraps(b, q, v.digits, 0);
    assert v.digits[..0] == [];
  }

  lemma {:induction false} TruthReads(b: Bytes, q: nat, v: Value)
    requires ValueAt(b, q, v)
    ensures q <= |b|
    ensures Ascii("true") <= b[q..] <==> v == Bool(true)
    ensures Ascii("false") <= b[q..] <==> v == Bool(false)
  {
    ValueStarts(b, q, v);
    assert Ascii("true")[0] == 116 && Ascii("false")[0] == 102;
    assert b[q..][0] == b[q];
    if v.Bool? { assert b[q..][..|Truth(v.truth)|] == Truth(v.truth); }
    TruthDiffers(b[q..]);
  }
}
