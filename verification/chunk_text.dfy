/** Chunked bodies in every form section 7.1 of RFC 9112 allows, with line feeds alone
    accepted as line ends, and how they decode. */
module ChunkText {
  import opened Common
  import opened HttpText
  import opened ChunkedCoding

  /** A hexadecimal digit in either case. */
  datatype Hexit = Hexit(value: nat, upper: bool)

  ghost predicate HexitsOk(ds: seq<Hexit>) {
    forall i :: 0 <= i < |ds| ==> ds[i].value < 16
  }

  function HexitByte(h: Hexit): Byte
    requires h.value < 16
  {
    if h.value < 10 then 48 + h.value else if h.upper then 55 + h.value else 87 + h.value
  }

  ghost function Digits(ds: seq<Hexit>): (t: Bytes)
    requires HexitsOk(ds)
    ensures |t| == |ds| && forall i :: 0 <= i < |t| ==> t[i] == HexitByte(ds[i])
  {
    seq(|ds|, i requires 0 <= i < |ds| => HexitByte(ds[i]))
  }

  /** The number the digits stand for, leading zeros allowed. */
  function Value(ds: seq<Hexit>): nat {
    if |ds| == 0 then 0 else Value(ds[..|ds| - 1]) * 16 + ds[|ds| - 1].value
  }

  lemma {:induction false} ValueGrows(ds: seq<Hexit>, i: nat)
    requires i <= |ds|
    ensures Value(ds[..i]) <= Value(ds)
    decreases |ds|
  {
    if i < |ds| {
      ValueGrows(ds[..|ds| - 1], i);
      assert ds[..|ds| - 1][..i] == ds[..i];
    } else {
      assert ds[..i] == ds;
    }
  }

  predicate IsHexChar(b: Byte) {
    48 <= b <= 57 || 65 <= b <= 70 || 97 <= b <= 102
  }

  /** The digits are read up to the first byte that is none, unless size_t overflows. */
  lemma {:induction false} DigitsFrom(s: Bytes, ds: seq<Hexit>, i: nat)
    requires HexitsOk(ds) && i <= |ds| <= |s| && s[..|ds|] == Digits(ds) && (|ds| < |s| ==> !IsHexChar(s[|ds|]))
    requires Value(ds[..i]) <= SIZE_MAX
    ensures HexDigits(s, i, Value(ds[..i])) == if Value(ds) <= SIZE_MAX then Some((|ds|, Value(ds))) else None
    decreases |ds| - i
  {
    if i == |ds| {
      assert ds[..i] == ds;
    } else {
      assert s[i] == s[..|ds|][i] == HexitByte(ds[i]);
      assert ds[..i + 1][..i] == ds[..i];
      ValueGrows(ds, i + 1);
      if Value(ds[..i]) <= SIZE_MAX / 16 { DigitsFrom(s, ds, i + 1); }
    }
  }

  /** The digits at the front of a line. */
  lemma {:induction false} SomeDigits(line: Bytes, n: nat) returns (ds: seq<Hexit>)
    requires n <= |line| && forall i :: 0 <= i < n ==> IsHexChar(line[i])
    ensures HexitsOk(ds) && |ds| == n && line[..n] == Digits(ds)
  {
    ds := seq(n, i requires 0 <= i < n => Hexit(Hex(line[i]), line[i] < 97));
    assert forall i :: 0 <= i < n ==> HexitByte(ds[i]) == line[i];
  }

  lemma {:induction false} DigitRun(line: Bytes) returns (n: nat)
    ensures n <= |line| && (forall i :: 0 <= i < n ==> IsHexChar(line[i])) && (n < |line| ==> !IsHexChar(line[n]))
  {
    n := 0;
    while n < |line| && IsHexChar(line[n])
      invariant n <= |line| && forall i :: 0 <= i < n ==> IsHexChar(line[i])
    {
      n := n + 1;
    }
  }

  /** What may follow the size: nothing, an extension, or padding. */
  ghost predicate ExtOk(ext: Bytes) {
    |ext| > 0 ==> ext[0] == 59 || ext[0] == SPACE || ext[0] == TAB
  }

  /** The size line spells n. */
  ghost predicate Sizes(line: Bytes, ds: seq<Hexit>, ext: Bytes) {
    HexitsOk(ds) && |ds| > 0 && ExtOk(ext) && line == Digits(ds) + ext
  }

  lemma {:induction false} SizeReads(line: Bytes, ds: seq<Hexit>, ext: Bytes)
    requires Sizes(line, ds, ext)
    ensures SizeLine(line) == if Value(ds) <= SIZE_MAX then Some(Value(ds)) else None
  {
    assert line[..|ds|] == Digits(ds) && ds[..0] == [];
    if |ext| > 0 { assert line[|ds|] == ext[0]; }
    DigitsFrom(line, ds, 0);
  }

  /** Exactly the lines that declare a size: hexadecimal digits in either case with a value of
      at most size_t, then nothing, an extension or padding. */
  lemma {:induction false} SizeLineExact(line: Bytes, n: nat)
    ensures SizeLine(line) == Some(n) <==>
              n <= SIZE_MAX && exists ds, ext :: Sizes(line, ds, ext) && Value(ds) == n
  {
    if SizeLine(line) == Some(n) {
      var k := DigitRun(line);
      var ds := SomeDigits(line, k);
      assert ds[..0] == [];
      DigitsFrom(line, ds, 0);
      assert line == Digits(ds) + line[k..];
      assert Sizes(line, ds, line[k..]);
    }
    if ds, ext :| Sizes(line, ds, ext) && Value(ds) == n {
      SizeReads(line, ds, ext);
    }
  }

  // ---- chunks ----------------------------------------------------------------------------

  datatype Piece = Piece(data: Bytes, digits: seq<Hexit>, ext: Bytes, sizeCr: bool, dataCr: bool)

  /** The last chunk, its trailer lines and the blank line. */
  datatype Finish = Finish(zeros: seq<Hexit>, ext: Bytes, sizeCr: bool, trailer: seq<(Bytes, bool)>, endCr: bool)

  /** A line that its end alone ends. */
  ghost predicate OneLine(t: Bytes, cr: bool) {
    |t| > 0 && LF !in t && (!cr ==> t[|t| - 1] != CR)
  }

  ghost function SizeText(ds: seq<Hexit>, ext: Bytes): Bytes
    requires HexitsOk(ds)
  {
    Digits(ds) + ext
  }

  ghost predicate SizeOk(ds: seq<Hexit>, ext: Bytes, cr: bool) {
    HexitsOk(ds) && |ds| > 0 && ExtOk(ext) && OneLine(SizeText(ds, ext), cr)
  }

  ghost predicate PieceOk(p: Piece) {
    SizeOk(p.digits, p.ext, p.sizeCr) && Value(p.digits) == |p.data| && 0 < |p.data| <= SIZE_MAX
  }

  ghost predicate FinishOk(f: Finish) {
    && SizeOk(f.zeros, f.ext, f.sizeCr) && Value(f.zeros) == 0
    && forall i :: 0 <= i < |f.trailer| ==> OneLine(f.trailer[i].0, f.trailer[i].1)
  }

  ghost function PieceText(p: Piece): Bytes
    requires PieceOk(p)
  {
    SizeText(p.digits, p.ext) + LineEnd(p.sizeCr) + (p.data + LineEnd(p.dataCr))
  }

  function TrailerText(ts: seq<(Bytes, bool)>, endCr: bool): Bytes {
    if |ts| == 0 then LineEnd(endCr) else ts[0].0 + LineEnd(ts[0].1) + TrailerText(ts[1..], endCr)
  }

  ghost function FinishText(f: Finish): Bytes
    requires FinishOk(f)
  {
    SizeText(f.zeros, f.ext) + LineEnd(f.sizeCr) + TrailerText(f.trailer, f.endCr)
  }

  ghost predicate PiecesOk(ps: seq<Piece>) {
    forall i :: 0 <= i < |ps| ==> PieceOk(ps[i])
  }

  ghost function PiecesText(ps: seq<Piece>): Bytes
    requires PiecesOk(ps)
  {
    if |ps| == 0 then [] else PieceText(ps[0]) + PiecesText(ps[1..])
  }

  function Payload(ps: seq<Piece>): Bytes {
    if |ps| == 0 then [] else ps[0].data + Payload(ps[1..])
  }

  /** Every size has digits, without a leading zero. */
  lemma {:induction false} DigitsOf(n: nat) returns (ds: seq<Hexit>)
    ensures HexitsOk(ds) && |ds| > 0 && Value(ds) == n && (n > 0 ==> ds[0].value > 0)
  {
    var last := Hexit(n % 16, false);
    if n < 16 {
      ds := [last];
      assert ds[..0] == [];
    } else {
      var front := DigitsOf(n / 16);
      ds := front + [last];
      assert ds[..|ds| - 1] == front;
    }
  }

  /** So every chunk can be written. */
  lemma {:induction false} Writable(data: Bytes) returns (p: Piece)
    requires 0 < |data| <= SIZE_MAX
    ensures PieceOk(p) && p.data == data
  {
    var ds := DigitsOf(|data|);
    p := Piece(data, ds, [], true, true);
    assert LF !in SizeText(ds, []);
  }

  lemma {:induction false} OneLineAt(s: Bytes, i: nat, t: Bytes, cr: bool)
    requires At(s, i, t + LineEnd(cr)) && OneLine(t, cr)
    ensures var e := i + |t| + |LineEnd(cr)| - 1; e < |s| && Find(s, i, LF) == e && Chomp(s[i..e]) == t
  {
    var w, e := t + LineEnd(cr), i + |t| + |LineEnd(cr)| - 1;
    assert forall j {:trigger s[j]} :: i <= j < i + |w| ==> s[j] == w[j - i];
    forall j | i <= j < e ensures s[j] != LF {
      if j < i + |t| { assert s[j] == t[j - i] && t[j - i] in t; }
    }
    FindIs(s, i, LF, e);
    assert s[i..e] == w[..|w| - 1];
    assert cr ==> s[i..e] == t + [CR];
    assert !cr ==> s[i..e] == t;
  }

  lemma {:induction false} DataEndAt(s: Bytes, i: nat, cr: bool)
    requires At(s, i, LineEnd(cr))
    ensures DataEnd(s, i) == Some(i + |LineEnd(cr)|)
  {
    var w := LineEnd(cr);
    assert forall j {:trigger s[j]} :: i <= j < i + |w| ==> s[j] == w[j - i];
  }

  /** A written chunk is found with its data. */
  lemma {:induction false} PieceAt(s: Bytes, pos: nat, p: Piece)
    requires PieceOk(p) && At(s, pos, PieceText(p))
    ensures var from := pos + |SizeText(p.digits, p.ext)| + |LineEnd(p.sizeCr)|;
            && ChunkAt(s, pos) == Data(from, from + |p.data|, pos + |PieceText(p)|)
            && s[from..from + |p.data|] == p.data
  {
    hide SizeLine, Find, Chomp, DataEnd, At, LineEnd, SizeText, Value, OneLine;
    var t := SizeText(p.digits, p.ext);
    var line := t + LineEnd(p.sizeCr);
    AtParts(s, pos, line, p.data + LineEnd(p.dataCr));
    AtParts(s, pos + |line|, p.data, LineEnd(p.dataCr));
    OneLineAt(s, pos, t, p.sizeCr);
    SizeTextReads(p.digits, p.ext);
    DataEndAt(s, pos + |line| + |p.data|, p.dataCr);
    AtMeans(s, pos + |line|, p.data);
    AtMeans(s, pos + |line| + |p.data|, LineEnd(p.dataCr));
  }

  lemma {:induction false} AtMeans(s: Bytes, i: nat, t: Bytes)
    requires At(s, i, t)
    ensures i + |t| <= |s| && s[i..i + |t|] == t
  {
  }

  lemma {:induction false} SizeTextReads(ds: seq<Hexit>, ext: Bytes)
    requires HexitsOk(ds) && |ds| > 0 && ExtOk(ext)
    ensures SizeLine(SizeText(ds, ext)) == if Value(ds) <= SIZE_MAX then Some(Value(ds)) else None
  {
    hide SizeLine, Value;
    assert Sizes(SizeText(ds, ext), ds, ext);
    SizeReads(SizeText(ds, ext), ds, ext);
  }

  /** The trailer is passed over line by line. */
  lemma {:induction false} TrailerAt(s: Bytes, pos: nat, ts: seq<(Bytes, bool)>, endCr: bool)
    requires At(s, pos, TrailerText(ts, endCr)) && forall i :: 0 <= i < |ts| ==> OneLine(ts[i].0, ts[i].1)
    ensures pos <= |s| && TrailerEnd(s, pos) == pos + |TrailerText(ts, endCr)|
    decreases |ts|
  {
    hide Find, Chomp, At, LineEnd, OneLine;
    AtMeans(s, pos, TrailerText(ts, endCr));
    if |ts| == 0 {
      BlankFound(s, pos, endCr);
    } else {
      var line := ts[0].0 + LineEnd(ts[0].1);
      AtParts(s, pos, line, TrailerText(ts[1..], endCr));
      OneLineAt(s, pos, ts[0].0, ts[0].1);
      LineNotEmpty(ts[0].0, ts[0].1);
      TrailerAt(s, pos + |line|, ts[1..], endCr);
    }
  }

  lemma {:induction false} LineNotEmpty(t: Bytes, cr: bool)
    requires OneLine(t, cr)
    ensures |t| > 0
  {
  }

  lemma {:induction false} BlankFound(s: Bytes, i: nat, cr: bool)
    requires At(s, i, LineEnd(cr))
    ensures var e := i + |LineEnd(cr)| - 1; e < |s| && Find(s, i, LF) == e && |Chomp(s[i..e])| == 0
  {
    var w := LineEnd(cr);
    assert forall j {:trigger s[j]} :: i <= j < i + |w| ==> s[j] == w[j - i];
    FindIs(s, i, LF, i + |w| - 1);
  }

  lemma {:induction false} FinishAt(s: Bytes, pos: nat, f: Finish)
    requires FinishOk(f) && At(s, pos, FinishText(f))
    ensures ChunkAt(s, pos) == Last(pos + |FinishText(f)|)
  {
    hide SizeLine, Find, Chomp, TrailerEnd, At, LineEnd, SizeText, Value, OneLine, TrailerText;
    var t := SizeText(f.zeros, f.ext);
    var line := t + LineEnd(f.sizeCr);
    AtParts(s, pos, line, TrailerText(f.trailer, f.endCr));
    OneLineAt(s, pos, t, f.sizeCr);
    SizeTextReads(f.zeros, f.ext);
    TrailerAt(s, pos + |line|, f.trailer, f.endCr);
    AtMeans(s, pos, line);
  }

  lemma {:induction false} PiecesStep(ps: seq<Piece>)
    requires PiecesOk(ps)
    ensures |ps| == 0 ==> PiecesText(ps) == [] && Payload(ps) == []
    ensures |ps| > 0 ==> PieceOk(ps[0]) && PiecesOk(ps[1..])
                         && PiecesText(ps) == PieceText(ps[0]) + PiecesText(ps[1..])
                         && Payload(ps) == ps[0].data + Payload(ps[1..])
  {
    hide PieceText, PieceOk;
  }

  /** Written chunks are decoded one after the other. */
  lemma {:induction false} PiecesDecode(s: Bytes, pos: nat, ps: seq<Piece>, body: Bytes)
    requires PiecesOk(ps) && At(s, pos, PiecesText(ps))
    ensures pos + |PiecesText(ps)| <= |s|
    ensures Chunks(s, pos, body) == Chunks(s, pos + |PiecesText(ps)|, body + Payload(ps))
    decreases |ps|
  {
    hide ChunkAt, Chunks, PieceText, PieceOk, PiecesText, Payload, PiecesOk, At;
    PiecesStep(ps);
    AtMeans(s, pos, PiecesText(ps));
    if |ps| == 0 {
      assert body + [] == body;
    } else {
      AtParts(s, pos, PieceText(ps[0]), PiecesText(ps[1..]));
      PieceAt(s, pos, ps[0]);
      ChunksStep(s, pos, body);
      PiecesDecode(s, pos + |PieceText(ps[0])|, ps[1..], body + ps[0].data);
      assert body + ps[0].data + Payload(ps[1..]) == body + Payload(ps);
    }
  }

  lemma {:induction false} DecodesFrom(ps: seq<Piece>, rest: Bytes)
    requires PiecesOk(ps)
    ensures var s, n := PiecesText(ps) + rest, |PiecesText(ps)|;
            s[n..] == rest && Decode(s) == Chunks(s, n, Payload(ps))
  {
    hide Chunks, PiecesText, Payload, PiecesOk;
    var s := PiecesText(ps) + rest;
    assert At(s, 0, PiecesText(ps));
    PiecesDecode(s, 0, ps, []);
    assert [] + Payload(ps) == Payload(ps);
  }

  /** Whatever is chunked in any permitted form comes back, and nothing after it is touched. */
  lemma {:induction false} WrittenDecodes(ps: seq<Piece>, f: Finish, rest: Bytes)
    requires PiecesOk(ps) && FinishOk(f)
    ensures var w := PiecesText(ps) + FinishText(f); Decode(w + rest) == Done(Payload(ps), |w|)
  {
    hide ChunkAt, Chunks, PiecesText, Payload, PiecesOk, FinishOk, FinishText, Decode;
    var w := PiecesText(ps) + FinishText(f);
    var s, n := PiecesText(ps) + (FinishText(f) + rest), |PiecesText(ps)|;
    assert w + rest == s;
    DecodesFrom(ps, FinishText(f) + rest);
    assert At(s, n, FinishText(f));
    FinishAt(s, n, f);
    ChunksStep(s, n, Payload(ps));
  }

  /** While such a body is still arriving it is neither done nor malformed. */
  lemma {:induction false} PrefixWaits(ps: seq<Piece>, f: Finish, n: nat)
    requires PiecesOk(ps) && FinishOk(f) && n < |PiecesText(ps) + FinishText(f)|
    ensures Decode((PiecesText(ps) + FinishText(f))[..n]).More?
  {
    hide PiecesText, Payload, PiecesOk, FinishOk, FinishText, Decode, Chunks;
    var w := PiecesText(ps) + FinishText(f);
    WrittenDecodes(ps, f, []);
    assert w + [] == w && w[..n] + w[n..] == w;
    MoreDecodes(w[..n], w[n..]);
  }

  lemma {:induction false} PartOfLine(s: Bytes, i: nat, t: Bytes, cr: bool)
    requires i <= |s| && OneLine(t, cr) && |s| - i < |t + LineEnd(cr)| && s[i..] == (t + LineEnd(cr))[..|s| - i]
    ensures Find(s, i, LF) == -1
  {
    var w := t + LineEnd(cr);
    forall j | i <= j < |s| ensures s[j] != LF {
      assert s[j] == s[i..][j - i] == w[j - i];
      assert j - i < |t| ==> t[j - i] in t;
    }
  }

  /** A chunk that has arrived in part. */
  lemma {:induction false} PartOfChunk(s: Bytes, pos: nat, p: Piece)
    requires PieceOk(p) && pos <= |s| && |s| - pos < |PieceText(p)| && s[pos..] == PieceText(p)[..|s| - pos]
    ensures var from := pos + |SizeText(p.digits, p.ext)| + |LineEnd(p.sizeCr)|;
            && (|s| < from + |p.data| ==> ChunkAt(s, pos) == Wait)
            && (|s| >= from + |p.data| ==> ChunkAt(s, pos) == Data(from, from + |p.data|, -1)
                                           && s[from..from + |p.data|] == p.data)
  {
    hide SizeLine, Find, Chomp, SizeText, Value, OneLine, DataEnd, LineEnd, At;
    var t := SizeText(p.digits, p.ext);
    var line := t + LineEnd(p.sizeCr);
    PrefixParts(s, pos, line, p.data, LineEnd(p.dataCr));
    if |s| - pos < |line| {
      PartOfLine(s, pos, t, p.sizeCr);
    } else {
      OneLineAt(s, pos, t, p.sizeCr);
      SizeTextReads(p.digits, p.ext);
      SizedChunk(s, pos, pos + |line| - 1, t, |p.data|);
      if |s| - pos >= |line| + |p.data| { PartOfEnd(s, pos + |line| + |p.data|, p.dataCr); }
    }
    hide ChunkAt;
  }

  /** A chunk whose size line ends at e. */
  lemma {:induction false} SizedChunk(s: Bytes, pos: nat, e: nat, t: Bytes, size: nat)
    requires pos <= e < |s| && Find(s, pos, LF) == e && Chomp(s[pos..e]) == t && SizeLine(t) == Some(size) && size > 0
    ensures |s| - (e + 1) < size ==> ChunkAt(s, pos) == Wait
    ensures |s| - (e + 1) >= size && DataEnd(s, e + 1 + size).Some? ==>
              ChunkAt(s, pos) == Data(e + 1, e + 1 + size, DataEnd(s, e + 1 + size).value)
  {
    hide SizeLine, Find, Chomp, DataEnd;
  }

  /** The rest of s is the beginning of three pieces: how much of each is there. */
  lemma {:induction false} PrefixParts(s: Bytes, pos: nat, a: Bytes, b: Bytes, c: Bytes)
    requires pos <= |s| && |s| - pos <= |a + (b + c)| && s[pos..] == (a + (b + c))[..|s| - pos]
    ensures |s| - pos < |a| ==> s[pos..] == a[..|s| - pos]
    ensures |s| - pos >= |a| ==> At(s, pos, a)
    ensures var to := pos + |a| + |b|;
            |s| >= to ==> s[pos + |a|..to] == b && s[to..] == c[..|s| - to]
  {
    var w, n := a + (b + c), |s| - pos;
    assert forall i {:trigger s[i]} :: pos <= i < |s| ==> s[i] == s[pos..][i - pos] == w[i - pos];
  }

  lemma {:induction false} PartOfEnd(s: Bytes, i: nat, cr: bool)
    requires i <= |s| && |s| - i < |LineEnd(cr)| && s[i..] == LineEnd(cr)[..|s| - i]
    ensures DataEnd(s, i) == Some(-1)
  {
    assert |s| > i ==> s[i] == s[i..][0];
  }

  /** What has arrived of a body so far is the data of the chunks that are there, the last of
      them perhaps without its line end. */
  lemma {:induction false} ArrivingBody(ps: seq<Piece>, p: Piece, n: nat)
    requires PiecesOk(ps) && PieceOk(p) && n < |PieceText(p)|
    ensures var line := |SizeText(p.digits, p.ext)| + |LineEnd(p.sizeCr)|;
            Decode(PiecesText(ps) + PieceText(p)[..n]) ==
            More(if n < line + |p.data| then Payload(ps) else Payload(ps) + p.data)
  {
    hide PieceText, PiecesText, Payload, PiecesOk, PieceOk, Decode, Chunks, ChunkAt, SizeText, LineEnd;
    var part := PieceText(p)[..n];
    var s, at := PiecesText(ps) + part, |PiecesText(ps)|;
    DecodesFrom(ps, part);
    PartOfChunk(s, at, p);
    ChunksStep(s, at, Payload(ps));
  }

  lemma {:induction false} MoreDecodes(s: Bytes, t: Bytes)
    ensures Decode(s).Malformed? ==> Decode(s + t).Malformed?
    ensures Decode(s).Done? ==> Decode(s + t) == Decode(s)
  {
    MoreInput(s, t, 0, []);
    if Decode(s).Done? {
      assert (s + t)[..|s|] == s[..|s|];
      DoneLocal(s, s + t, |s|, 0, []);
    }
  }

  // ---- what is refused ----------------------------------------------------------------------

  /** A size line that declares no size makes the coding malformed. */
  lemma {:induction false} BadSizeRefused(ps: seq<Piece>, line: Bytes, cr: bool, rest: Bytes)
    requires PiecesOk(ps) && LF !in line && (!cr && |line| > 0 ==> line[|line| - 1] != CR)
    requires forall ds, ext :: Sizes(line, ds, ext) ==> Value(ds) > SIZE_MAX
    ensures Decode(PiecesText(ps) + (line + LineEnd(cr) + rest)).Malformed?
  {
    hide PiecesText, Payload, PiecesOk, Decode, Value, Chunks, Sizes, SizeLine, At, LineEnd, Find, Chomp;
    var t := line + LineEnd(cr) + rest;
    var s, n := PiecesText(ps) + t, |PiecesText(ps)|;
    DecodesFrom(ps, t);
    TailAt(s, n, t);
    AtParts(s, n, line + LineEnd(cr), rest);
    AnyLineAt(s, n, line, cr);
    if SizeLine(line).Some? { SizeLineExact(line, SizeLine(line).value); }
    BadChunk(s, n, Payload(ps));
  }

  lemma {:induction false} AnyLineAt(s: Bytes, i: nat, t: Bytes, cr: bool)
    requires At(s, i, t + LineEnd(cr)) && LF !in t && (!cr && |t| > 0 ==> t[|t| - 1] != CR)
    ensures var e := i + |t| + |LineEnd(cr)| - 1; e < |s| && Find(s, i, LF) == e && Chomp(s[i..e]) == t
  {
    if |t| > 0 {
      OneLineAt(s, i, t, cr);
    } else {
      assert t + LineEnd(cr) == LineEnd(cr);
      BlankFound(s, i, cr);
    }
  }

  lemma {:induction false} BadChunk(s: Bytes, pos: nat, body: Bytes)
    requires pos <= |s| && ChunkAt(s, pos).Bad?
    ensures Chunks(s, pos, body).Malformed?
  {
    hide ChunkAt;
  }

  /** Chunk data that no line end follows makes the coding malformed. */
  lemma {:induction false} BadEndRefused(ps: seq<Piece>, p: Piece, rest: Bytes)
    requires PiecesOk(ps) && PieceOk(p) && |rest| > 0 && rest[0] != LF
    requires rest[0] == CR ==> |rest| > 1 && rest[1] != LF
    ensures Decode(PiecesText(ps) + (SizeText(p.digits, p.ext) + LineEnd(p.sizeCr) + (p.data + rest))).Malformed?
  {
    hide PiecesText, Payload, PiecesOk, Decode, Chunks, ChunkAt, SizeText, At, LineEnd;
    var t := SizeText(p.digits, p.ext) + LineEnd(p.sizeCr) + (p.data + rest);
    var s, n := PiecesText(ps) + t, |PiecesText(ps)|;
    DecodesFrom(ps, t);
    TailAt(s, n, t);
    NoEndChunk(s, n, p, rest);
    BadChunk(s, n, Payload(ps));
  }

  lemma {:induction false} NoEndChunk(s: Bytes, pos: nat, p: Piece, rest: Bytes)
    requires PieceOk(p) && |rest| > 0 && rest[0] != LF && (rest[0] == CR ==> |rest| > 1 && rest[1] != LF)
    requires At(s, pos, SizeText(p.digits, p.ext) + LineEnd(p.sizeCr) + (p.data + rest))
    ensures pos <= |s| && ChunkAt(s, pos).Bad?
  {
    hide Value, SizeText, SizeLine, Find, Chomp, At, LineEnd, OneLine, DataEnd;
    var line := SizeText(p.digits, p.ext) + LineEnd(p.sizeCr);
    AtParts(s, pos, line, p.data + rest);
    AtParts(s, pos + |line|, p.data, rest);
    OneLineAt(s, pos, SizeText(p.digits, p.ext), p.sizeCr);
    SizeTextReads(p.digits, p.ext);
    AtMeans(s, pos + |line| + |p.data|, rest);
    NoEndAt(s, pos + |line| + |p.data|, rest);
  }

  lemma {:induction false} TailAt(s: Bytes, n: nat, t: Bytes)
    requires n <= |s| && s[n..] == t
    ensures At(s, n, t)
  {
  }

  lemma {:induction false} NoEndAt(s: Bytes, i: nat, rest: Bytes)
    requires At(s, i, rest) && |rest| > 0 && rest[0] != LF && (rest[0] == CR ==> |rest| > 1 && rest[1] != LF)
    ensures DataEnd(s, i) == None
  {
    assert s[i] == s[i..i + |rest|][0];
    if |rest| > 1 { assert s[i + 1] == s[i..i + |rest|][1]; }
  }
}
