/** Requests as they are written (sections 3 and 5 of RFC 9112), and what the framing pass and
    the parser make of them. */
module RequestText {
  import opened Common
  import opened Decimal
  import opened HttpText
  import opened ChunkedCoding
  import opened ChunkText
  import opened Framing
  import opened RequestParser

  /** A field line; cr: it ends in CRLF, not in LF alone. */
  datatype Header = Header(name: Bytes, value: Bytes, cr: bool)

  /** The head of a request: its first line, its field lines and the blank line. */
  datatype RequestHead = RequestHead(first: Bytes, firstCr: bool, headers: seq<Header>, endCr: bool)

  function Text(h: Header): (t: Bytes)
    ensures |t| > 0
  {
    h.name + [COLON] + h.value
  }

  function Lines(hs: seq<Header>): Bytes {
    if |hs| == 0 then [] else Text(hs[0]) + LineEnd(hs[0].cr) + Lines(hs[1..])
  }

  function HeadText(r: RequestHead): (t: Bytes) {
    r.first + LineEnd(r.firstCr) + (Lines(r.headers) + LineEnd(r.endCr))
  }

  /** A line that its end alone ends. */
  ghost predicate Clean(t: Bytes, cr: bool) {
    |t| > 0 && LF !in t && NUL !in t && (!cr ==> t[|t| - 1] != CR)
  }

  ghost predicate HeaderOk(h: Header) {
    COLON !in h.name && Clean(Text(h), h.cr)
  }

  ghost predicate HeadersOk(hs: seq<Header>) {
    forall i :: 0 <= i < |hs| ==> HeaderOk(hs[i])
  }

  /** The first line is not itself a field that frames the message. */
  ghost predicate HeadOk(r: RequestHead) {
    Clean(r.first, r.firstCr) && HeadersOk(r.headers)
    && !Named(r.first, CONTENT_LENGTH) && !Named(r.first, TRANSFER_ENCODING)
  }

  // ---- lines ---------------------------------------------------------------------------

  lemma {:induction false} LineAt(s: Bytes, i: nat, t: Bytes, cr: bool)
    requires At(s, i, t + LineEnd(cr)) && Clean(t, cr)
    ensures var e := i + |t| + |LineEnd(cr)| - 1; Find(s, i, LF) == e && Chomp(s[i..e]) == t
  {
    var w, e := t + LineEnd(cr), i + |t| + |LineEnd(cr)| - 1;
    assert forall j {:trigger s[j]} :: i <= j < i + |w| ==> s[j] == w[j - i];
    forall j | i <= j < e ensures s[j] != LF {
      if j < i + |t| { assert s[j] == t[j - i] && t[j - i] in t; }
    }
    FindIs(s, i, LF, e);
    assert s[i..e] == w[..|w| - 1];
    assert cr ==> s[i..e] == t + [CR];
    assert !cr ==> s[i..e] == t;
  }

  /** The blank line is found right after the field lines. */
  lemma {:induction false} EndOfLines(s: Bytes, i: nat, hs: seq<Header>, endCr: bool)
    requires 0 < i <= |s| && s[i - 1] == LF && HeadersOk(hs) && At(s, i, Lines(hs) + LineEnd(endCr))
    ensures var p := i - 1 + |Lines(hs)|;
            HeaderEnd(s, i - 1) == p && BlankLineAfter(s, p) == p + |LineEnd(endCr)|
    decreases |hs|
  {
    hide HeaderEnd, BlankLineAfter, Find, Chomp, At, Lines, LineEnd, Text, Clean;
    AtParts(s, i, Lines(hs), LineEnd(endCr));
    LinesStep(hs);
    HeaderEndStep(s, i);
    if |hs| == 0 {
      BlankAt(s, i, endCr);
    } else {
      var h := hs[0];
      var line := Text(h) + LineEnd(h.cr);
      AtParts(s, i, line, Lines(hs[1..]));
      LineAt(s, i, Text(h), h.cr);
      EmptyLine(s, i);
      AtParts(s, i + |line|, Lines(hs[1..]), LineEnd(endCr));
      LastByte(s, i, Text(h), h.cr);
      EndOfLines(s, i + |line|, hs[1..], endCr);
    }
  }

  lemma {:induction false} LinesStep(hs: seq<Header>)
    ensures |hs| == 0 ==> Lines(hs) == []
    ensures |hs| > 0 ==> Lines(hs) == Text(hs[0]) + LineEnd(hs[0].cr) + Lines(hs[1..])
  {
    hide Text, LineEnd;
  }

  lemma {:induction false} LastByte(s: Bytes, i: nat, t: Bytes, cr: bool)
    requires At(s, i, t + LineEnd(cr))
    ensures i + |t + LineEnd(cr)| <= |s| && s[i + |t + LineEnd(cr)| - 1] == LF
  {
    var w := t + LineEnd(cr);
    assert s[i..i + |w|][|w| - 1] == LF;
  }

  lemma {:induction false} BlankAt(s: Bytes, i: nat, endCr: bool)
    requires 0 < i <= |s| && At(s, i, LineEnd(endCr))
    ensures BlankLineAfter(s, i - 1) == i - 1 + |LineEnd(endCr)|
  {
    var w := LineEnd(endCr);
    assert forall j {:trigger s[j]} :: i <= j < i + |w| ==> s[j] == w[j - i];
  }

  /** The framing fields read line after line. */
  function Fold(f: Fields, hs: seq<Header>): Scan
    decreases |hs|
  {
    if |hs| == 0 then Fine(f)
    else match FrameLine(f, Text(hs[0])) case Fail(v) => Fail(v) case Fine(g) => Fold(g, hs[1..])
  }

  lemma {:induction false} ScanHeaders(s: Bytes, i: nat, hs: seq<Header>, f: Fields)
    requires 0 < i <= |s| && s[i - 1] == LF && HeadersOk(hs) && At(s, i, Lines(hs))
    ensures var p := i - 1 + |Lines(hs)|; p < |s| && s[p] == LF && ScanLines(s, i, p, f) == Fold(f, hs)
    decreases |hs|
  {
    hide FrameLine, Find, Chomp, At, Lines, LineEnd, Text, Clean;
    LinesStep(hs);
    if |hs| > 0 {
      var h := hs[0];
      var line := Text(h) + LineEnd(h.cr);
      AtParts(s, i, line, Lines(hs[1..]));
      LineAt(s, i, Text(h), h.cr);
      LastByte(s, i, Text(h), h.cr);
      var g := FrameLine(f, Text(h));
      ScanHeaders(s, i + |line|, hs[1..], if g.Fine? then g.fields else f);
    }
  }

  lemma {:induction false} LinesClean(hs: seq<Header>)
    requires HeadersOk(hs)
    ensures NUL !in Lines(hs)
  {
    if |hs| > 0 { LinesClean(hs[1..]); }
  }

  /** The head of a written request is found, and says what its field lines say. */
  lemma {:induction false} HeadReads(r: RequestHead, rest: Bytes)
    requires HeadOk(r)
    ensures HeadOf(HeadText(r) + rest) ==
            match Fold(NO_FIELDS, r.headers) case Fail(v) => Broken(v) case Fine(f) => Head(|HeadText(r)|, f)
    ensures FirstLine(HeadText(r) + rest) == r.first
  {
    hide HeaderEnd, BlankLineAfter, Find, Chomp, FrameLine, ScanLines, At, Lines, LineEnd, Clean, Named, HeadText, Fold;
    var s := HeadText(r) + rest;
    var line, lines := r.first + LineEnd(r.firstCr), Lines(r.headers);
    var i := |line|;
    HeadFacts(r);
    HeadPlaces(r, rest);
    LineAt(s, 0, r.first, r.firstCr);
    LastByte(s, 0, r.first, r.firstCr);
    EndOfLines(s, i, r.headers, r.endCr);
    HeaderEndFirst(s);
    ScanHeaders(s, i, r.headers, NO_FIELDS);
    var p := i - 1 + |lines|;
    FirstLineScan(s, p);
    FirstNotField(r.first);
    HeadClean(r);
  }

  lemma {:induction false} HeadPlaces(r: RequestHead, rest: Bytes)
    ensures var s, line, lines := HeadText(r) + rest, r.first + LineEnd(r.firstCr), Lines(r.headers);
            && At(s, 0, line) && At(s, |line|, lines + LineEnd(r.endCr)) && At(s, |line|, lines)
            && |HeadText(r)| == |line| + |lines| + |LineEnd(r.endCr)| && s[..|HeadText(r)|] == HeadText(r)
  {
    hide LineEnd, Lines;
    var s, line, lines := HeadText(r) + rest, r.first + LineEnd(r.firstCr), Lines(r.headers);
    assert At(s, 0, HeadText(r));
    AtParts(s, 0, line, lines + LineEnd(r.endCr));
    AtParts(s, |line|, lines, LineEnd(r.endCr));
  }

  lemma {:induction false} HeadClean(r: RequestHead)
    requires HeadOk(r)
    ensures NUL !in HeadText(r)
  {
    hide Lines, Named;
    LinesClean(r.headers);
  }

  lemma {:induction false} HeaderEndFirst(s: Bytes)
    requires Find(s, 0, LF) != -1
    ensures HeaderEnd(s, 0) == HeaderEnd(s, Find(s, 0, LF))
  {
    var e := Find(s, 0, LF);
    FindIs(s, e, LF, e);
  }

  lemma {:induction false} FirstNotField(first: Bytes)
    requires !Named(first, CONTENT_LENGTH) && !Named(first, TRANSFER_ENCODING)
    ensures FrameLine(NO_FIELDS, first) == Fine(NO_FIELDS)
  {
  }

  // ---- what a field line says -------------------------------------------------------------

  ghost predicate IsLength(h: Header) {
    EqualFold(h.name, CONTENT_LENGTH)
  }

  ghost predicate IsCoding(h: Header) {
    EqualFold(h.name, TRANSFER_ENCODING)
  }

  /** Fewer than 32 digits of value n between blanks. */
  ghost predicate Declares(v: Bytes, n: nat) {
    n <= ULONG_MAX && exists p, d, q :: Spells(v, p, d, q) && |d| < MAX_VALUE && Number(d) == n
  }

  /** The word "chunked", in any case, between blanks. */
  ghost predicate SaysChunked(v: Bytes) {
    exists p, w, q {:trigger p + w + q} :: v == p + w + q && Blanks(p) && Blanks(q) && EqualFold(w, CHUNKED)
  }

  lemma {:induction false} TrimIs(p: Bytes, d: Bytes, q: Bytes)
    requires Blanks(p) && Blanks(q) && |d| > 0 && !IsBlank(d[0]) && !IsBlank(d[|d| - 1])
    ensures Trim(p + d + q) == d
  {
    var v, a, b := p + d + q, |p|, |p| + |d|;
    assert forall j {:trigger v[j]} :: 0 <= j < |v| ==>
             v[j] == if j < a then p[j] else if j < b then d[j - a] else q[j - b];
    SkipBlanksIs(v, 0, a);
    BlanksStartIs(v, a, |v|, b);
    assert v[a..b] == d;
  }

  lemma {:induction false} BlanksStartIs(s: Bytes, from: nat, e: nat, r: nat)
    requires from <= r <= e <= |s| && (forall j :: r <= j < e ==> IsBlank(s[j])) && (r > from ==> !IsBlank(s[r - 1]))
    ensures BlanksStart(s, from, e) == r
  {
  }

  /** A value is its trimmed core between blanks. */
  lemma {:induction false} TrimCore(v: Bytes) returns (p: Bytes, q: Bytes)
    ensures v == p + Trim(v) + q && Blanks(p) && Blanks(q)
    ensures |Trim(v)| > 0 ==> !IsBlank(Trim(v)[0]) && !IsBlank(Trim(v)[|Trim(v)| - 1])
  {
    hide SkipBlanks, BlanksStart;
    var a := SkipBlanks(v, 0);
    var e := BlanksStart(v, a, |v|);
    p, q := v[..a], v[e..];
    assert v == v[..a] + v[a..e] + v[e..];
  }

  lemma {:induction false} DeclaresExact(v: Bytes, n: nat)
    ensures |Trim(v)| < MAX_VALUE && ContentLength(Trim(v)) == Some(n) <==> Declares(v, n)
  {
    hide Trim, ContentLength, Number;
    TrimKeepsLength(v);
    ContentLengthExact(v, n);
    forall p, d, q | Spells(v, p, d, q) ensures Trim(v) == d { TrimIs(p, d, q); }
  }

  lemma {:induction false} SaysChunkedExact(v: Bytes)
    ensures |Trim(v)| < MAX_VALUE && EqualFold(Trim(v), CHUNKED) <==> SaysChunked(v)
  {
    hide Trim;
    var p0, q0 := TrimCore(v);
    if EqualFold(Trim(v), CHUNKED) { assert v == p0 + Trim(v) + q0; }
    forall p, w, q | v == p + w + q && Blanks(p) && Blanks(q) && EqualFold(w, CHUNKED)
      ensures Trim(v) == w && |w| < MAX_VALUE
    {
      ChunkedWord(w);
      TrimIs(p, w, q);
    }
  }

  lemma {:induction false} ChunkedWord(w: Bytes)
    requires EqualFold(w, CHUNKED)
    ensures |w| == 7 && !IsBlank(w[0]) && !IsBlank(w[6])
  {
    assert Lower(w[0]) == Lower(CHUNKED[0]) && Lower(w[6]) == Lower(CHUNKED[6]);
    assert CHUNKED[0] == 'c' as int % 256 && CHUNKED[6] == 'd' as int % 256;
  }

  /** What one field line does to the framing: nothing, unless it is named Content-Length or
      Transfer-Encoding; then it declares a length or the chunked coding, or is refused. */
  lemma {:induction false} HeaderReads(f: Fields, h: Header)
    requires HeaderOk(h)
    ensures !IsLength(h) && !IsCoding(h) ==> FrameLine(f, Text(h)) == Fine(f)
    ensures IsLength(h) ==>
              && (forall n: nat :: Declares(h.value, n) ==>
                    FrameLine(f, Text(h)) == Fine(f.(length := n, sawLength := true)))
              && ((forall n: nat :: !Declares(h.value, n)) ==> FrameLine(f, Text(h)) == Fail(BadRequest))
    ensures IsCoding(h) ==>
              FrameLine(f, Text(h)) == if SaysChunked(h.value) then Fine(f.(chunked := true)) else Fail(Unsupported)
  {
    hide EqualFold, Trim, ContentLength, Declares, SaysChunked;
    var t := Text(h);
    FieldIs(h);
    NamesDiffer(h.name);
    SaysChunkedExact(h.value);
    forall n: nat
      ensures |Trim(h.value)| < MAX_VALUE && ContentLength(Trim(h.value)) == Some(n) <==> Declares(h.value, n)
    {
      DeclaresExact(h.value, n);
    }
    if |Trim(h.value)| < MAX_VALUE && ContentLength(Trim(h.value)).Some? {
      assert Declares(h.value, ContentLength(Trim(h.value)).value);
    }
  }

  lemma {:induction false} FieldIs(h: Header)
    requires COLON !in h.name
    ensures Field(Text(h)) == Some((h.name, h.value))
  {
    var t := Text(h);
    forall j | 0 <= j < |h.name| ensures t[j] != COLON { assert t[j] == h.name[j] && h.name[j] in h.name; }
    FindIs(t, 0, COLON, |h.name|);
    assert t[..|h.name|] == h.name && t[|h.name| + 1..] == h.value;
  }

  // ---- what all of them say together ---------------------------------------------------------

  ghost predicate Refused(h: Header) {
    (IsLength(h) && forall n: nat :: !Declares(h.value, n)) || (!IsLength(h) && IsCoding(h) && !SaysChunked(h.value))
  }

  ghost predicate Accepted(hs: seq<Header>) {
    forall i :: 0 <= i < |hs| ==> !Refused(hs[i])
  }

  ghost predicate SomeLength(hs: seq<Header>) {
    exists i :: 0 <= i < |hs| && IsLength(hs[i])
  }

  ghost predicate SomeCoding(hs: seq<Header>) {
    exists i :: 0 <= i < |hs| && IsCoding(hs[i])
  }

  /** n is what the last Content-Length line declares. */
  ghost predicate LastLength(hs: seq<Header>, n: nat) {
    exists i :: 0 <= i < |hs| && IsLength(hs[i]) && Declares(hs[i].value, n)
                && forall j :: i < j < |hs| ==> !IsLength(hs[j])
  }

  lemma {:induction false} DeclaresOne(v: Bytes, m: nat, n: nat)
    requires Declares(v, m) && Declares(v, n)
    ensures m == n
  {
    hide Declares, Trim, ContentLength;
    DeclaresExact(v, m);
    DeclaresExact(v, n);
  }

  lemma {:induction false} FoldAccepted(f: Fields, hs: seq<Header>) returns (g: Fields)
    requires HeadersOk(hs) && Accepted(hs)
    ensures Fold(f, hs) == Fine(g)
    ensures g.sawLength <==> f.sawLength || SomeLength(hs)
    ensures g.chunked <==> f.chunked || SomeCoding(hs)
    ensures if SomeLength(hs) then LastLength(hs, g.length) else g.length == f.length
    decreases |hs|
  {
    hide FrameLine, IsLength, IsCoding, Declares, SaysChunked, HeaderOk;
    if |hs| == 0 {
      g := f;
    } else {
      var h, rest := hs[0], hs[1..];
      HeaderReads(f, h);
      NamesApart(h);
      var m: nat := 0;
      if IsLength(h) { m :| Declares(h.value, m); }
      var f' := FrameLine(f, Text(h)).fields;
      assert f' == if IsLength(h) then f.(length := m, sawLength := true)
                   else if IsCoding(h) then f.(chunked := true) else f;
      g := FoldAccepted(f', rest);
      SomeCons(hs);
      if SomeLength(rest) {
        var i :| 0 <= i < |rest| && IsLength(rest[i]) && Declares(rest[i].value, g.length)
                 && forall j :: i < j < |rest| ==> !IsLength(rest[j]);
        assert hs[i + 1] == rest[i];
        assert LastLength(hs, g.length) by {
          forall j | i + 1 < j < |hs| ensures !IsLength(hs[j]) { assert hs[j] == rest[j - 1]; }
        }
      } else if IsLength(h) {
        assert LastLength(hs, m) by {
          forall j | 0 < j < |hs| ensures !IsLength(hs[j]) { assert hs[j] == rest[j - 1]; }
        }
      }
    }
  }

  lemma {:induction false} NamesApart(h: Header)
    ensures !(IsLength(h) && IsCoding(h))
  {
    NamesDiffer(h.name);
  }

  lemma {:induction false} SomeCons(hs: seq<Header>)
    requires |hs| > 0
    ensures SomeLength(hs) <==> IsLength(hs[0]) || SomeLength(hs[1..])
    ensures SomeCoding(hs) <==> IsCoding(hs[0]) || SomeCoding(hs[1..])
  {
    hide IsLength, IsCoding;
    var rest := hs[1..];
    if i :| 0 <= i < |rest| && IsLength(rest[i]) { assert IsLength(hs[i + 1]); }
    if i :| 0 <= i < |rest| && IsCoding(rest[i]) { assert IsCoding(hs[i + 1]); }
    if i :| 0 <= i < |hs| && IsLength(hs[i]) && i > 0 { assert IsLength(rest[i - 1]); }
    if i :| 0 <= i < |hs| && IsCoding(hs[i]) && i > 0 { assert IsCoding(rest[i - 1]); }
  }

  /** The first refused line decides. */
  lemma {:induction false} FoldRefused(f: Fields, hs: seq<Header>, j: nat)
    requires HeadersOk(hs) && j < |hs| && Refused(hs[j]) && Accepted(hs[..j])
    ensures Fold(f, hs) == Fail(if IsLength(hs[j]) then BadRequest else Unsupported)
    decreases |hs|
  {
    hide FrameLine, IsLength, IsCoding, Declares, SaysChunked, HeaderOk;
    HeaderReads(f, hs[0]);
    if j > 0 {
      assert !Refused(hs[..j][0]);
      var m: nat := 0;
      if IsLength(hs[0]) { m :| Declares(hs[0].value, m); }
      assert FrameLine(f, Text(hs[0])).Fine?;
      var front := hs[1..][..j - 1];
      forall i | 0 <= i < |front| ensures !Refused(front[i]) { assert front[i] == hs[..j][i + 1]; }
      FoldRefused(FrameLine(f, Text(hs[0])).fields, hs[1..], j - 1);
    }
  }

  // ---- the framing verdict of a written request ----------------------------------------------

  /** A refused field line refuses the request, whatever follows. */
  lemma {:induction false} RefusedRequest(r: RequestHead, rest: Bytes, maxBody: nat, j: nat)
    requires HeadOk(r) && j < |r.headers| && Refused(r.headers[j]) && Accepted(r.headers[..j])
    ensures Frame(HeadText(r) + rest, maxBody) == if IsLength(r.headers[j]) then BadRequest else Unsupported
  {
    hide HeadOf, HeadText, Fold, Refused, HeadOk, IsLength;
    assert HeadersOk(r.headers) by { HeadFacts(r); }
    HeadReads(r, rest);
    FoldRefused(NO_FIELDS, r.headers, j);
  }

  lemma {:induction false} HeadFacts(r: RequestHead)
    requires HeadOk(r)
    ensures HeadersOk(r.headers) && |r.first| > 0
  {
  }

  /** A request without a transfer coding has the body its last Content-Length declares, or
      none: too large beyond the limit, incomplete until its bytes are there. */
  lemma {:induction false} LengthRequest(r: RequestHead, n: nat, rest: Bytes, maxBody: nat)
    requires HeadOk(r) && Accepted(r.headers) && !SomeCoding(r.headers)
    requires if SomeLength(r.headers) then LastLength(r.headers, n) else n == 0
    ensures var s := HeadText(r) + rest;
            && Frame(s, maxBody) == (if n > maxBody then TooLarge else if |rest| < n then Incomplete
                                     else Complete(|HeadText(r)| + n))
            && (n <= maxBody && n <= |rest| ==> FramedBody(s, maxBody) == rest[..n])
  {
    hide HeadOf, HeadText, Fold, HeadOk, Accepted, SomeLength, SomeCoding, LastLength, Decode;
    var s := HeadText(r) + rest;
    HeadFacts(r);
    HeadReads(r, rest);
    var g := FoldAccepted(NO_FIELDS, r.headers);
    if SomeLength(r.headers) { LastLengthOne(r.headers, g.length, n); }
    assert s[|HeadText(r)|..] == rest;
    if n <= |rest| { assert s[|HeadText(r)|..|HeadText(r)| + n] == rest[..n]; }
  }

  lemma {:induction false} LastLengthOne(hs: seq<Header>, m: nat, n: nat)
    requires LastLength(hs, m) && LastLength(hs, n)
    ensures m == n
  {
    hide IsLength, Declares;
    var i :| 0 <= i < |hs| && IsLength(hs[i]) && Declares(hs[i].value, m)
             && forall j :: i < j < |hs| ==> !IsLength(hs[j]);
    var k :| 0 <= k < |hs| && IsLength(hs[k]) && Declares(hs[k].value, n)
             && forall j :: k < j < |hs| ==> !IsLength(hs[j]);
    DeclaresOne(hs[i].value, m, n);
  }

  /** A request with the chunked coding: refused next to a Content-Length, otherwise as its
      coding goes, and too large once more than the limit is decoded. */
  lemma {:induction false} ChunkedRequest(r: RequestHead, rest: Bytes, maxBody: nat)
    requires HeadOk(r) && Accepted(r.headers) && SomeCoding(r.headers)
    ensures var s, h := HeadText(r) + rest, |HeadText(r)|;
            && (SomeLength(r.headers) ==> Frame(s, maxBody) == BadRequest)
            && (!SomeLength(r.headers) ==>
                  match Decode(rest)
                  case Malformed => Frame(s, maxBody) == BadRequest
                  case More(b) => Frame(s, maxBody) == if |b| > maxBody then TooLarge else Incomplete
                  case Done(b, k) =>
                    if |b| > maxBody then Frame(s, maxBody) == TooLarge
                    else Frame(s, maxBody) == Complete(h + k) && FramedBody(s, maxBody) == b)
  {
    hide HeadOf, HeadText, Fold, HeadOk, Accepted, SomeLength, SomeCoding, LastLength, Decode;
    HeadFacts(r);
    HeadReads(r, rest);
    var g := FoldAccepted(NO_FIELDS, r.headers);
    assert (HeadText(r) + rest)[|HeadText(r)|..] == rest;
  }

  /** A request whose body is chunked in any permitted form is framed with exactly the data of its
      chunks, and ends where the chunked body ends. */
  lemma {:induction false} ChunkedBody(r: RequestHead, ps: seq<Piece>, f: Finish, rest: Bytes, maxBody: nat)
    requires HeadOk(r) && Accepted(r.headers) && SomeCoding(r.headers) && !SomeLength(r.headers)
    requires PiecesOk(ps) && FinishOk(f) && |Payload(ps)| <= maxBody
    ensures var w := PiecesText(ps) + FinishText(f);
            var s := HeadText(r) + (w + rest);
            Frame(s, maxBody) == Complete(|HeadText(r)| + |w|) && FramedBody(s, maxBody) == Payload(ps)
  {
    hide HeadText, HeadOk, Accepted, SomeLength, SomeCoding, PiecesOk, FinishOk, PiecesText, FinishText, Payload,
         Decode, Frame, FramedBody;
    WrittenDecodes(ps, f, rest);
    ChunkedRequest(r, PiecesText(ps) + FinishText(f) + rest, maxBody);
  }

  /** The usual case: one Content-Length line, in any case and with any blanks around n. */
  lemma {:induction false} DeclaredRequest(r: RequestHead, i: nat, p: Bytes, n: nat, q: Bytes, rest: Bytes,
                                           maxBody: nat)
    requires HeadOk(r) && i < |r.headers| && EqualFold(r.headers[i].name, CONTENT_LENGTH)
    requires r.headers[i].value == p + Show(n) + q && Blanks(p) && Blanks(q) && n <= ULONG_MAX
    requires forall j :: 0 <= j < |r.headers| && j != i ==>
               !EqualFold(r.headers[j].name, CONTENT_LENGTH) && !EqualFold(r.headers[j].name, TRANSFER_ENCODING)
    ensures var s := HeadText(r) + rest;
            && Frame(s, maxBody) == (if n > maxBody then TooLarge else if |rest| < n then Incomplete
                                     else Complete(|HeadText(r)| + n))
            && (n <= maxBody && n <= |rest| ==> FramedBody(s, maxBody) == rest[..n])
  {
    hide HeadText, HeadOk, EqualFold, Frame, FramedBody, Show, Number;
    var v := r.headers[i].value;
    NumberShow(n);
    TwentyDigits(n);
    assert Spells(v, p, Show(n), q) && Declares(v, n);
    NamesApart(r.headers[i]);
    assert LastLength(r.headers, n);
    LengthRequest(r, n, rest, maxBody);
  }

  lemma {:induction false} TenToTwenty()
    ensures Pow(10, 20) > ULONG_MAX
  {
    assert Pow(10, 4) == 10000 && Pow(10, 8) == 10000 * Pow(10, 4);
    assert Pow(10, 12) == 10000 * Pow(10, 8) && Pow(10, 16) == 10000 * Pow(10, 12);
    assert Pow(10, 20) == 10000 * Pow(10, 16);
  }

  lemma {:induction false} TwentyDigits(n: nat)
    requires n <= ULONG_MAX
    ensures |Show(n)| < MAX_VALUE
  {
    TenToTwenty();
    ShowLength(n, 20);
  }

  // ---- the parser on a written request ---------------------------------------------------------

  ghost predicate Spaces(t: Bytes) {
    forall i :: 0 <= i < |t| ==> t[i] == SPACE || 9 <= t[i] <= 13
  }

  ghost predicate IsWord(w: Bytes, width: nat) {
    0 < |w| <= width && forall i :: 0 <= i < |w| ==> w[i] != SPACE && !(9 <= w[i] <= 13)
  }

  /** Three words within their widths, with white space before and between them, are read as
      those words.  A word of full width needs no white space after it: what follows is taken
      for the next word. */
  lemma {:induction false} WordsRead(p: Bytes, m: Bytes, a: Bytes, t: Bytes, b: Bytes, v: Bytes, q: Bytes)
    requires Spaces(p) && Spaces(a) && Spaces(b) && (|a| > 0 || |m| == 15) && (|b| > 0 || |t| == 2047)
    requires |q| > 0 ==> q[0] == SPACE || 9 <= q[0] <= 13 || |v| == 15
    requires IsWord(m, 15) && IsWord(t, 2047) && IsWord(v, 15)
    ensures RequestLine(p + (m + (a + (t + (b + (v + q)))))) == Some((m, t, v))
  {
    hide RequestLine, Spaces, IsWord, At;
    var x1 := v + q;
    var x2 := b + x1;
    var x3 := t + x2;
    var x4 := a + x3;
    var x5 := m + x4;
    var s := p + x5;
    WholeAt(s);
    AtParts(s, 0, p, x5);
    AtParts(s, |p|, m, x4);
    AtParts(s, |p| + |m|, a, x3);
    AtParts(s, |p| + |m| + |a|, t, x2);
    AtParts(s, |p| + |m| + |a| + |t|, b, x1);
    AtParts(s, |p| + |m| + |a| + |t| + |b|, v, q);
    SpaceAt(s, |p| + |m|, a);
    SpaceAt(s, |p| + |m| + |a| + |t|, b);
    if |q| > 0 { FirstAt(s, |p| + |m| + |a| + |t| + |b| + |v|, q); }
    assert |s| == |p| + |m| + |a| + |t| + |b| + |v| + |q|;
    WordsAt(s, p, m, a, t, b, v);
  }

  lemma {:induction false} WholeAt(s: Bytes)
    ensures At(s, 0, s)
  {
  }

  lemma {:induction false} SpaceAt(s: Bytes, i: nat, a: Bytes)
    requires At(s, i, a) && Spaces(a)
    ensures |a| > 0 ==> i < |s| && IsSpace(s[i])
  {
    if |a| > 0 { assert s[i] == s[i..i + |a|][0]; }
  }

  lemma {:induction false} FirstAt(s: Bytes, i: nat, a: Bytes)
    requires At(s, i, a) && |a| > 0
    ensures i < |s| && s[i] == a[0]
  {
    assert s[i] == s[i..i + |a|][0];
  }

  /** White space and then a word at a position, and no more of the word after it, or no room
      for more. */
  ghost predicate GapAndWord(s: Bytes, i: nat, gap: Bytes, w: Bytes, width: nat) {
    && At(s, i, gap) && At(s, i + |gap|, w) && Spaces(gap) && IsWord(w, width)
    && (i + |gap| + |w| < |s| ==> IsSpace(s[i + |gap| + |w|]) || |w| == width)
  }

  lemma {:induction false} WordsAt(s: Bytes, p: Bytes, m: Bytes, a: Bytes, t: Bytes, b: Bytes, v: Bytes)
    requires GapAndWord(s, 0, p, m, 15) && GapAndWord(s, |p| + |m|, a, t, 2047)
    requires GapAndWord(s, |p| + |m| + |a| + |t|, b, v, 15)
    ensures RequestLine(s) == Some((m, t, v))
  {
    hide SkipSpace, WordEnd, GapAndWord;
    WordAt(s, 0, p, m, 15);
    WordAt(s, |p| + |m|, a, t, 2047);
    WordAt(s, |p| + |m| + |a| + |t|, b, v, 15);
  }

  lemma {:induction false} WordAt(s: Bytes, i: nat, gap: Bytes, w: Bytes, width: nat)
    requires GapAndWord(s, i, gap, w, width)
    ensures var a := i + |gap|;
            a + |w| <= |s| && SkipSpace(s, i) == a && WordEnd(s, a, width) == a + |w| && s[a..a + |w|] == w && |w| > 0
  {
    var a := i + |gap|;
    forall x | i <= x < a ensures IsSpace(s[x]) { assert s[x] == s[i..a][x - i]; }
    forall x | a <= x < a + |w| ensures !IsSpace(s[x]) { assert s[x] == s[a..a + |w|][x - a]; }
    SkipSpaceIs(s, i, a);
    WordEndAt(s, a, width, a + |w|);
  }

  lemma {:induction false} WordEndAt(s: Bytes, i: nat, width: nat, r: nat)
    requires i <= r <= |s| && r - i <= width && (forall j :: i <= j < r ==> !IsSpace(s[j]))
    requires r < |s| ==> IsSpace(s[r]) || r - i == width
    ensures WordEnd(s, i, width) == r
    decreases width
  {
    if i < r { WordEndAt(s, i + 1, width - 1, r); }
  }

  /** A written request that is complete is parsed to the body its framing declares, exactly
      when its first line has three words. */
  lemma {:induction false} WrittenParses(r: RequestHead, body: Bytes, maxBody: nat)
    requires HeadOk(r) && Frame(HeadText(r) + body, maxBody) == Complete(|HeadText(r) + body|)
    ensures var s := HeadText(r) + body;
            && (Parse(s).Parsed? <==> RequestLine(r.first).Some?)
            && (Parse(s).Parsed? ==> Parse(s).bodyStart == |HeadText(r)| && Parse(s).body == FramedBody(s, maxBody))
  {
    hide HeadOf, HeadText, Parse, RequestLine, FramedBody, HeaderEnd;
    var s := HeadText(r) + body;
    HeadReads(r, body);
    HeadEnds(s);
    ParserAgrees(s, maxBody);
    NotMisled(r, body);
  }

  lemma {:induction false} NotMisled(r: RequestHead, body: Bytes)
    requires HeadOk(r) && HeaderEnd(HeadText(r) + body, 0) != -1
    ensures !Misled(HeadText(r) + body)
  {
    hide HeadText, TransferField;
    HeadReads(r, body);
  }

  // ---- the parser by itself ----------------------------------------------------------------

  /** The value spells n; the parser knows no limit on the digits but that of unsigned long. */
  ghost predicate SpellsNumber(v: Bytes, n: nat) {
    n <= ULONG_MAX && exists p, d, q :: Spells(v, p, d, q) && Number(d) == n
  }

  ghost predicate Unreadable(h: Header) {
    || (IsLength(h) && forall n: nat :: !SpellsNumber(h.value, n))
    || (!IsLength(h) && IsCoding(h) && !SaysChunked(h.value))
  }

  /** What the parser makes of a field line. */
  lemma {:induction false} StoreReads(f: Fields, h: Header)
    requires HeaderOk(h)
    ensures Unreadable(h) ==> StoreField(f, Text(h)) == None
    ensures !Unreadable(h) ==>
              && (!IsLength(h) && !IsCoding(h) ==> StoreField(f, Text(h)) == Some(f))
              && (!IsLength(h) && IsCoding(h) ==> StoreField(f, Text(h)) == Some(f.(chunked := true)))
              && (IsLength(h) ==>
                    exists n: nat :: SpellsNumber(h.value, n)
                                     && StoreField(f, Text(h)) == Some(f.(length := n, sawLength := true)))
  {
    hide EqualFold, Trim, TrimLeft, ContentLength, SaysChunked, BlanksStart, SpellsNumber;
    FieldIs(h);
    NamesDiffer(h.name);
    SaysChunkedExact(h.value);
    ChunkedShort(h.value);
    TrimTwice(h.value);
    TrimKeepsLength(h.value);
    forall n: nat ensures ContentLength(h.value) == Some(n) <==> SpellsNumber(h.value, n) { NumberExact(h.value, n); }
    if ContentLength(h.value).Some? { assert SpellsNumber(h.value, ContentLength(h.value).value); }
  }

  lemma {:induction false} NumberExact(v: Bytes, n: nat)
    ensures ContentLength(v) == Some(n) <==> SpellsNumber(v, n)
  {
    hide ContentLength, Number;
    ContentLengthExact(v, n);
  }

  lemma {:induction false} ChunkedShort(v: Bytes)
    ensures EqualFold(Trim(v), CHUNKED) ==> |Trim(v)| < MAX_VALUE
  {
    hide Trim, EqualFold;
    if EqualFold(Trim(v), CHUNKED) { ChunkedWord(Trim(v)); }
  }

  /** The fields the parser stores line after line, None when it gives up. */
  function Stored(f: Fields, hs: seq<Header>): Option<Fields>
    decreases |hs|
  {
    if |hs| == 0 then Some(f)
    else match StoreField(f, Text(hs[0])) case None => None case Some(g) => Stored(g, hs[1..])
  }

  lemma {:induction false} BlankParsed(s: Bytes, i: nat, endCr: bool, f: Fields)
    requires At(s, i, LineEnd(endCr))
    ensures i + |LineEnd(endCr)| <= |s| && ParseLines(s, i, f) == AtBlankLine(s, i + |LineEnd(endCr)| - 1, f)
  {
    hide AtBlankLine, StoreField;
    var w := LineEnd(endCr);
    assert forall j {:trigger s[j]} :: i <= j < i + |w| ==> s[j] == w[j - i];
    FindIs(s, i, LF, i + |w| - 1);
    RequestParser.LinesStep(s, i, f);
  }

  /** The parser's loop over the lines. */
  lemma {:induction false} LinesParsed(s: Bytes, i: nat, hs: seq<Header>, endCr: bool, f: Fields)
    requires i <= |s| && HeadersOk(hs) && At(s, i, Lines(hs) + LineEnd(endCr))
    ensures var q := i + |Lines(hs)| + |LineEnd(endCr)| - 1;
            && q < |s|
            && ParseLines(s, i, f) == match Stored(f, hs) case None => Rejected case Some(g) => AtBlankLine(s, q, g)
    decreases |hs|
  {
    hide StoreField, Find, Chomp, CString, At, Lines, LineEnd, Text, Clean, AtBlankLine, ParseLines;
    AtParts(s, i, Lines(hs), LineEnd(endCr));
    LinesStep(hs);
    if |hs| == 0 {
      BlankParsed(s, i, endCr, f);
    } else {
      var h := hs[0];
      var line := Text(h) + LineEnd(h.cr);
      AtParts(s, i, line, Lines(hs[1..]));
      LineAt(s, i, Text(h), h.cr);
      LastByte(s, i, Text(h), h.cr);
      CleanString(Text(h), h.cr);
      RequestParser.LinesStep(s, i, f);
      AtParts(s, i + |line|, Lines(hs[1..]), LineEnd(endCr));
      var g := StoreField(f, Text(h));
      LinesParsed(s, i + |line|, hs[1..], endCr, if g.Some? then g.value else f);
    }
  }

  lemma {:induction false} CleanString(t: Bytes, cr: bool)
    requires Clean(t, cr)
    ensures CString(t) == t && |t| > 0
  {
    WholeString(t);
  }

  lemma {:induction false} HeadParsed(r: RequestHead, body: Bytes)
    requires Clean(r.first, r.firstCr) && HeadersOk(r.headers)
    ensures var s := HeadText(r) + body;
            Parse(s) == if RequestLine(r.first) == None then Rejected
                        else match Stored(NO_FIELDS, r.headers)
                             case None => Rejected
                             case Some(g) => AtBlankLine(s, |HeadText(r)| - 1, g)
  {
    hide StoreField, Find, Chomp, CString, At, Lines, LineEnd, Clean, AtBlankLine, ParseLines, RequestLine, HeadText,
         HeadersOk, Stored;
    var s, line := HeadText(r) + body, r.first + LineEnd(r.firstCr);
    HeadPlaces(r, body);
    LineAt(s, 0, r.first, r.firstCr);
    LastByte(s, 0, r.first, r.firstCr);
    CleanString(r.first, r.firstCr);
    LinesParsed(s, |line|, r.headers, r.endCr, NO_FIELDS);
  }

  lemma {:induction false} StoredNone(f: Fields, hs: seq<Header>, j: nat)
    requires HeadersOk(hs) && j < |hs| && Unreadable(hs[j])
    ensures Stored(f, hs) == None
    decreases |hs|
  {
    hide StoreField, Unreadable, HeaderOk;
    StoreReads(f, hs[0]);
    if j > 0 && StoreField(f, Text(hs[0])).Some? {
      assert hs[1..][j - 1] == hs[j];
      StoredNone(StoreField(f, Text(hs[0])).value, hs[1..], j - 1);
    }
  }

  /** The last length line spells n. */
  ghost predicate LastSpelled(hs: seq<Header>, n: nat) {
    exists i :: 0 <= i < |hs| && IsLength(hs[i]) && SpellsNumber(hs[i].value, n)
                && forall j :: i < j < |hs| ==> !IsLength(hs[j])
  }

  lemma {:induction false} StoredSome(f: Fields, hs: seq<Header>) returns (g: Fields)
    requires HeadersOk(hs) && forall j :: 0 <= j < |hs| ==> !Unreadable(hs[j])
    ensures Stored(f, hs) == Some(g)
    ensures g.sawLength <==> f.sawLength || SomeLength(hs)
    ensures g.chunked <==> f.chunked || SomeCoding(hs)
    ensures if SomeLength(hs) then LastSpelled(hs, g.length) else g.length == f.length
    decreases |hs|
  {
    hide StoreField, IsLength, IsCoding, SpellsNumber, SaysChunked, HeaderOk, Unreadable;
    if |hs| == 0 {
      g := f;
    } else {
      var h, rest := hs[0], hs[1..];
      StoreReads(f, h);
      NamesApart(h);
      var f' := StoreField(f, Text(h)).value;
      g := StoredSome(f', rest);
      SomeCons(hs);
      LastCons(hs, g.length, f'.length);
    }
  }

  /** The last length line of several is that of the rest, or the first. */
  lemma {:induction false} LastCons(hs: seq<Header>, n: nat, m: nat)
    requires |hs| > 0
    ensures SomeLength(hs[1..]) && LastSpelled(hs[1..], n) ==> LastSpelled(hs, n)
    ensures !SomeLength(hs[1..]) && IsLength(hs[0]) && SpellsNumber(hs[0].value, m) ==> LastSpelled(hs, m)
  {
    hide IsLength, SpellsNumber;
    var rest := hs[1..];
    assert forall j :: 0 < j < |hs| ==> hs[j] == rest[j - 1];
    if LastSpelled(rest, n) {
      var i :| 0 <= i < |rest| && IsLength(rest[i]) && SpellsNumber(rest[i].value, n)
               && forall j :: i < j < |rest| ==> !IsLength(rest[j]);
      assert hs[i + 1] == rest[i];
    }
  }

  lemma {:induction false} SpelledOne(v: Bytes, m: nat, n: nat)
    requires SpellsNumber(v, m) && SpellsNumber(v, n)
    ensures m == n
  {
    hide SpellsNumber;
    NumberExact(v, m);
    NumberExact(v, n);
  }

  lemma {:induction false} LastSpelledOne(hs: seq<Header>, m: nat, n: nat)
    requires LastSpelled(hs, m) && LastSpelled(hs, n)
    ensures m == n
  {
    hide IsLength, SpellsNumber;
    var i :| 0 <= i < |hs| && IsLength(hs[i]) && SpellsNumber(hs[i].value, m)
             && forall j :: i < j < |hs| ==> !IsLength(hs[j]);
    var k :| 0 <= k < |hs| && IsLength(hs[k]) && SpellsNumber(hs[k].value, n)
             && forall j :: k < j < |hs| ==> !IsLength(hs[j]);
    SpelledOne(hs[i].value, m, n) by { assert i == k; }
  }

  /** The parser rejects a written request, framed or not, whose first line has not three words,
      that has a length or coding line it cannot read, or that declares both. */
  lemma {:induction false} ParserRejects(r: RequestHead, body: Bytes)
    requires Clean(r.first, r.firstCr) && HeadersOk(r.headers)
    requires || RequestLine(r.first) == None
             || (exists j :: 0 <= j < |r.headers| && Unreadable(r.headers[j]))
             || (SomeLength(r.headers) && SomeCoding(r.headers))
    ensures Parse(HeadText(r) + body) == Rejected
  {
    hide Parse, HeadText, RequestLine, Stored, Unreadable, SomeLength, SomeCoding, HeadersOk, Clean, LastSpelled;
    HeadParsed(r, body);
    if j :| 0 <= j < |r.headers| && Unreadable(r.headers[j]) {
      StoredNone(NO_FIELDS, r.headers, j);
    } else {
      var g := StoredSome(NO_FIELDS, r.headers);
    }
  }

  /** And what it makes of every other: with no coding, the body is the declared number of bytes or
      as many as there are; with one, what the chunks decode to, rejected if they are not whole,
      and nothing if nothing follows the head. */
  lemma {:induction false} ParserAccepts(r: RequestHead, body: Bytes, n: nat)
    requires Clean(r.first, r.firstCr) && HeadersOk(r.headers) && RequestLine(r.first).Some?
    requires forall j :: 0 <= j < |r.headers| ==> !Unreadable(r.headers[j])
    requires !(SomeLength(r.headers) && SomeCoding(r.headers))
    requires if SomeLength(r.headers) then LastSpelled(r.headers, n) else n == 0
    ensures var p := Parse(HeadText(r) + body);
            && (!SomeCoding(r.headers) ==>
                  p.Parsed? && p.bodyStart == |HeadText(r)| && p.body == body[..if n < |body| then n else |body|])
            && (SomeCoding(r.headers) && body == [] ==>
                  p.Parsed? && p.bodyStart == |HeadText(r)| && p.body == [])
            && (SomeCoding(r.headers) && body != [] ==>
                  match Decode(body)
                  case Done(x, _) => p.Parsed? && p.bodyStart == |HeadText(r)| && p.body == x
                  case _ => p == Rejected)
  {
    hide Parse, HeadText, RequestLine, Stored, Unreadable, SomeLength, SomeCoding, HeadersOk, Clean, LastSpelled,
         Decode;
    var s, h := HeadText(r) + body, |HeadText(r)|;
    HeadParsed(r, body);
    var g := StoredSome(NO_FIELDS, r.headers);
    if SomeLength(r.headers) { LastSpelledOne(r.headers, g.length, n); }
    assert s[h..] == body;
    if !SomeCoding(r.headers) {
      var len := if n < |body| then n else |body|;
      assert s[h..h + len] == body[..len];
    }
  }
}
