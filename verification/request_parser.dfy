/** The parser that runs on a framed request (parse_http_request in
    common/src/http_protocol.c), as far as it concerns where the body is. */
module RequestParser {
  import opened Common
  import opened Decimal
  import opened HttpText
  import opened ChunkedCoding
  import opened Framing

  /** A C string: what comes before the first NUL. */
  function CString(s: Bytes): (r: Bytes)
    ensures r <= s && NUL !in r && (|r| < |s| ==> s[|r|] == NUL)
  {
    var n := Find(s, 0, NUL);
    if n == -1 then s else s[..n]
  }

  // ---- sscanf(line, "%15s %2047s %15s") --------------------------------------------------

  function SkipSpace(s: Bytes, i: nat): (r: nat)
    requires i <= |s|
    ensures i <= r <= |s| && (forall j :: i <= j < r ==> IsSpace(s[j])) && (r < |s| ==> !IsSpace(s[r]))
    decreases |s| - i
  {
    if i < |s| && IsSpace(s[i]) then SkipSpace(s, i + 1) else i
  }

  /** The end of the word at i, at most `width` bytes long. */
  function WordEnd(s: Bytes, i: nat, width: nat): (r: nat)
    requires i <= |s|
    ensures i <= r <= |s| && r - i <= width && (forall j :: i <= j < r ==> !IsSpace(s[j]))
    ensures r < |s| && r - i < width ==> IsSpace(s[r])
    decreases width
  {
    if width > 0 && i < |s| && !IsSpace(s[i]) then WordEnd(s, i + 1, width - 1) else i
  }

  /** The three words of a request line: method, target and version. */
  function RequestLine(s: Bytes): Option<(Bytes, Bytes, Bytes)> {
    var a := SkipSpace(s, 0);
    var a' := WordEnd(s, a, 15);
    var b := SkipSpace(s, a');
    var b' := WordEnd(s, b, 2047);
    var c := SkipSpace(s, b');
    var c' := WordEnd(s, c, 15);
    if a == a' || b == b' || c == c' then None else Some((s[a..a'], s[b..b'], s[c..c']))
  }

  // ---- header fields and body ------------------------------------------------------------

  datatype Parsed = Rejected | Parsed(bodyStart: nat, fields: Fields, body: Bytes)

  /** store_header_field, the framing fields only. */
  function StoreField(f: Fields, line: Bytes): Option<Fields> {
    match Field(line)
    case None => Some(f)
    case Some((name, v)) =>
      var value := TrimLeft(v);
      if EqualFold(name, CONTENT_LENGTH) then
        match ContentLength(value)
        case None => None
        case Some(n) => Some(f.(length := n, sawLength := true))
      else if EqualFold(name, TRANSFER_ENCODING) then
        if EqualFold(value[..BlanksStart(value, 0, |value|)], CHUNKED) then Some(f.(chunked := true)) else None
      else Some(f)
  }

  /** parse_request_body. */
  function ParseBody(f: Fields, s: Bytes, start: nat): Parsed
    requires start <= |s|
  {
    if f.chunked then
      match Decode(s[start..])
      case Done(body, _) => Parsed(start, f, body)
      case _ => Rejected
    else
      var len := if |s| - start > f.length then f.length else |s| - start;
      Parsed(start, f, s[start..start + len])
  }

  function ParseLines(s: Bytes, i: nat, f: Fields): Parsed
    requires i <= |s|
    decreases |s| - i
  {
    var e := Find(s, i, LF);
    if e == -1 then Parsed(|s|, f, [])
    else
      var line := CString(Chomp(s[i..e]));
      if |line| == 0 then
        if f.chunked && f.sawLength then Rejected
        else if e + 1 < |s| then ParseBody(f, s, e + 1)
        else Parsed(e + 1, f, [])
      else
        match StoreField(f, line)
        case None => Rejected
        case Some(g) => ParseLines(s, e + 1, g)
  }

  /** parse_http_request on exactly the bytes of one request. */
  function Parse(s: Bytes): Parsed {
    var e := Find(s, 0, LF);
    if e == -1 || RequestLine(CString(Chomp(s[0..e]))) == None then Rejected
    else ParseLines(s, e + 1, NO_FIELDS)
  }

  // ---- the two passes agree ----------------------------------------------------------------

  ghost predicate Named(line: Bytes, name: Bytes) {
    Field(line).Some? && EqualFold(Field(line).value.0, name)
  }

  lemma {:induction false} TrimTwice(v: Bytes)
    ensures var u := TrimLeft(v); u[..BlanksStart(u, 0, |u|)] == Trim(v)
  {
    var a := SkipBlanks(v, 0);
    var u := TrimLeft(v);
    var e, d := BlanksStart(v, a, |v|), BlanksStart(u, 0, |u|);
    assert forall j :: 0 <= j < |u| ==> u[j] == v[a + j];
    assert d > 0 ==> u[d - 1] == v[a + d - 1];
    assert e > a ==> u[e - 1 - a] == v[e - 1];
    assert d == e - a;
  }

  /** A line the framing pass accepts means the same to the parser. */
  lemma {:induction false} LineAgrees(f: Fields, line: Bytes)
    requires FrameLine(f, line).Fine?
    ensures StoreField(f, line) == Some(FrameLine(f, line).fields)
  {
    hide ContentLength, Trim, TrimLeft, EqualFold;
    if Field(line).Some? {
      TrimKeepsLength(Field(line).value.1);
      TrimTwice(Field(line).value.1);
    }
  }

  function FirstLine(s: Bytes): Bytes {
    var e := Find(s, 0, LF);
    if e == -1 then [] else Chomp(s[0..e])
  }

  /** Where the parser arrives once the header lines gave g and the blank line ended at q. */
  function AtBlankLine(s: Bytes, q: nat, g: Fields): Parsed
    requires q < |s|
  {
    if g.chunked && g.sawLength then Rejected
    else if q + 1 < |s| then ParseBody(g, s, q + 1)
    else Parsed(q + 1, g, [])
  }

  lemma {:induction false} WholeString(s: Bytes)
    requires NUL !in s
    ensures CString(s) == s
  {
  }

  lemma {:induction false} NoNul(s: Bytes, k: nat, i: nat, e: nat)
    requires i <= e <= k <= |s| && NUL !in s[..k]
    ensures NUL !in Chomp(s[i..e])
  {
    forall j | 0 <= j < e - i ensures s[i..e][j] != NUL {
      assert s[..k][i + j] in s[..k];
    }
  }

  /** An empty line after a line feed is the blank line that ends the headers. */
  lemma {:induction false} EmptyLine(s: Bytes, i: nat)
    requires 0 < i <= |s| && s[i - 1] == LF
    ensures var e := Find(s, i, LF); e != -1 ==> (|Chomp(s[i..e])| == 0 <==> BlankLineAfter(s, i - 1) == e)
    ensures BlankLineAfter(s, i - 1) != -1 ==> Find(s, i, LF) == BlankLineAfter(s, i - 1)
  {
    var e := Find(s, i, LF);
    if e != -1 && e > i { assert s[i..e][e - i - 1] == s[e - 1]; }
  }

  lemma {:induction false} HeaderEndStep(s: Bytes, i: nat)
    requires 0 < i <= |s| && s[i - 1] == LF
    ensures HeaderEnd(s, i - 1) == if BlankLineAfter(s, i - 1) != -1 then i - 1 else HeaderEnd(s, i)
    ensures Find(s, i, LF) != -1 ==> HeaderEnd(s, i) == HeaderEnd(s, Find(s, i, LF))
  {
    assert Find(s, i - 1, LF) == i - 1;
    var e := Find(s, i, LF);
    if e != -1 { assert Find(s, e, LF) == e; }
  }

  /** From any line on, the parser reads the fields the framing pass reads, and finds the
      same end of the headers. */
  lemma {:induction false} LinesAgree(s: Bytes, i: nat, p: nat, f: Fields)
    requires 0 < i <= p + 1 <= |s| && s[i - 1] == LF && HeaderEnd(s, i - 1) == p
    requires NUL !in s[..BlankLineAfter(s, p) + 1]
    requires ScanLines(s, i, p, f).Fine?
    ensures ParseLines(s, i, f) == AtBlankLine(s, BlankLineAfter(s, p), ScanLines(s, i, p, f).fields)
    decreases |s| - i
  {
    hide FrameLine, StoreField, HeaderEnd, BlankLineAfter, Find, Chomp, CString, ParseBody;
    var q := BlankLineAfter(s, p);
    var e := Find(s, i, LF);
    EmptyLine(s, i);
    HeaderEndStep(s, i);
    if i == p + 1 {
      assert e == q;
      EmptyString();
    } else {
      var line := Chomp(s[i..e]);
      NoNul(s, q + 1, i, e);
      WholeString(line);
      LineAgrees(f, line);
      var g := FrameLine(f, line).fields;
      HeaderEndStep(s, e + 1);
      LinesAgree(s, e + 1, p, g);
    }
  }

  lemma {:induction false} EmptyString()
    ensures CString([]) == []
  {
  }

  // ---- the request line, which the framing pass also reads ---------------------------------

  /** A header line after i, up to the one ending at p, that is named Transfer-Encoding. */
  ghost predicate TransferField(s: Bytes, i: nat, p: nat)
    requires i <= p + 1 <= |s| && s[p] == LF
    decreases |s| - i
  {
    i < p &&
    var e := Find(s, i, LF);
    Named(Chomp(s[i..e]), TRANSFER_ENCODING) || TransferField(s, e + 1, p)
  }

  ghost function WithChunked(r: Scan): Scan {
    if r.Fine? then Fine(r.fields.(chunked := true)) else r
  }

  lemma {:induction false} NamesDiffer(name: Bytes)
    ensures !(EqualFold(name, CONTENT_LENGTH) && EqualFold(name, TRANSFER_ENCODING))
  {
  }

  /** Having seen a chunked coding already does not change how later lines are read. */
  lemma {:induction false} ScanWithChunked(s: Bytes, i: nat, p: nat, f: Fields)
    requires i <= p + 1 <= |s| && s[p] == LF
    ensures ScanLines(s, i, p, f.(chunked := true)) == WithChunked(ScanLines(s, i, p, f))
    decreases |s| - i
  {
    hide EqualFold, Trim, ContentLength, Field, Find, Chomp;
    if i < p {
      var e := Find(s, i, LF);
      var g := FrameLine(f, Chomp(s[i..e]));
      if g.Fine? && e != p { ScanWithChunked(s, e + 1, p, g.fields); }
    }
  }

  lemma {:induction false} ScanFacts(s: Bytes, i: nat, p: nat, f: Fields)
    requires i <= p + 1 <= |s| && s[p] == LF && ScanLines(s, i, p, f).Fine?
    ensures var g := ScanLines(s, i, p, f).fields;
            (g.chunked <==> f.chunked || TransferField(s, i, p)) && (f.sawLength ==> g.sawLength)
            && (!g.sawLength ==> g.length == f.length)
    decreases |s| - i
  {
    hide EqualFold, Trim, ContentLength, Field, Find, Chomp;
    if i < p {
      var e := Find(s, i, LF);
      var line := Chomp(s[i..e]);
      var g := FrameLine(f, line).fields;
      if Field(line).Some? { NamesDiffer(Field(line).value.0); }
      if e != p { ScanFacts(s, e + 1, p, g); }
    }
  }

  /** A request line that is a Content-Length field has no third word. */
  lemma {:induction false} LengthLineRefused(line: Bytes)
    requires Named(line, CONTENT_LENGTH) && FrameLine(NO_FIELDS, line).Fine?
    ensures RequestLine(line) == None
  {
    var v := line[15..];
    assert Find(line, 0, COLON) == 14 && Field(line).value == (line[..14], v);
    LengthLineWords(line, v);
  }

  lemma {:induction false} LengthLineWords(line: Bytes, v: Bytes)
    requires |line| >= 15 && v == line[15..] && EqualFold(line[..14], CONTENT_LENGTH) && line[14] == COLON
    requires |Trim(v)| < MAX_VALUE && ContentLength(Trim(v)).Some?
    ensures RequestLine(line) == None
  {
    hide EqualFold, Trim, ContentLength;
    FirstWord(line);
    var a, b := LengthShape(v);
    assert forall j {:trigger line[j]} :: 15 <= j < |line| ==> line[j] == v[j - 15];
    SkipSpaceIs(line, 15, 15 + a);
    WordEndIs(line, 15 + a, 2047, 15 + b);
    SkipSpaceIs(line, 15 + b, |line|);
  }

  lemma {:induction false} SkipSpaceIs(s: Bytes, i: nat, r: nat)
    requires i <= r <= |s| && (forall j :: i <= j < r ==> IsSpace(s[j])) && (r < |s| ==> !IsSpace(s[r]))
    ensures SkipSpace(s, i) == r
  {
  }

  lemma {:induction false} WordEndIs(s: Bytes, i: nat, width: nat, r: nat)
    requires i <= r <= |s| && r - i < width && (forall j :: i <= j < r ==> !IsSpace(s[j]))
             && (r < |s| ==> IsSpace(s[r]))
    ensures WordEnd(s, i, width) == r
  {
  }

  lemma {:induction false} FirstWord(line: Bytes)
    requires |line| >= 15 && EqualFold(line[..14], CONTENT_LENGTH) && line[14] == COLON
    ensures SkipSpace(line, 0) == 0 && WordEnd(line, 0, 15) == 15
  {
    forall j | 0 <= j < 14 ensures !IsSpace(line[j]) {
      assert Lower(line[..14][j]) == Lower(CONTENT_LENGTH[j]);
      NameBytes(j);
    }
  }

  lemma {:induction false} NameBytes(j: nat)
    requires j < 14
    ensures !IsSpace(Lower(CONTENT_LENGTH[j])) && forall b: Byte :: IsSpace(b) ==> Lower(b) == b
  {
    assert CONTENT_LENGTH[j] == "Content-Length"[j] as int % 256;
    assert "Content-Length"[j] in "Content-Lgth";
  }

  /** A value that parses as a length is blanks, up to 31 digits, blanks. */
  lemma {:induction false} LengthShape(v: Bytes) returns (a: nat, b: nat)
    requires |Trim(v)| < MAX_VALUE && ContentLength(Trim(v)).Some?
    ensures a < b <= |v| && b - a < MAX_VALUE
    ensures forall j :: 0 <= j < a || b <= j < |v| ==> IsBlank(v[j])
    ensures forall j :: a <= j < b ==> IsDigit(v[j])
  {
    TrimKeepsLength(v);
    a := SkipBlanks(v, 0);
    b := DigitsEnd(v, a);
    assert BlanksStart(v, a, |v|) >= b;
  }

  // ---- the agreement ------------------------------------------------------------------------

  /** The framing pass took the request line for a Transfer-Encoding field, and no field after
      it says the same. */
  ghost predicate Misled(s: Bytes)
    requires HeaderEnd(s, 0) != -1
  {
    Named(FirstLine(s), TRANSFER_ENCODING) && !TransferField(s, Find(s, 0, LF) + 1, HeaderEnd(s, 0))
  }

  lemma {:induction false} FirstLineScan(s: Bytes, p: nat)
    requires HeaderEnd(s, 0) == p && p > 0
    ensures var e := Find(s, 0, LF);
            0 <= e <= p && HeaderEnd(s, e) == p
            && ScanLines(s, 0, p, NO_FIELDS) ==
               match FrameLine(NO_FIELDS, Chomp(s[0..e])) case Fail(v) => Fail(v)
               case Fine(f) => ScanLines(s, e + 1, p, f)
  {
    hide FrameLine, Chomp;
    var e := Find(s, 0, LF);
    assert Find(s, e, LF) == e;
  }

  /** What the parser makes of a complete request, from the fields after the request line. */
  lemma {:induction false} ParserSees(s: Bytes)
    requires HeadOf(s).Head?
    ensures RequestLine(FirstLine(s)) == None ==> Parse(s) == Rejected
    ensures RequestLine(FirstLine(s)).Some? ==>
              var p, e := HeaderEnd(s, 0), Find(s, 0, LF);
              e <= p && ScanLines(s, e + 1, p, NO_FIELDS).Fine?
              && Parse(s) == AtBlankLine(s, HeadOf(s).length - 1, ScanLines(s, e + 1, p, NO_FIELDS).fields)
              && HeadOf(s).fields == ScanLines(s, e + 1, p, NO_FIELDS).fields.(chunked := HeadOf(s).fields.chunked)
              && (HeadOf(s).fields.chunked <==>
                    ScanLines(s, e + 1, p, NO_FIELDS).fields.chunked || Named(FirstLine(s), TRANSFER_ENCODING))
  {
    hide FrameLine, StoreField, HeaderEnd, BlankLineAfter, ScanLines, Find, Chomp, RequestLine, Named, AtBlankLine;
    var p := HeaderEnd(s, 0);
    var e := Find(s, 0, LF);
    FirstLineClean(s);
    if RequestLine(FirstLine(s)).Some? {
      NotBlankStart(s);
      FirstLineScan(s, p);
      var line := FirstLine(s);
      FirstLineFields(line);
      ScanWithChunked(s, e + 1, p, NO_FIELDS);
      LinesAgree(s, e + 1, p, NO_FIELDS);
    }
  }

  lemma {:induction false} FirstLineClean(s: Bytes)
    requires HeadOf(s).Head?
    ensures 0 <= Find(s, 0, LF) <= HeaderEnd(s, 0) && CString(FirstLine(s)) == FirstLine(s)
  {
    hide ScanLines;
    var p := HeaderEnd(s, 0);
    NoNul(s, HeadOf(s).length, 0, Find(s, 0, LF));
    WholeString(FirstLine(s));
  }

  /** A stream that starts with a blank line has no request line to accept. */
  lemma {:induction false} NotBlankStart(s: Bytes)
    requires HeaderEnd(s, 0) != -1 && RequestLine(FirstLine(s)).Some?
    ensures HeaderEnd(s, 0) > 0
  {
  }

  /** The three ways the framing pass can read an acceptable request line. */
  lemma {:induction false} FirstLineFields(line: Bytes)
    requires FrameLine(NO_FIELDS, line).Fine? && RequestLine(line).Some?
    ensures FrameLine(NO_FIELDS, line).fields == NO_FIELDS.(chunked := Named(line, TRANSFER_ENCODING))
  {
    hide RequestLine, EqualFold, Trim, ContentLength, Field;
    if Named(line, CONTENT_LENGTH) { LengthLineRefused(line); }
    if Field(line).Some? { NamesDiffer(Field(line).value.0); }
  }

  lemma {:induction false} BodyAgrees(s: Bytes, maxBody: nat, g: Fields)
    requires Frame(s, maxBody) == Complete(|s|)
    requires HeadOf(s).fields == g.(chunked := HeadOf(s).fields.chunked)
    ensures var h := HeadOf(s).length;
            && (g == HeadOf(s).fields ==> AtBlankLine(s, h - 1, g) == Parsed(h, g, FramedBody(s, maxBody)))
            && (!g.chunked && g.length == 0 ==> AtBlankLine(s, h - 1, g) == Parsed(h, g, []))
  {
    hide HeadOf, Decode;
    var h := HeadOf(s).length;
    assert s[h..h] == [];
  }

  /** The parser accepts a framed request exactly when its first line has three words, and
      then sees the same end of the headers and the same body, unless the framing pass was
      misled by the request line: then, and only then, the two bodies may differ. */
  lemma {:induction false} ParserAgrees(s: Bytes, maxBody: nat)
    requires Frame(s, maxBody) == Complete(|s|)
    ensures Parse(s).Parsed? <==> RequestLine(FirstLine(s)).Some?
    ensures Parse(s).Parsed? ==> Parse(s).bodyStart == HeadOf(s).length
    ensures Parse(s).Parsed? && !Misled(s) ==> Parse(s).body == FramedBody(s, maxBody)
    ensures Parse(s).Parsed? && Misled(s) ==> Parse(s).body == []
  {
    hide HeadOf, RequestLine, ScanLines, HeaderEnd, Find, Chomp, Parse, Decode, TransferField, Named, FirstLine;
    HeadEnds(s);
    ParserSees(s);
    if RequestLine(FirstLine(s)).Some? {
      var p, e := HeaderEnd(s, 0), Find(s, 0, LF);
      ScanFacts(s, e + 1, p, NO_FIELDS);
      BodyAgrees(s, maxBody, ScanLines(s, e + 1, p, NO_FIELDS).fields);
    }
  }

  // ---- the misled family is real -----------------------------------------------------------

  const MISLEADING_LINE: Bytes := TRANSFER_ENCODING + [COLON, SPACE] + CHUNKED

  predicate Plain(b: Byte) {
    33 <= b <= 126 && b != COLON
  }

  lemma {:induction false} PlainNames()
    ensures |TRANSFER_ENCODING| == 17 && |CHUNKED| == 7
    ensures forall j :: 0 <= j < 17 ==> Plain(TRANSFER_ENCODING[j])
    ensures forall j :: 0 <= j < 7 ==> Plain(CHUNKED[j])
  {
    forall j | 0 <= j < 17 ensures Plain(TRANSFER_ENCODING[j]) {
      assert "Transfer-Encoding"[j] in "Transfe-Encodig";
      assert TRANSFER_ENCODING[j] == "Transfer-Encoding"[j] as int % 256;
    }
    forall j | 0 <= j < 7 ensures Plain(CHUNKED[j]) {
      assert "chunked"[j] in "chunked";
      assert CHUNKED[j] == "chunked"[j] as int % 256;
    }
  }

  lemma {:induction false} LineBytes()
    ensures var l := MISLEADING_LINE;
            |l| == 26 && l[17] == COLON && l[18] == SPACE
            && (forall j :: 0 <= j < 26 && j != 17 && j != 18 ==> Plain(l[j]))
  {
    hide TRANSFER_ENCODING, CHUNKED;
    PlainNames();
  }

  lemma {:induction false} MisleadingWords()
    ensures RequestLine(MISLEADING_LINE).Some?
  {
    hide MISLEADING_LINE;
    LineBytes();
    var l := MISLEADING_LINE;
    SkipSpaceIs(l, 0, 0);
    SkipSpaceIs(l, WordEnd(l, 0, 15), 15) by { assert WordEnd(l, 0, 15) == 15; }
    WordEndIs(l, 15, 2047, 18);
    SkipSpaceIs(l, 18, 19);
    WordEndIs(l, 19, 15, 26);
  }

  lemma {:induction false} MisleadingField()
    ensures Named(MISLEADING_LINE, TRANSFER_ENCODING)
    ensures FrameLine(NO_FIELDS, MISLEADING_LINE) == Fine(Fields(0, false, true))
  {
    hide TRANSFER_ENCODING, CHUNKED;
    PlainNames();
    LineBytes();
    var l, v := MISLEADING_LINE, [SPACE] + CHUNKED;
    FindIs(l, 0, COLON, 17);
    assert l[..17] == TRANSFER_ENCODING && l[18..] == v;
    SkipBlanksIs(v, 0, 1);
    assert BlanksStart(v, 1, 8) == 8;
    assert Trim(v) == CHUNKED;
    NamesDiffer(l[..17]);
  }

  lemma {:induction false} MisleadingHead(s: Bytes, b: Bytes)
    requires s == MISLEADING_LINE + [LF, LF] + b
    ensures Find(s, 0, LF) == 26 && FirstLine(s) == MISLEADING_LINE && HeaderEnd(s, 0) == 26 && Misled(s)
    ensures HeadOf(s) == Head(28, Fields(0, false, true))
  {
    hide MISLEADING_LINE, RequestLine, FrameLine, Named;
    LineBytes();
    MisleadingField();
    var l := MISLEADING_LINE;
    assert forall j {:trigger s[j]} :: 0 <= j < 26 ==> s[j] == l[j];
    assert s[26] == LF && s[27] == LF;
    FindIs(s, 0, LF, 26);
    assert s[0..26] == l && Chomp(l) == l;
    assert NUL !in s[..28];
    assert ScanLines(s, 0, 26, NO_FIELDS) == Fine(Fields(0, false, true));
  }

  /** The condition of ParserAgrees is needed: on each of these streams the framing pass sees
      the chunked body x, and the parser accepts the request and sees an empty one. */
  lemma {:induction false} MisledFamily(b: Bytes, x: Bytes, maxBody: nat)
    requires Decode(b) == Done(x, |b|) && |x| <= maxBody
    ensures var s := MISLEADING_LINE + [LF, LF] + b;
            && Frame(s, maxBody) == Complete(|s|) && FramedBody(s, maxBody) == x
            && Parse(s).Parsed? && Parse(s).body == []
  {
    hide MISLEADING_LINE, HeadOf, Decode, RequestLine, Parse, Misled;
    var s := MISLEADING_LINE + [LF, LF] + b;
    LineBytes();
    MisleadingHead(s, b);
    MisleadingWords();
    assert s[28..] == b;
    ParserAgrees(s, maxBody);
  }

  /** Such as with the chunks "1", "a", "0". */
  lemma {:induction false} MisledExample()
    ensures var s := MISLEADING_LINE + [LF, LF] + [49, LF, 97, LF, 48, LF, LF];
            && Frame(s, 1) == Complete(|s|) && FramedBody(s, 1) == [97]
            && Parse(s).Parsed? && Parse(s).body == []
  {
    hide MISLEADING_LINE, Frame, Parse;
    var b: Bytes := [49, LF, 97, LF, 48, LF, LF];
    FindIs(b, 0, LF, 1);
    assert b[0..1] == [49] && SizeLine([49]) == Some(1);
    assert ChunkAt(b, 0) == Data(2, 3, 4) && b[2..3] == [97];
    FindIs(b, 4, LF, 5);
    assert b[4..5] == [48] && SizeLine([48]) == Some(0);
    FindIs(b, 6, LF, 6);
    assert TrailerEnd(b, 6) == 7 && ChunkAt(b, 4) == Last(7);
    assert [] + b[2..3] == [97];
    ChunksStep(b, 0, []);
    ChunksStep(b, 4, [97]);
    MisledFamily(b, [97], 1);
  }

  // ---- the parser's passes over the buffer -------------------------------------------------

  lemma {:induction false} FindAgrees(s: Bytes, t: Bytes, i: nat, b: Byte)
    requires |s| == |t| && i <= |s| && s[i..] == t[i..]
    ensures Find(s, i, b) == Find(t, i, b)
  {
    assert forall j {:trigger s[j]} :: i <= j < |s| ==> s[j] == s[i..][j - i] == t[j];
    assert forall j {:trigger t[j]} :: i <= j < |s| ==> t[j] == t[i..][j - i] == s[j];
  }

  /** next_line: ends the line at the cursor with a NUL in place.  The cursor moves past it,
      -1 when no line feed is left. */
  method NextLine(buf: array<Byte>, cursor: nat, end: nat) returns (next: int)
    requires cursor <= end <= buf.Length
    modifies buf
    ensures next == (if Find(old(buf[..end]), cursor, LF) == -1 then -1 else Find(old(buf[..end]), cursor, LF) + 1)
    ensures next == -1 ==> buf[..] == old(buf[..])
    ensures next != -1 ==> CString(buf[cursor..end]) == CString(Chomp(old(buf[cursor..next - 1])))
    ensures next != -1 ==> buf[next..] == old(buf[next..])
  {
    hide Find;
    var nl := Find(buf[..end], cursor, LF);
    if nl == -1 {
      return -1;
    }
    ghost var line := buf[cursor..nl];
    buf[nl] := NUL;
    if nl > cursor && buf[nl - 1] == CR {
      buf[nl - 1] := NUL;
    }
    CutString(buf[cursor..end], Chomp(line));
    return nl + 1;
  }

  /** A string that is followed by a NUL ends there or earlier. */
  lemma {:induction false} CutString(s: Bytes, line: Bytes)
    requires |line| < |s| && s[..|line|] == line && s[|line|] == NUL
    ensures CString(s) == CString(line)
  {
    var a := CString(line);
    if |a| == |line| {
      forall j | 0 <= j < |line| ensures s[j] != NUL { assert s[j] == line[j] && line[j] in line; }
      FindIs(s, 0, NUL, |line|);
    } else {
      forall j | 0 <= j < |a| ensures s[j] != NUL { assert s[j] == line[j] == a[j] && a[j] in a; }
      assert s[|a|] == line[|a|];
      FindIs(s, 0, NUL, |a|);
    }
  }

  /** parse_request_body. */
  method ReadBody(buf: array<Byte>, f: Fields, start: nat, end: nat, ghost s: Bytes) returns (r: Parsed)
    requires start <= end <= buf.Length && |s| == end && buf[start..end] == s[start..]
    ensures r == ParseBody(f, s, start)
  {
    hide Decode;
    if f.chunked {
      var out := new Byte[end - start];
      var code, len, _ := ChunkedDecode(buf[start..end], out);
      if code != 1 {
        return Rejected;
      }
      return Parsed(start, f, out[..len]);
    }
    var len := if end - start > f.length then f.length else end - start;
    r := Parsed(start, f, buf[start..start + len]);
    assert s[start..start + len] == s[start..][..len] && buf[start..start + len] == buf[start..end][..len];
  }

  /** parse_http_request works in place, on the bytes of this request and no others. */
  method ParseHttpRequest(buf: array<Byte>, n: nat) returns (r: Parsed)
    requires n <= buf.Length
    modifies buf
    ensures r == Parse(old(buf[..n]))
    ensures buf[n..] == old(buf[n..])
  {
    hide Find, RequestLine, CString, Chomp, StoreField, ParseBody, ParseLines;
    ghost var s := buf[..n];
    var cursor := NextLine(buf, 0, n);
    if cursor == -1 {
      return Rejected;
    }
    assert old(buf[0..cursor - 1]) == s[0..cursor - 1];
    if RequestLine(CString(buf[0..n])) == None {
      return Rejected;
    }
    assert buf[cursor..n] == old(buf[cursor..])[..n - cursor] == s[cursor..];
    assert buf[n..] == buf[cursor..][n - cursor..] && old(buf[n..]) == old(buf[cursor..])[n - cursor..];
    r := ParseHeaderLines(buf, cursor, n, s);
  }

  /** One unfolding of ParseLines. */
  lemma {:induction false} LinesStep(s: Bytes, i: nat, f: Fields)
    requires i <= |s|
    ensures var e := Find(s, i, LF);
            if e == -1 then ParseLines(s, i, f) == Parsed(|s|, f, [])
            else
              var line := CString(Chomp(s[i..e]));
              ParseLines(s, i, f) == if |line| == 0 then AtBlankLine(s, e, f)
                                     else match StoreField(f, line)
                                          case None => Rejected
                                          case Some(g) => ParseLines(s, e + 1, g)
  {
    hide Find, CString, Chomp, StoreField;
  }

  method ParseHeaderLines(buf: array<Byte>, start: nat, n: nat, ghost s: Bytes) returns (r: Parsed)
    requires start <= n <= buf.Length && |s| == n && buf[start..n] == s[start..]
    modifies buf
    ensures r == ParseLines(s, start, NO_FIELDS)
    ensures buf[n..] == old(buf[n..])
  {
    hide Find, CString, Chomp, StoreField, ParseBody, ParseLines;
    var cursor, f := start, NO_FIELDS;
    while true
      invariant 0 <= cursor <= n && buf[cursor..n] == s[cursor..] && buf[n..] == old(buf[n..])
      invariant ParseLines(s, cursor, f) == ParseLines(s, start, NO_FIELDS)
      decreases n - cursor
    {
      LinesStep(s, cursor, f);
      FindAgrees(buf[..n], s, cursor, LF);
      ghost var was := buf[..];
      var next := NextLine(buf, cursor, n);
      if next == -1 {
        return Parsed(n, f, []);
      }
      LineSame(was, s, cursor, next - 1, n);
      SuffixSame(was, buf[..], s, next, cursor, n);
      var line := CString(buf[cursor..n]);
      if |line| == 0 {
        if f.chunked && f.sawLength {
          return Rejected;
        }
        if next < n {
          r := ReadBody(buf, f, next, n, s);
        } else {
          r := Parsed(next, f, []);
        }
        return;
      }
      var colon := Find(line, 0, COLON);
      if colon != -1 {
        buf[cursor + colon] := NUL;
      }
      var g := StoreField(f, line);
      if g == None {
        return Rejected;
      }
      f := g.value;
      cursor := next;
    }
  }

  lemma {:induction false} LineSame(was: Bytes, s: Bytes, i: nat, e: nat, n: nat)
    requires i <= e <= n == |s| && n <= |was| && was[i..n] == s[i..]
    ensures was[i..e] == s[i..e]
  {
    assert was[i..e] == was[i..n][..e - i] && s[i..e] == s[i..][..e - i];
  }

  lemma {:induction false} SuffixSame(was: Bytes, now: Bytes, s: Bytes, next: nat, i: nat, n: nat)
    requires i <= next <= n == |s| && n <= |was| == |now| && was[i..n] == s[i..] && now[next..] == was[next..]
    ensures now[next..n] == s[next..] && now[n..] == was[n..]
  {
    assert now[next..n] == now[next..][..n - next] && was[next..n] == was[next..][..n - next];
    assert was[next..n] == was[i..n][next - i..] && s[next..] == s[i..][next - i..];
    assert now[n..] == now[next..][n - next..] && was[n..] == was[next..][n - next..];
  }
}
