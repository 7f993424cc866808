/** The chunked transfer coding of section 7.1 of RFC 9112 (http_chunked_decode in
    common/src/http_protocol.c). */
module ChunkedCoding {
  import opened Common
  import opened HttpText

  const SIZE_MAX: nat := 0xFFFF_FFFF_FFFF_FFFF

  /** Done: the terminal chunk and its trailer were seen, `used` bytes in all.  More: what is
      decoded so far. */
  datatype Decoded = Done(body: Bytes, used: nat) | More(body: Bytes) | Malformed

  function Hex(b: Byte): (r: int)
    ensures -1 <= r < 16
  {
    if 48 <= b <= 57 then b as int - 48
    else if 97 <= b <= 102 then b as int - 87
    else if 65 <= b <= 70 then b as int - 55
    else -1
  }

  /** The end and value of the hex digits from i on, None when size_t would overflow. */
  function HexDigits(s: Bytes, i: nat, value: nat): (r: Option<(nat, nat)>)
    requires i <= |s|
    ensures r.Some? ==> i <= r.value.0 <= |s|
    decreases |s| - i
  {
    if i == |s| || Hex(s[i]) < 0 then Some((i, value))
    else if value > SIZE_MAX / 16 then None
    else HexDigits(s, i + 1, value * 16 + Hex(s[i]))
  }

  /** The size a chunk-size line declares: digits, then nothing, an extension or padding. */
  function SizeLine(line: Bytes): Option<nat> {
    match HexDigits(line, 0, 0)
    case None => None
    case Some((i, n)) =>
      if i == 0 || (i < |line| && line[i] != 59 && line[i] != SPACE && line[i] != TAB) then None else Some(n)
  }

  /** Past the blank line that ends the trailer, -1 while it has not arrived. */
  function TrailerEnd(s: Bytes, pos: nat): (r: int)
    requires pos <= |s|
    ensures r == -1 || pos < r <= |s|
    decreases |s| - pos
  {
    var nl := Find(s, pos, LF);
    if nl == -1 then -1
    else if |Chomp(s[pos..nl])| == 0 then nl + 1
    else TrailerEnd(s, nl + 1)
  }

  /** Past the CRLF or LF that closes chunk data: Some(-1) while it has not arrived, None when
      something else is there. */
  function DataEnd(s: Bytes, pos: nat): (r: Option<int>)
    requires pos <= |s|
    ensures r.Some? ==> r.value == -1 || pos < r.value <= |s|
  {
    if pos == |s| then Some(-1)
    else
      var q := if s[pos] == CR then pos + 1 else pos;
      if q == |s| then Some(-1) else if s[q] == LF then Some(q + 1) else None
  }

  /** The chunk at a position.  Wait: it has not all arrived, no data yet.  Data: its data is
      s[from..to], and the next chunk is at `next`, -1 while the closing CRLF is missing. */
  datatype Chunk = Wait | Bad | Last(end: nat) | Data(from: nat, to: nat, next: int)

  function ChunkAt(s: Bytes, pos: nat): (r: Chunk)
    requires pos <= |s|
    ensures r.Last? ==> pos < r.end <= |s|
    ensures r.Data? ==> pos < r.from < r.to <= |s| && (r.next == -1 || r.to < r.next <= |s|)
  {
    var nl := Find(s, pos, LF);
    if nl == -1 then Wait
    else
      match SizeLine(Chomp(s[pos..nl]))
      case None => Bad
      case Some(size) =>
        if size == 0 then
          var e := TrailerEnd(s, nl + 1);
          if e == -1 then Wait else Last(e)
        else if |s| - (nl + 1) < size then Wait
        else
          match DataEnd(s, nl + 1 + size)
          case None => Bad
          case Some(e) => Data(nl + 1, nl + 1 + size, e)
  }

  /** Decoding s[pos..] with `body` already decoded. */
  function Chunks(s: Bytes, pos: nat, body: Bytes): (r: Decoded)
    requires pos <= |s|
    ensures r.Done? ==> pos < r.used <= |s|
    decreases |s| - pos
  {
    match ChunkAt(s, pos)
    case Wait => More(body)
    case Bad => Malformed
    case Last(e) => Done(body, e)
    case Data(from, to, next) =>
      if next == -1 then More(body + s[from..to]) else Chunks(s, next, body + s[from..to])
  }

  function Decode(s: Bytes): (r: Decoded)
    ensures r.Done? ==> 0 < r.used <= |s|
  {
    Chunks(s, 0, [])
  }

  // ---- a verdict depends only on the bytes it covers -------------------------------------

  lemma {:induction false} SameBytes(s: Bytes, t: Bytes, k: nat, a: nat, b: nat)
    requires k <= |s| && k <= |t| && s[..k] == t[..k] && a <= b <= k
    ensures s[a..b] == t[a..b]
    ensures forall j :: 0 <= j < k ==> s[j] == t[j]
  {
    assert forall j :: 0 <= j < k ==> s[j] == s[..k][j] == t[..k][j] == t[j];
  }

  lemma {:induction false} FindWithin(s: Bytes, t: Bytes, k: nat, pos: nat)
    requires pos <= k <= |s| && k <= |t| && s[..k] == t[..k]
    requires Find(s, pos, LF) != -1 && Find(s, pos, LF) < k
    ensures Find(t, pos, LF) == Find(s, pos, LF)
  {
    SameBytes(s, t, k, 0, Find(s, pos, LF) + 1);
    FindLocal(s, t, pos, LF);
  }

  lemma {:induction false} TrailerLocal(s: Bytes, t: Bytes, k: nat, pos: nat)
    requires pos <= k <= |s| && k <= |t| && s[..k] == t[..k]
    requires TrailerEnd(s, pos) != -1 && TrailerEnd(s, pos) <= k
    ensures TrailerEnd(t, pos) == TrailerEnd(s, pos)
    decreases |s| - pos
  {
    hide Find, Chomp;
    var nl := Find(s, pos, LF);
    FindWithin(s, t, k, pos);
    SameBytes(s, t, k, pos, nl);
    if |Chomp(s[pos..nl])| != 0 {
      TrailerLocal(s, t, k, nl + 1);
    }
  }

  lemma {:induction false} ChunkLocal(s: Bytes, t: Bytes, k: nat, pos: nat)
    requires pos <= k <= |s| && k <= |t| && s[..k] == t[..k]
    ensures ChunkAt(s, pos).Last? && ChunkAt(s, pos).end <= k ==> ChunkAt(t, pos) == ChunkAt(s, pos)
    ensures ChunkAt(s, pos).Data? && ChunkAt(s, pos).next != -1 && ChunkAt(s, pos).next <= k ==>
              ChunkAt(t, pos) == ChunkAt(s, pos)
  {
    hide SizeLine, TrailerEnd, Find, Chomp;
    var c := ChunkAt(s, pos);
    if (c.Last? && c.end <= k) || (c.Data? && c.next != -1 && c.next <= k) {
      var nl := Find(s, pos, LF);
      FindWithin(s, t, k, pos);
      SameBytes(s, t, k, pos, nl);
      if c.Last? {
        TrailerLocal(s, t, k, nl + 1);
      }
    }
  }

  /** A complete decoding is fixed by the bytes it used: more input, or different input after
      them, changes nothing. */
  lemma {:induction false} DoneLocal(s: Bytes, t: Bytes, k: nat, pos: nat, body: Bytes)
    requires pos <= k <= |s| && k <= |t| && s[..k] == t[..k]
    requires Chunks(s, pos, body).Done? && Chunks(s, pos, body).used <= k
    ensures Chunks(t, pos, body) == Chunks(s, pos, body)
    decreases |s| - pos
  {
    hide ChunkAt;
    var c := ChunkAt(s, pos);
    ChunkLocal(s, t, k, pos);
    if c.Data? {
      SameBytes(s, t, k, c.from, c.to);
      DoneLocal(s, t, k, c.next, body + s[c.from..c.to]);
    }
  }

  lemma {:induction false} BodyGrows(s: Bytes, pos: nat, body: Bytes)
    requires pos <= |s|
    ensures !Chunks(s, pos, body).Malformed? ==> body <= Chunks(s, pos, body).body
    decreases |s| - pos
  {
    hide ChunkAt;
    var c := ChunkAt(s, pos);
    if c.Data? && c.next != -1 {
      BodyGrows(s, c.next, body + s[c.from..c.to]);
    }
  }

  /** More input settles a chunk the way it began. */
  lemma {:induction false} ChunkMore(s: Bytes, t: Bytes, pos: nat)
    requires pos <= |s|
    ensures ChunkAt(s, pos).Bad? ==> ChunkAt(s + t, pos).Bad?
    ensures var c, d := ChunkAt(s, pos), ChunkAt(s + t, pos);
            c.Data? ==> d.Bad? || (d.Data? && d.from == c.from && d.to == c.to && (c.next != -1 ==> d.next == c.next))
  {
    hide SizeLine, TrailerEnd, Find, Chomp;
    var u := s + t;
    var nl := Find(s, pos, LF);
    if nl != -1 {
      assert u[..|s|] == s[..|s|];
      FindWithin(s, u, |s|, pos);
      SameBytes(s, u, |s|, pos, nl);
    }
  }

  /** More input never repairs a malformed coding, and never takes decoded bytes back. */
  lemma {:induction false} MoreInput(s: Bytes, t: Bytes, pos: nat, body: Bytes)
    requires pos <= |s|
    ensures Chunks(s, pos, body).Malformed? ==> Chunks(s + t, pos, body).Malformed?
    ensures Chunks(s, pos, body).More? && !Chunks(s + t, pos, body).Malformed? ==>
              Chunks(s, pos, body).body <= Chunks(s + t, pos, body).body
    decreases |s| - pos
  {
    hide ChunkAt;
    var u := s + t;
    var c := ChunkAt(s, pos);
    ChunkMore(s, t, pos);
    BodyGrows(u, pos, body);
    if c.Data? {
      SameBytes(s, u, |s|, c.from, c.to) by { assert u[..|s|] == s[..|s|]; }
      var d := ChunkAt(u, pos);
      if c.next != -1 {
        MoreInput(s, t, c.next, body + s[c.from..c.to]);
      } else if d.Data? && d.next != -1 {
        BodyGrows(u, d.next, body + s[c.from..c.to]);
      }
    }
  }

  // ---- what stands where ---------------------------------------------------------------------

  lemma {:induction false} Halves(s: Bytes, pos: nat, a: Bytes, b: Bytes)
    requires pos + |a + b| <= |s| && s[pos..pos + |a + b|] == a + b
    ensures s[pos..pos + |a|] == a && s[pos + |a|..pos + |a| + |b|] == b
  {
    var w := s[pos..pos + |a + b|];
    assert s[pos..pos + |a|] == w[..|a|] && s[pos + |a|..pos + |a| + |b|] == w[|a|..];
  }

  ghost predicate At(s: Bytes, i: nat, t: Bytes) {
    i + |t| <= |s| && s[i..i + |t|] == t
  }

  lemma {:induction false} AtParts(s: Bytes, i: nat, a: Bytes, b: Bytes)
    ensures At(s, i, a + b) <==> At(s, i, a) && At(s, i + |a|, b)
  {
    if At(s, i, a + b) { Halves(s, i, a, b); }
    if At(s, i, a) && At(s, i + |a|, b) {
      assert s[i..i + |a + b|] == s[i..i + |a|] + s[i + |a|..i + |a| + |b|];
    }
  }

  /** One chunk further. */
  lemma {:induction false} ChunksStep(s: Bytes, pos: nat, body: Bytes)
    requires pos <= |s|
    ensures var c := ChunkAt(s, pos);
            && (c.Wait? ==> Chunks(s, pos, body) == More(body))
            && (c.Last? ==> Chunks(s, pos, body) == Done(body, c.end))
            && (c.Data? && c.next == -1 ==> Chunks(s, pos, body) == More(body + s[c.from..c.to]))
            && (c.Data? && c.next != -1 ==> Chunks(s, pos, body) == Chunks(s, c.next, body + s[c.from..c.to]))
  {
    hide ChunkAt;
  }

  // ---- the decoding loop -------------------------------------------------------------------

  method ParseSize(line: Bytes) returns (r: Option<nat>)
    ensures r == SizeLine(line)
  {
    var i, n := 0, 0;
    while i < |line| && Hex(line[i]) >= 0
      invariant 0 <= i <= |line| && n >= 0 && HexDigits(line, i, n) == HexDigits(line, 0, 0)
    {
      if n > SIZE_MAX / 16 {
        return None;
      }
      n := n * 16 + Hex(line[i]);
      i := i + 1;
    }
    if i == 0 || (i < |line| && line[i] != 59 && line[i] != SPACE && line[i] != TAB) {
      return None;
    }
    return Some(n);
  }

  method SkipTrailer(s: Bytes, start: nat) returns (r: int)
    requires start <= |s|
    ensures r == TrailerEnd(s, start)
  {
    hide Find, Chomp;
    var pos := start;
    while true
      invariant start <= pos <= |s| && TrailerEnd(s, pos) == TrailerEnd(s, start)
      decreases |s| - pos
    {
      var nl := Find(s, pos, LF);
      if nl == -1 {
        return -1;
      }
      if |Chomp(s[pos..nl])| == 0 {
        return nl + 1;
      }
      pos := nl + 1;
    }
  }

  /** http_chunked_decode: 1 complete, 0 still arriving, -1 malformed.  The framing pass calls
      it without an output buffer, the parser with one as long as the input. */
  method ChunkedDecode(s: Bytes, out: array?<Byte>) returns (code: int, outLen: nat, consumed: nat)
    requires out != null ==> |s| <= out.Length
    modifies if out != null then {out} else {}
    ensures code == (match Decode(s) case Done(_, _) => 1 case More(_) => 0 case Malformed => -1)
    ensures code != -1 ==> outLen == |Decode(s).body|
    ensures code != -1 && out != null ==> outLen <= out.Length && out[..outLen] == Decode(s).body
    ensures code == 1 ==> consumed == Decode(s).used
  {
    hide ChunkAt;
    var pos := 0;
    ghost var body := [];
    outLen, consumed := 0, 0;
    while true
      invariant 0 <= outLen <= pos <= |s| && |body| == outLen
      invariant out != null ==> out[..outLen] == body
      invariant Chunks(s, pos, body) == Decode(s)
      decreases |s| - pos
    {
      var c := NextChunk(s, pos);
      match c {
        case Wait =>
          return 0, outLen, pos;
        case Bad =>
          return -1, 0, 0;
        case Last(e) =>
          return 1, outLen, e;
        case Data(from, to, next) =>
          if out != null {
            CopyInto(out, outLen, s[from..to]);
          }
          body := body + s[from..to];
          outLen := outLen + (to - from);
          if next == -1 {
            return 0, outLen, pos;
          }
          pos := next;
      }
    }
  }

  /** One chunk: its size line, then its data and closing line feed, or the trailer. */
  method NextChunk(s: Bytes, pos: nat) returns (c: Chunk)
    requires pos <= |s|
    ensures c == ChunkAt(s, pos)
  {
    hide SizeLine, TrailerEnd, Find, Chomp;
    var nl := Find(s, pos, LF);
    if nl == -1 {
      return Wait;
    }
    var size := ParseSize(Chomp(s[pos..nl]));
    if size == None {
      return Bad;
    }
    var from := nl + 1;
    if size.value == 0 {
      var e := SkipTrailer(s, from);
      return if e == -1 then Wait else Last(e);
    }
    if |s| - from < size.value {
      return Wait;
    }
    var to := from + size.value;
    var q := if to < |s| && s[to] == CR then to + 1 else to;
    if q >= |s| {
      return Data(from, to, -1);
    }
    return if s[q] != LF then Bad else Data(from, to, q + 1);
  }
}
