/** Deciding whether a whole request has arrived (check_request_frame in
    server/src/worker.c), following section 6.3 of RFC 9112. */
module Framing {
  import opened Common
  import opened HttpText
  import opened ChunkedCoding

  datatype Verdict = Complete(length: nat) | Incomplete | BadRequest | Unsupported | TooLarge

  /** What the framing headers seen so far say. */
  datatype Fields = Fields(length: nat, sawLength: bool, chunked: bool)

  const NO_FIELDS := Fields(0, false, false)

  datatype Scan = Fine(fields: Fields) | Fail(verdict: Verdict)

  /** The line feed of a blank line right after the line feed at p, -1 when there is none. */
  function BlankLineAfter(s: Bytes, p: nat): (q: int)
    requires p < |s|
    ensures q == -1 || p < q < |s|
  {
    var q := if p + 1 < |s| && s[p + 1] == CR then p + 2 else p + 1;
    if q < |s| && s[q] == LF then q else -1
  }

  /** The first line feed from `from` on that a blank line follows. */
  function HeaderEnd(s: Bytes, from: nat): (p: int)
    requires from <= |s|
    ensures p == -1 || (from <= p < |s| && s[p] == LF && BlankLineAfter(s, p) != -1)
    decreases |s| - from
  {
    var p := Find(s, from, LF);
    if p == -1 then -1 else if BlankLineAfter(s, p) != -1 then p else HeaderEnd(s, p + 1)
  }

  /** A field line split at its first colon. */
  function Field(line: Bytes): Option<(Bytes, Bytes)> {
    var c := Find(line, 0, COLON);
    if c == -1 then None else Some((line[..c], line[c + 1..]))
  }

  const MAX_VALUE: nat := 32

  function FrameLine(f: Fields, line: Bytes): (r: Scan)
    ensures r.Fail? ==> r.verdict.BadRequest? || r.verdict.Unsupported?
  {
    match Field(line)
    case None => Fine(f)
    case Some((name, v)) =>
      if EqualFold(name, CONTENT_LENGTH) then
        if |Trim(v)| >= MAX_VALUE || ContentLength(Trim(v)) == None then Fail(BadRequest)
        else Fine(f.(length := ContentLength(Trim(v)).value, sawLength := true))
      else if EqualFold(name, TRANSFER_ENCODING) then
        if |Trim(v)| >= MAX_VALUE || !EqualFold(Trim(v), CHUNKED) then Fail(Unsupported)
        else Fine(f.(chunked := true))
      else Fine(f)
  }

  /** The header lines from i up to the one ending at p, request line included. */
  function ScanLines(s: Bytes, i: nat, p: nat, f: Fields): (r: Scan)
    requires i <= p + 1 <= |s| && s[p] == LF
    ensures r.Fail? ==> r.verdict.BadRequest? || r.verdict.Unsupported?
    decreases |s| - i
  {
    if i >= p then Fine(f)
    else
      var e := Find(s, i, LF);
      match FrameLine(f, Chomp(s[i..e]))
      case Fail(v) => Fail(v)
      case Fine(g) => if e == p then Fine(g) else ScanLines(s, e + 1, p, g)
  }

  /** The header section: its length and what it declares. */
  datatype Head = NoHead | Broken(verdict: Verdict) | Head(length: nat, fields: Fields)

  function HeadOf(s: Bytes): (r: Head)
    ensures r.Head? ==> 2 <= r.length <= |s|
    ensures r.Broken? ==> r.verdict.BadRequest? || r.verdict.Unsupported?
  {
    var p := HeaderEnd(s, 0);
    if p == -1 then NoHead
    else
      var h := BlankLineAfter(s, p) + 1;
      if NUL in s[..h] then Broken(BadRequest)
      else
        match ScanLines(s, 0, p, NO_FIELDS)
        case Fail(v) => Broken(v)
        case Fine(f) => Head(h, f)
  }

  function BodyVerdict(h: nat, f: Fields, rest: Bytes, maxBody: nat): (v: Verdict) {
    if f.chunked then
      if f.sawLength then BadRequest
      else
        match Decode(rest)
        case Malformed => BadRequest
        case More(b) => if |b| > maxBody then TooLarge else Incomplete
        case Done(b, k) => if |b| > maxBody then TooLarge else Complete(h + k)
    else if f.length > maxBody then TooLarge
    else if f.length > |rest| then Incomplete
    else Complete(h + f.length)
  }

  /** check_request_frame. */
  function Frame(s: Bytes, maxBody: nat): (v: Verdict)
    ensures v.Complete? ==> 0 < v.length <= |s|
  {
    match HeadOf(s)
    case NoHead => Incomplete
    case Broken(v) => v
    case Head(h, f) => BodyVerdict(h, f, s[h..], maxBody)
  }

  /** The message body a complete verdict stands for. */
  function FramedBody(s: Bytes, maxBody: nat): Bytes
    requires Frame(s, maxBody).Complete?
  {
    var head := HeadOf(s);
    if head.fields.chunked then Decode(s[head.length..]).body
    else s[head.length..head.length + head.fields.length]
  }

  // ---- the verdict depends only on the bytes it covers -----------------------------------

  lemma {:induction false} HeaderEndLocal(s: Bytes, t: Bytes, k: nat, from: nat)
    requires from <= k <= |s| && k <= |t| && s[..k] == t[..k]
    requires HeaderEnd(s, from) != -1 && BlankLineAfter(s, HeaderEnd(s, from)) < k
    ensures HeaderEnd(t, from) == HeaderEnd(s, from)
    ensures BlankLineAfter(t, HeaderEnd(s, from)) == BlankLineAfter(s, HeaderEnd(s, from))
    decreases |s| - from
  {
    hide Find, BlankLineAfter;
    var p := Find(s, from, LF);
    FindWithin(s, t, k, from);
    if BlankLineAfter(s, p) == -1 {
      BlankLineLocal(s, t, k, p);
      HeaderEndLocal(s, t, k, p + 1);
    } else {
      BlankLineLocal(s, t, k, p);
    }
  }

  lemma {:induction false} BlankLineLocal(s: Bytes, t: Bytes, k: nat, p: nat)
    requires k <= |s| && k <= |t| && s[..k] == t[..k] && p < k
    requires p + 2 < k || (BlankLineAfter(s, p) != -1 && BlankLineAfter(s, p) < k)
    ensures BlankLineAfter(t, p) == BlankLineAfter(s, p)
  {
    SameBytes(s, t, k, 0, k);
  }

  lemma {:induction false} ScanLocal(s: Bytes, t: Bytes, k: nat, i: nat, p: nat, f: Fields)
    requires i <= p + 1 <= k <= |s| && k <= |t| && s[..k] == t[..k] && s[p] == LF
    ensures t[p] == LF && ScanLines(t, i, p, f) == ScanLines(s, i, p, f)
    decreases |s| - i
  {
    hide FrameLine, Find, Chomp;
    SameBytes(s, t, k, 0, k);
    if i < p {
      var e := Find(s, i, LF);
      FindWithin(s, t, k, i);
      SameBytes(s, t, k, i, e);
      var g := FrameLine(f, Chomp(s[i..e]));
      if g.Fine? && e != p {
        ScanLocal(s, t, k, e + 1, p, g.fields);
      }
    }
  }

  /** The header section is fixed by its own bytes. */
  lemma {:induction false} HeadLocal(s: Bytes, t: Bytes, k: nat)
    requires k <= |s| && k <= |t| && s[..k] == t[..k]
    requires HeaderEnd(s, 0) != -1 && BlankLineAfter(s, HeaderEnd(s, 0)) < k
    ensures HeadOf(t) == HeadOf(s)
  {
    hide ScanLines, HeaderEnd, BlankLineAfter;
    var p := HeaderEnd(s, 0);
    HeaderEndLocal(s, t, k, 0);
    SameBytes(s, t, k, 0, BlankLineAfter(s, p) + 1);
    ScanLocal(s, t, k, 0, p, NO_FIELDS);
  }

  /** "Complete, n bytes" is a statement about those n bytes: it stands whatever follows
      them, and for the n bytes alone. */
  lemma {:induction false} FrameLocal(s: Bytes, t: Bytes, maxBody: nat)
    requires Frame(s, maxBody).Complete?
    requires Frame(s, maxBody).length <= |t| && s[..Frame(s, maxBody).length] == t[..Frame(s, maxBody).length]
    ensures Frame(t, maxBody) == Frame(s, maxBody)
    ensures FramedBody(t, maxBody) == FramedBody(s, maxBody) && HeadOf(t) == HeadOf(s)
  {
    hide HeadOf, Decode;
    var n := Frame(s, maxBody).length;
    var h, f := HeadOf(s).length, HeadOf(s).fields;
    HeadEnds(s);
    HeadLocal(s, t, n);
    SameBytes(s, t, n, h, n);
    if f.chunked {
      var k := Decode(s[h..]).used;
      assert s[h..][..k] == s[h..n] && t[h..][..k] == t[h..n];
      DecodeLocal(s[h..], t[h..]);
    }
  }

  lemma {:induction false} HeadEnds(s: Bytes)
    requires HeadOf(s).Head?
    ensures HeaderEnd(s, 0) != -1 && BlankLineAfter(s, HeaderEnd(s, 0)) + 1 == HeadOf(s).length
  {
  }

  lemma {:induction false} DecodeLocal(s: Bytes, t: Bytes)
    requires Decode(s).Done? && Decode(s).used <= |t| && s[..Decode(s).used] == t[..Decode(s).used]
    ensures Decode(t) == Decode(s)
  {
    DoneLocal(s, t, Decode(s).used, 0, []);
  }

  /** More input never turns a refused request into an accepted or a pending one. */
  lemma {:induction false} RefusalStays(s: Bytes, t: Bytes, maxBody: nat)
    requires !Frame(s, maxBody).Complete? && !Frame(s, maxBody).Incomplete?
    ensures !Frame(s + t, maxBody).Complete? && !Frame(s + t, maxBody).Incomplete?
  {
    hide Decode;
    var u := s + t;
    assert u[..|s|] == s[..|s|];
    HeadLocal(s, u, |s|);
    if HeadOf(s).Head? {
      var h := HeadOf(s).length;
      assert u[h..] == s[h..] + t;
      DecodeMore(s[h..], t);
    }
  }

  lemma {:induction false} DecodeMore(s: Bytes, t: Bytes)
    ensures Decode(s).Malformed? ==> Decode(s + t).Malformed?
    ensures Decode(s).More? && !Decode(s + t).Malformed? ==> |Decode(s).body| <= |Decode(s + t).body|
    ensures Decode(s).Done? ==> Decode(s + t) == Decode(s)
  {
    MoreInput(s, t, 0, []);
    if Decode(s).Done? {
      assert (s + t)[..|s|] == s[..|s|];
      DoneLocal(s, s + t, |s|, 0, []);
    }
  }

  // ---- the scanning loops ----------------------------------------------------------------

  method FindHeaderEnd(buf: Bytes) returns (p: int)
    ensures p == HeaderEnd(buf, 0)
  {
    var from := 0;
    while from < |buf|
      invariant 0 <= from <= |buf| && HeaderEnd(buf, from) == HeaderEnd(buf, 0)
    {
      p := Find(buf, from, LF);
      if p == -1 {
        return;
      }
      var q := p + 1;
      if q < |buf| && buf[q] == CR {
        q := q + 1;
      }
      if q < |buf| && buf[q] == LF {
        return;
      }
      from := p + 1;
    }
    return -1;
  }

  method ScanFields(buf: Bytes, p: nat) returns (r: Scan)
    requires p < |buf| && buf[p] == LF
    ensures r == ScanLines(buf, 0, p, NO_FIELDS)
  {
    hide FrameLine, Find, Chomp;
    var line, f := 0, NO_FIELDS;
    while line < p
      invariant 0 <= line <= p + 1 && ScanLines(buf, line, p, f) == ScanLines(buf, 0, p, NO_FIELDS)
    {
      var e := Find(buf, line, LF);
      var g := FrameLine(f, Chomp(buf[line..e]));
      if g.Fail? {
        return g;
      }
      f := g.fields;
      if e == p {
        break;
      }
      line := e + 1;
    }
    return Fine(f);
  }

  method CheckRequestFrame(buf: Bytes, maxBody: nat) returns (v: Verdict)
    ensures v == Frame(buf, maxBody)
  {
    hide ScanLines, HeaderEnd, Decode;
    var p := FindHeaderEnd(buf);
    if p == -1 {
      return Incomplete;
    }
    var h := BlankLineAfter(buf, p) + 1;
    if NUL in buf[..h] {
      return BadRequest;
    }
    var scan := ScanFields(buf, p);
    if scan.Fail? {
      return scan.verdict;
    }
    var f := scan.fields;
    if f.chunked {
      if f.sawLength {
        return BadRequest;
      }
      var code, decoded, used := ChunkedDecode(buf[h..], null);
      if code < 0 {
        return BadRequest;
      }
      if decoded > maxBody {
        return TooLarge;
      }
      return if code == 1 then Complete(h + used) else Incomplete;
    }
    if f.length > maxBody {
      return TooLarge;
    }
    return if h + f.length > |buf| then Incomplete else Complete(h + f.length);
  }
}

/** A connection's request stream: pieces of bytes as reads deliver them (conn_consume_read
    and the dispatch loop of server/src/worker.c). */
module Pipeline {
  import opened Common
  import opened HttpText
  import opened Framing

  /** keep: whether the connection stays open after a given request. */
  datatype Conn = Conn(buffer: Bytes, requests: seq<Bytes>, open: bool)

  const START := Conn([], [], true)

  /** Dispatching every request that is framed in the buffer. */
  function Drain(c: Conn, maxBody: nat, keep: Bytes -> bool): Conn
    decreases |c.buffer|
  {
    match Frame(c.buffer, maxBody)
    case Incomplete => c
    case Complete(n) =>
      var r := c.buffer[..n];
      if keep(r) then Drain(Conn(c.buffer[n..], c.requests + [r], true), maxBody, keep)
      else Conn([], c.requests + [r], false)
    case _ => Conn([], c.requests, false)
  }

  function Feed(c: Conn, piece: Bytes, maxBody: nat, keep: Bytes -> bool): Conn {
    if c.open then Drain(c.(buffer := c.buffer + piece), maxBody, keep) else c
  }

  function FeedAll(c: Conn, pieces: seq<Bytes>, maxBody: nat, keep: Bytes -> bool): Conn {
    if |pieces| == 0 then c
    else Feed(FeedAll(c, pieces[..|pieces| - 1], maxBody, keep), pieces[|pieces| - 1], maxBody, keep)
  }

  lemma {:induction false} DrainStep(c: Conn, maxBody: nat, keep: Bytes -> bool)
    requires c.open
    ensures Frame(c.buffer, maxBody).Incomplete? ==> Drain(c, maxBody, keep) == c
    ensures Frame(c.buffer, maxBody).Complete? ==>
              var r := c.buffer[..Frame(c.buffer, maxBody).length];
              Drain(c, maxBody, keep) ==
              if keep(r) then Drain(Conn(c.buffer[|r|..], c.requests + [r], true), maxBody, keep)
              else Conn([], c.requests + [r], false)
    ensures !Frame(c.buffer, maxBody).Incomplete? && !Frame(c.buffer, maxBody).Complete? ==>
              Drain(c, maxBody, keep) == Conn([], c.requests, false)
  {
    hide Frame;
  }

  /** Draining before more bytes arrive changes nothing. */
  lemma {:induction false} DrainThenFeed(c: Conn, t: Bytes, maxBody: nat, keep: Bytes -> bool)
    requires c.open
    ensures Feed(Drain(c, maxBody, keep), t, maxBody, keep) == Drain(c.(buffer := c.buffer + t), maxBody, keep)
    decreases |c.buffer|
  {
    hide Frame, Drain;
    var s, v := c.buffer, Frame(c.buffer, maxBody);
    DrainStep(c, maxBody, keep);
    DrainStep(c.(buffer := s + t), maxBody, keep);
    if v.Complete? {
      var n := v.length;
      var u := s + t;
      assert u[..n] == s[..n] && u[n..] == s[n..] + t;
      FrameLocal(s, u, maxBody);
      if keep(s[..n]) {
        DrainThenFeed(Conn(s[n..], c.requests + [s[..n]], true), t, maxBody, keep);
      }
    } else if !v.Incomplete? {
      RefusalStays(s, t, maxBody);
    }
  }

  /** Every stream gives the same requests, the same leftover and the same end of the
      connection however it is cut into reads. */
  lemma {:induction false} CutIndependent(pieces: seq<Bytes>, maxBody: nat, keep: Bytes -> bool)
    ensures FeedAll(START, pieces, maxBody, keep) == Feed(START, Concat(pieces), maxBody, keep)
  {
    hide Frame;
    if |pieces| == 0 {
      assert Frame([], maxBody) == Incomplete by { NothingFramed(maxBody); }
      assert START.(buffer := [] + []) == START;
    } else {
      var front, last := pieces[..|pieces| - 1], pieces[|pieces| - 1];
      CutIndependent(front, maxBody, keep);
      var c := START.(buffer := [] + Concat(front));
      DrainThenFeed(c, last, maxBody, keep);
      assert c.buffer + last == [] + Concat(pieces);
    }
  }

  lemma {:induction false} ConcatFirst(rs: seq<Bytes>)
    requires |rs| > 0
    ensures Concat(rs) == rs[0] + Concat(rs[1..])
  {
    var front, rest := rs[..|rs| - 1], rs[1..];
    if |rs| > 1 {
      ConcatFirst(front);
      assert rest[..|rest| - 1] == front[1..] && rest[|rest| - 1] == rs[|rs| - 1];
    } else {
      assert front == [] && rest == [];
    }
  }

  /** How many of the requests are dispatched: up to and including the first that ends the
      connection. */
  function Dispatched(rs: seq<Bytes>, keep: Bytes -> bool): (n: nat)
    ensures n <= |rs| && (forall i :: 0 <= i < n - 1 ==> keep(rs[i]))
    ensures n < |rs| ==> n > 0 && !keep(rs[n - 1])
  {
    if |rs| == 0 then 0 else if !keep(rs[0]) then 1 else 1 + Dispatched(rs[1..], keep)
  }

  ghost predicate AllKept(rs: seq<Bytes>, keep: Bytes -> bool) {
    forall i :: 0 <= i < |rs| ==> keep(rs[i])
  }

  /** Requests sent one after the other are dispatched one by one, each as it was sent, in order:
      all of them and then whatever follows, or up to the one that ends the connection. */
  lemma {:induction false} Pipelined(rs: seq<Bytes>, rest: Bytes, done: seq<Bytes>, maxBody: nat, keep: Bytes -> bool)
    requires forall i :: 0 <= i < |rs| ==> Frame(rs[i], maxBody) == Complete(|rs[i]|)
    ensures Drain(Conn(Concat(rs) + rest, done, true), maxBody, keep) ==
            if AllKept(rs, keep) then Drain(Conn(rest, done + rs, true), maxBody, keep)
            else Conn([], done + rs[..Dispatched(rs, keep)], false)
    decreases |rs|
  {
    hide Frame, Drain, Concat, Dispatched, AllKept;
    var c := Conn(Concat(rs) + rest, done, true);
    KeptStep(rs, done, keep);
    if |rs| == 0 {
      assert Concat(rs) + rest == rest by { ConcatNone(rs); }
    } else {
      var r, tail := rs[0], Concat(rs[1..]) + rest;
      assert c.buffer == r + tail by { ConcatFirst(rs); }
      FrameLocal(r, c.buffer, maxBody);
      assert c.buffer[..|r|] == r && c.buffer[|r|..] == tail;
      DrainStep(c, maxBody, keep);
      if keep(r) { Pipelined(rs[1..], rest, done + [r], maxBody, keep); }
    }
  }

  lemma {:induction false} ConcatNone(rs: seq<Bytes>)
    requires |rs| == 0
    ensures Concat(rs) == []
  {
  }

  lemma {:induction false} ConcatLast(rs: seq<Bytes>, r: Bytes)
    ensures Concat(rs + [r]) == Concat(rs) + r
  {
    assert (rs + [r])[..|rs|] == rs;
  }

  /** The first request of several, and the others. */
  lemma {:induction false} KeptStep(rs: seq<Bytes>, done: seq<Bytes>, keep: Bytes -> bool)
    ensures |rs| == 0 ==> AllKept(rs, keep) && done + rs == done
    ensures |rs| > 0 ==> done + [rs[0]] + rs[1..] == done + rs
    ensures |rs| > 0 && keep(rs[0]) ==>
              && (AllKept(rs, keep) <==> AllKept(rs[1..], keep))
              && done + [rs[0]] + rs[1..][..Dispatched(rs[1..], keep)] == done + rs[..Dispatched(rs, keep)]
    ensures |rs| > 0 && !keep(rs[0]) ==> !AllKept(rs, keep) && done + rs[..Dispatched(rs, keep)] == done + [rs[0]]
  {
    if |rs| > 0 {
      assert forall i :: 0 < i < |rs| ==> rs[i] == rs[1..][i - 1];
      assert rs[..1] == [rs[0]];
    }
  }

  /** Nothing is made up or passed over: the requests dispatched and what waits are the bytes
      received. */
  lemma {:induction false} DrainConserves(c: Conn, maxBody: nat, keep: Bytes -> bool)
    requires c.open
    ensures var d := Drain(c, maxBody, keep);
            && (d.open ==> Concat(d.requests) + d.buffer == Concat(c.requests) + c.buffer)
            && Concat(d.requests) <= Concat(c.requests) + c.buffer
    decreases |c.buffer|
  {
    hide Frame, Drain, Concat;
    DrainStep(c, maxBody, keep);
    var s, v := c.buffer, Frame(c.buffer, maxBody);
    if v.Complete? {
      var r, rest := s[..v.length], s[v.length..];
      ConcatLast(c.requests, r);
      assert Concat(c.requests) + r + rest == Concat(c.requests) + s by { assert s == r + rest; }
      if keep(r) { DrainConserves(Conn(rest, c.requests + [r], true), maxBody, keep); }
    }
  }

  /** Each request dispatched is complete by itself. */
  lemma {:induction false} DrainedComplete(c: Conn, maxBody: nat, keep: Bytes -> bool, i: nat)
    requires c.open
    ensures var d := Drain(c, maxBody, keep);
            && c.requests <= d.requests
            && (|c.requests| <= i < |d.requests| ==> Frame(d.requests[i], maxBody) == Complete(|d.requests[i]|))
    decreases |c.buffer|
  {
    hide Frame, Drain;
    DrainStep(c, maxBody, keep);
    var s, v := c.buffer, Frame(c.buffer, maxBody);
    if v.Complete? {
      FrameLocal(s, s[..v.length], maxBody);
      if keep(s[..v.length]) {
        DrainedComplete(Conn(s[v.length..], c.requests + [s[..v.length]], true), maxBody, keep, i);
      }
    }
  }

  lemma {:induction false} NothingFramed(maxBody: nat)
    ensures Frame([], maxBody) == Incomplete
  {
  }
}
