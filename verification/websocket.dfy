/** WebSocket frames, sections 5.2 and 5.3 of RFC 6455 (server/src/websocket.c). */
module WsFrames {
  import opened Common

  const TEXT: nat := 1
  const BINARY: nat := 2
  const CLOSE: nat := 8
  const PING: nat := 9
  const PONG: nat := 10

  const CLOSE_NORMAL: nat := 1000
  const CLOSE_PROTOCOL_ERROR: nat := 1002
  const CLOSE_UNSUPPORTED_DATA: nat := 1003
  const CLOSE_MESSAGE_TOO_BIG: nat := 1009

  // ---- masking ---------------------------------------------------------------------------

  /** Exclusive or of the low n bits. */
  function XorBits(a: nat, b: nat, n: nat): (r: nat) {
    if n == 0 then 0 else 2 * XorBits(a / 2, b / 2, n - 1) + (if a % 2 == b % 2 then 0 else 1)
  }

  lemma {:induction false} XorBound(a: nat, b: nat, n: nat)
    ensures XorBits(a, b, n) < Pow(2, n)
  {
    if n > 0 { XorBound(a / 2, b / 2, n - 1); }
  }

  lemma {:induction false} XorTwice(a: nat, b: nat, n: nat)
    requires a < Pow(2, n)
    ensures XorBits(XorBits(a, b, n), b, n) == a
  {
    if n > 0 {
      XorTwice(a / 2, b / 2, n - 1);
      var x := XorBits(a, b, n);
      var q, bit := XorBits(a / 2, b / 2, n - 1), if a % 2 == b % 2 then 0 else 1;
      assert x == 2 * q + bit && x / 2 == q && x % 2 == bit;
    }
  }

  /** Bit by bit: a bit of the result is set exactly where the operands differ. */
  lemma {:induction false} XorBitwise(a: nat, b: nat, n: nat, k: nat)
    requires k < n
    ensures Shift(XorBits(a, b, n), k) % 2 == 1 <==> Shift(a, k) % 2 != Shift(b, k) % 2
    decreases k
  {
    var q, bit := XorBits(a / 2, b / 2, n - 1), if a % 2 == b % 2 then 0 else 1;
    assert XorBits(a, b, n) == 2 * q + bit && (2 * q + bit) / 2 == q;
    if k > 0 { XorBitwise(a / 2, b / 2, n - 1, k - 1); }
  }

  /** n >> k. */
  function Shift(n: nat, k: nat): nat {
    if k == 0 then n else Shift(n / 2, k - 1)
  }

  function Xor(a: Byte, b: Byte): (r: Byte)
    ensures XorBits(r, b, 8) == a
  {
    assert Pow(2, 8) == 256;
    XorBound(a, b, 8);
    XorTwice(a, b, 8);
    XorBits(a, b, 8)
  }

  /** Each byte combined with the mask byte of its position modulo 4. */
  function Masked(p: Bytes, mask: Bytes): (r: Bytes)
    requires |mask| == 4
    ensures |r| == |p|
  {
    seq(|p|, i requires 0 <= i < |p| => Xor(p[i], mask[i % 4]))
  }

  lemma {:induction false} UnmaskMasked(p: Bytes, mask: Bytes)
    requires |mask| == 4
    ensures Masked(Masked(p, mask), mask) == p
  {
    forall i | 0 <= i < |p| ensures Masked(Masked(p, mask), mask)[i] == p[i] {
      var m := mask[i % 4];
      assert Masked(p, mask)[i] == Xor(p[i], m);
    }
  }

  // ---- extended lengths --------------------------------------------------------------------

  function BigEndian(b: Bytes): nat {
    if |b| == 0 then 0 else BigEndian(b[..|b| - 1]) * 256 + b[|b| - 1]
  }

  /** The low k bytes of n, most significant first. */
  function BytesOf(n: nat, k: nat): (r: Bytes)
    ensures |r| == k
  {
    if k == 0 then [] else BytesOf(n / 256, k - 1) + [n % 256]
  }

  lemma {:induction false} BigEndianOf(n: nat, k: nat)
    requires n < Pow(256, k)
    ensures BigEndian(BytesOf(n, k)) == n
  {
    if k > 0 {
      BigEndianOf(n / 256, k - 1);
      assert BytesOf(n, k)[..k - 1] == BytesOf(n / 256, k - 1);
    }
  }

  // ---- frames ------------------------------------------------------------------------------

  datatype Decoded =
    | Wait
    | Violation(code: nat)
    | Frame(fin: bool, opcode: nat, payload: Bytes, end: nat)

  function HeaderSize(b1: Byte): (h: nat)
    ensures h == 2 || h == 4 || h == 10
  {
    if b1 % 128 == 126 then 4 else if b1 % 128 == 127 then 10 else 2
  }

  function PayloadLength(s: Bytes): nat
    requires |s| >= 2 && |s| >= HeaderSize(s[1])
  {
    if HeaderSize(s[1]) == 2 then s[1] % 128 else BigEndian(s[2..HeaderSize(s[1])])
  }

  predicate TooBig(cap: nat, h: nat, len: nat) {
    cap < h + 5 || len > cap - 1 - h - 4
  }

  /** ws_decode_frame at the front of s. */
  function DecodeFrame(s: Bytes, cap: nat): (r: Decoded)
    ensures r.Frame? ==> 6 <= r.end <= |s| && r.opcode < 16
  {
    if |s| < 2 then Wait
    else if s[0] / 16 % 8 != 0 then Violation(CLOSE_PROTOCOL_ERROR)
    else
      var h := HeaderSize(s[1]);
      if |s| < h then Wait
      else if s[1] < 128 then Violation(CLOSE_PROTOCOL_ERROR)
      else if TooBig(cap, h, PayloadLength(s)) then Violation(CLOSE_MESSAGE_TOO_BIG)
      else
        var e := h + 4 + PayloadLength(s);
        if |s| < e then Wait
        else Frame(s[0] >= 128, s[0] % 16, Masked(s[h + 4..e], s[h..h + 4]), e)
  }

  /** A frame, or a violation, does not depend on what follows it. */
  lemma {:induction false} DecodeLocal(s: Bytes, t: Bytes, cap: nat)
    ensures !DecodeFrame(s, cap).Wait? ==> DecodeFrame(s + t, cap) == DecodeFrame(s, cap)
  {
    var u := s + t;
    assert forall i :: 0 <= i < |s| ==> u[i] == s[i];
    if |s| >= 2 && |s| >= HeaderSize(s[1]) {
      var h := HeaderSize(s[1]);
      assert u[2..h] == s[2..h];
      var e := h + 4 + PayloadLength(s);
      if |s| >= e { assert u[h..h + 4] == s[h..h + 4] && u[h + 4..e] == s[h + 4..e]; }
    }
  }

  /** A frame that is still arriving always has room left to arrive in: the cap test refuses
      every other one. */
  lemma {:induction false} WaitHasRoom(s: Bytes, cap: nat)
    requires DecodeFrame(s, cap).Wait? && cap > 10
    ensures |s| < cap - 1
  {
  }

  /** A header as written by ws_append_frame, and by a client with the mask bit set. */
  function Header(fin: bool, opcode: nat, mask: bool, len: nat): (h: Bytes)
    requires opcode < 16
    ensures |h| == if len < 126 then 2 else if len <= 0xFFFF then 4 else 10
  {
    var b0 := (if fin then 128 else 0) + opcode;
    var m := if mask then 128 else 0;
    if len < 126 then [b0, m + len]
    else if len <= 0xFFFF then [b0, m + 126] + BytesOf(len, 2)
    else [b0, m + 127] + BytesOf(len, 8)
  }

  /** A header whose length takes k extra bytes: the shortest form or a longer one. */
  ghost predicate LengthForm(len: nat, k: nat) {
    (k == 0 && len < 126) || (k == 2 && len < Pow(256, 2)) || (k == 8 && len < Pow(256, 8))
  }

  ghost function FormHeader(fin: bool, opcode: nat, mask: bool, len: nat, k: nat): (h: Bytes)
    requires opcode < 16 && LengthForm(len, k)
    ensures |h| == 2 + k
  {
    [(if fin then 128 else 0) + opcode,
     (if mask then 128 else 0) + if k == 0 then len else if k == 2 then 126 else 127] + BytesOf(len, k)
  }

  lemma {:induction false} ShortestForm(fin: bool, opcode: nat, mask: bool, len: nat)
    requires opcode < 16 && len < Pow(256, 8)
    ensures var k := if len < 126 then 0 else if len <= 0xFFFF then 2 else 8;
            LengthForm(len, k) && FormHeader(fin, opcode, mask, len, k) == Header(fin, opcode, mask, len)
  {
    assert Pow(256, 2) == 65536;
  }

  /** A flag in the top bit, a number below it. */
  lemma {:induction false} FlagByte(flag: bool, low: nat)
    requires low < 128
    ensures var v := (if flag then 128 else 0) + low;
            && (v >= 128 <==> flag) && v % 128 == low && (low < 16 ==> v % 16 == low && v / 16 % 8 == 0)
  {
  }

  lemma {:induction false} ByteParts(v: Byte)
    ensures v == (if v >= 128 then 128 else 0) + v % 128
    ensures v / 16 % 8 == 0 ==> v == (if v >= 128 then 128 else 0) + v % 16
  {
  }

  /** Each of the three length forms decodes to what it was made from. */
  lemma {:induction false} HeaderRoundTrip(fin: bool, opcode: nat, mask: bool, len: nat, k: nat, rest: Bytes)
    requires opcode < 16 && LengthForm(len, k)
    ensures var s := FormHeader(fin, opcode, mask, len, k) + rest;
            && HeaderSize(s[1]) == 2 + k && PayloadLength(s) == len
            && (s[0] >= 128 <==> fin) && s[0] % 16 == opcode && s[0] / 16 % 8 == 0 && (s[1] >= 128 <==> mask)
  {
    hide Pow, BytesOf, BigEndian;
    var h := FormHeader(fin, opcode, mask, len, k);
    var s := h + rest;
    FlagByte(fin, opcode);
    FlagByte(mask, if k == 0 then len else if k == 2 then 126 else 127);
    assert s[0] == h[0] && s[1] == h[1];
    if k > 0 {
      assert s[2..2 + k] == h[2..] == BytesOf(len, k);
      BigEndianOf(len, k);
    }
  }

  /** What a header of any length form is decoded to, once it is there: without a mask it is
      refused; so is a frame that would not leave a byte of the read buffer free; any other
      frame is awaited, and unmasked when it is whole. */
  lemma {:induction false} DecodeExact(fin: bool, opcode: nat, mask: bool, len: nat, k: nat, rest: Bytes, cap: nat)
    requires opcode < 16 && LengthForm(len, k)
    ensures DecodeFrame(FormHeader(fin, opcode, mask, len, k) + rest, cap) ==
            if !mask then Violation(CLOSE_PROTOCOL_ERROR)
            else if 2 + k + 4 + len >= cap then Violation(CLOSE_MESSAGE_TOO_BIG)
            else if |rest| < 4 + len then Wait
            else Frame(fin, opcode, Masked(rest[4..4 + len], rest[..4]), 2 + k + 4 + len)
  {
    hide Masked, LengthForm, FormHeader;
    var h := FormHeader(fin, opcode, mask, len, k);
    var s := h + rest;
    HeaderRoundTrip(fin, opcode, mask, len, k, rest);
    if |rest| >= 4 + len {
      assert s[|h|..|h| + 4] == rest[..4];
      assert s[|h| + 4..|h| + 4 + len] == rest[4..4 + len];
    }
  }

  /** Part of a header decides nothing. */
  lemma {:induction false} HeaderWaits(fin: bool, opcode: nat, mask: bool, len: nat, k: nat, n: nat, cap: nat)
    requires opcode < 16 && LengthForm(len, k) && n < 2 + k
    ensures DecodeFrame(FormHeader(fin, opcode, mask, len, k)[..n], cap) == Wait
  {
    hide LengthForm, FormHeader;
    var h := FormHeader(fin, opcode, mask, len, k);
    HeaderRoundTrip(fin, opcode, mask, len, k, []);
    assert h + [] == h;
  }

  lemma {:induction false} BigEndianBytes(b: Bytes)
    ensures BigEndian(b) < Pow(256, |b|) && BytesOf(BigEndian(b), |b|) == b
  {
    if |b| > 0 {
      BigEndianBytes(b[..|b| - 1]);
      assert BigEndian(b) / 256 == BigEndian(b[..|b| - 1]) && BigEndian(b) % 256 == b[|b| - 1];
      assert b == b[..|b| - 1] + [b[|b| - 1]];
    }
  }

  /** Nothing else is a header: whatever starts a buffer has a reserved bit set, is too short to
      tell, or is a header of one of the forms. */
  lemma {:induction false} EveryHeader(s: Bytes)
    requires |s| >= 2 && s[0] / 16 % 8 == 0 && |s| >= HeaderSize(s[1])
    ensures var h := HeaderSize(s[1]);
            LengthForm(PayloadLength(s), h - 2) &&
            s[..h] == FormHeader(s[0] >= 128, s[0] % 16, s[1] >= 128, PayloadLength(s), h - 2)
  {
    hide Pow, BytesOf, BigEndian;
    var h := HeaderSize(s[1]);
    ByteParts(s[0]);
    ByteParts(s[1]);
    if h == 2 {
      assert s[..h] == [s[0], s[1]] + BytesOf(s[1] % 128, 0);
    } else {
      BigEndianBytes(s[2..h]);
      assert s[..h] == [s[0], s[1]] + s[2..h];
    }
  }

  /** What a client sends. */
  function ClientFrame(fin: bool, opcode: nat, mask: Bytes, payload: Bytes): Bytes
    requires opcode < 16 && |mask| == 4
  {
    Header(fin, opcode, true, |payload|) + mask + Masked(payload, mask)
  }

  /** What the server sends: unmasked, FIN set. */
  function ServerFrame(opcode: nat, payload: Bytes): Bytes
    requires opcode < 16
  {
    Header(true, opcode, false, |payload|) + payload
  }

  /** The length field can hold it, and the frame leaves a byte of the read buffer free. */
  ghost predicate Fits(payload: Bytes, cap: nat) {
    |payload| < Pow(256, 8) && |ClientFrame(true, 0, [0, 0, 0, 0], payload)| < cap
  }

  /** A whole client frame is read back, whatever follows, exactly when it fits; otherwise it is
      refused as too big as soon as its header is there. */
  lemma {:induction false} ClientFrameDecodes(fin: bool, opcode: nat, mask: Bytes, payload: Bytes,
                                              rest: Bytes, cap: nat)
    requires opcode < 16 && |mask| == 4 && |payload| < Pow(256, 8)
    ensures var f := ClientFrame(fin, opcode, mask, payload);
            && (|f| < cap <==> Fits(payload, cap))
            && DecodeFrame(f + rest, cap) ==
               (if |f| < cap then Frame(fin, opcode, payload, |f|) else Violation(CLOSE_MESSAGE_TOO_BIG))
            && (|f| >= cap ==>
                  forall n :: |Header(fin, opcode, true, |payload|)| <= n <= |f| ==>
                    DecodeFrame(f[..n], cap) == Violation(CLOSE_MESSAGE_TOO_BIG))
  {
    hide Header, Masked, Pow, DecodeFrame, LengthForm, FormHeader;
    var len, h, body := |payload|, Header(fin, opcode, true, |payload|), mask + Masked(payload, mask);
    var k := if len < 126 then 0 else if len <= 0xFFFF then 2 else 8;
    var f := ClientFrame(fin, opcode, mask, payload);
    assert f == h + body;
    ShortestForm(fin, opcode, true, len);
    DecodeExact(fin, opcode, true, len, k, body + rest, cap);
    assert f + rest == h + (body + rest);
    assert (body + rest)[..4] == mask && (body + rest)[4..4 + len] == Masked(payload, mask);
    UnmaskMasked(payload, mask);
    forall n | |h| <= n <= |f| && |f| >= cap ensures DecodeFrame(f[..n], cap) == Violation(CLOSE_MESSAGE_TOO_BIG) {
      DecodeExact(fin, opcode, true, len, k, body[..n - |h|], cap);
      PrefixOf(h, body, n);
    }
  }

  lemma {:induction false} PrefixOf(a: Bytes, b: Bytes, n: nat)
    requires |a| <= n <= |a| + |b|
    ensures (a + b)[..n] == a + b[..n - |a|]
  {
  }
}

/** A WebSocket session: buffered input, staged replies, and whether it is closing
    (ws_handle_frame and ws_process_frames in server/src/websocket.c). */
module WsSession {
  import opened Common
  import opened WsFrames

  /** MAX_RESPONSE_SIZE, the most the write buffer grows to. */
  const MAX_RESPONSE_SIZE: nat := 1048576

  datatype Session = Session(buffer: Bytes, out: Bytes, closing: bool)

  const START := Session([], [], false)

  function CloseFrame(code: nat): Bytes {
    ServerFrame(CLOSE, [code / 256 % 256, code % 256])
  }

  /** ws_append_frame, whose failure most callers ignore. */
  function Stage(out: Bytes, frame: Bytes): Bytes {
    if |out| + |frame| <= MAX_RESPONSE_SIZE then out + frame else out
  }

  /** ws_handle_frame: the staged output, and whether to shut down. */
  function Handle(out: Bytes, fin: bool, opcode: nat, payload: Bytes): (Bytes, bool)
    requires opcode < 16
  {
    if opcode == TEXT || opcode == BINARY then
      if !fin then (Stage(out, CloseFrame(CLOSE_UNSUPPORTED_DATA)), true)
      else if |out| + |ServerFrame(opcode, payload)| <= MAX_RESPONSE_SIZE then
        (out + ServerFrame(opcode, payload), false)
      else (Stage(out, CloseFrame(CLOSE_MESSAGE_TOO_BIG)), true)
    else if opcode == PING then
      if !fin || |payload| > 125 then (Stage(out, CloseFrame(CLOSE_PROTOCOL_ERROR)), true)
      else (Stage(out, ServerFrame(PONG, payload)), false)
    else if opcode == PONG then (out, false)
    else if opcode == CLOSE then
      var code := if |payload| >= 2 then payload[0] * 256 + payload[1] else CLOSE_NORMAL;
      (Stage(out, CloseFrame(code)), true)
    else (Stage(out, CloseFrame(CLOSE_PROTOCOL_ERROR)), true)
  }

  /** ws_process_frames. */
  function Process(s: Session, cap: nat): Session
    decreases |s.buffer|
  {
    match DecodeFrame(s.buffer, cap)
    case Wait => s
    case Violation(code) => Session(s.buffer, Stage(s.out, CloseFrame(code)), true)
    case Frame(fin, opcode, payload, end) =>
      var (out, close) := Handle(s.out, fin, opcode, payload);
      if close then Session(s.buffer[end..], out, true)
      else Process(Session(s.buffer[end..], out, false), cap)
  }

  /** Bytes that arrive once the session is closing are not read. */
  function Feed(s: Session, piece: Bytes, cap: nat): Session {
    if s.closing then s else Process(s.(buffer := s.buffer + piece), cap)
  }

  function FeedAll(s: Session, pieces: seq<Bytes>, cap: nat): Session {
    if |pieces| == 0 then s else Feed(FeedAll(s, pieces[..|pieces| - 1], cap), pieces[|pieces| - 1], cap)
  }

  /** Same replies, same end, and the same leftover while the session goes on. */
  ghost predicate Same(a: Session, b: Session) {
    a.out == b.out && a.closing == b.closing && (!a.closing ==> a.buffer == b.buffer)
  }

  /** One unfolding of Process. */
  lemma {:induction false} ProcessStep(s: Session, cap: nat)
    ensures var d := DecodeFrame(s.buffer, cap);
            && (d.Wait? ==> Process(s, cap) == s)
            && (d.Violation? ==> Process(s, cap) == Session(s.buffer, Stage(s.out, CloseFrame(d.code)), true))
            && (d.Frame? ==>
                  var h := Handle(s.out, d.fin, d.opcode, d.payload);
                  Process(s, cap) == if h.1 then Session(s.buffer[d.end..], h.0, true)
                                     else Process(Session(s.buffer[d.end..], h.0, false), cap))
  {
    hide DecodeFrame, Handle;
  }

  /** Handling what is there before more arrives changes nothing. */
  lemma {:induction false} ProcessThenFeed(s: Session, t: Bytes, cap: nat)
    requires !s.closing
    ensures Same(Feed(Process(s, cap), t, cap), Process(s.(buffer := s.buffer + t), cap))
    decreases |s.buffer|
  {
    hide DecodeFrame, Handle, Process, CloseFrame;
    var u := s.(buffer := s.buffer + t);
    var d := DecodeFrame(s.buffer, cap);
    ProcessStep(s, cap);
    ProcessStep(u, cap);
    DecodeLocal(s.buffer, t, cap);
    if d.Frame? {
      var h := Handle(s.out, d.fin, d.opcode, d.payload);
      assert u.buffer[d.end..] == s.buffer[d.end..] + t;
      if !h.1 { ProcessThenFeed(Session(s.buffer[d.end..], h.0, false), t, cap); }
    }
  }

  lemma {:induction false} FeedSame(a: Session, b: Session, t: Bytes, cap: nat)
    requires Same(a, b)
    ensures Same(Feed(a, t, cap), Feed(b, t, cap))
  {
    hide Process;
  }

  /** A stream handled in pieces stages the same replies and close code, and leaves the same
      leftover, as the stream handled whole. */
  lemma {:induction false} CutIndependent(pieces: seq<Bytes>, cap: nat)
    ensures Same(FeedAll(START, pieces, cap), Feed(START, Concat(pieces), cap))
  {
    hide Process, DecodeFrame;
    if |pieces| == 0 {
      ProcessStep(START.(buffer := [] + []), cap);
      assert DecodeFrame([], cap) == Wait by { EmptyWaits(cap); }
      assert START.buffer + [] == [];
    } else {
      var front, last := pieces[..|pieces| - 1], pieces[|pieces| - 1];
      CutIndependent(front, cap);
      var s := START.(buffer := [] + Concat(front));
      FeedSame(FeedAll(START, front, cap), Feed(START, Concat(front), cap), last, cap);
      ProcessThenFeed(s, last, cap);
      assert s.buffer + last == [] + Concat(pieces);
    }
  }

  lemma {:induction false} EmptyWaits(cap: nat)
    ensures DecodeFrame([], cap) == Wait
  {
  }

  /** Whatever is left in the buffer after processing leaves room to read more. */
  lemma {:induction false} NeverWedged(s: Session, cap: nat)
    requires cap > 10 && !s.closing
    ensures Process(s, cap).closing || |Process(s, cap).buffer| < cap - 1
    decreases |s.buffer|
  {
    hide DecodeFrame, Handle, Process;
    var d := DecodeFrame(s.buffer, cap);
    ProcessStep(s, cap);
    if d.Wait? {
      WaitHasRoom(s.buffer, cap);
    } else if d.Frame? {
      var h := Handle(s.out, d.fin, d.opcode, d.payload);
      if !h.1 { NeverWedged(Session(s.buffer[d.end..], h.0, false), cap); }
    }
  }

  // ---- the echo ------------------------------------------------------------------------------

  datatype Message = Message(text: bool, mask: Bytes, payload: Bytes)

  function Opcode(m: Message): (o: nat)
    ensures o < 16
  {
    if m.text then TEXT else BINARY
  }

  ghost predicate Sendable(ms: seq<Message>, cap: nat) {
    forall i :: 0 <= i < |ms| ==> |ms[i].mask| == 4 && Fits(ms[i].payload, cap)
  }

  function Sent(ms: seq<Message>): Bytes
    requires forall i :: 0 <= i < |ms| ==> |ms[i].mask| == 4
  {
    if |ms| == 0 then [] else ClientFrame(true, Opcode(ms[0]), ms[0].mask, ms[0].payload) + Sent(ms[1..])
  }

  function Echoes(ms: seq<Message>): Bytes {
    if |ms| == 0 then [] else ServerFrame(Opcode(ms[0]), ms[0].payload) + Echoes(ms[1..])
  }

  /** Each whole data frame comes back with its exact payload, in order, until a partial frame
      or the end of input. */
  lemma {:induction false} EchoExact(ms: seq<Message>, out: Bytes, rest: Bytes, cap: nat)
    requires Sendable(ms, cap) && |out| + |Echoes(ms)| <= MAX_RESPONSE_SIZE
    ensures Process(Session(Sent(ms) + rest, out, false), cap) == Process(Session(rest, out + Echoes(ms), false), cap)
  {
    hide Process, DecodeFrame, ClientFrame, ServerFrame, Fits;
    var s := Session(Sent(ms) + rest, out, false);
    if |ms| == 0 {
      assert Sent(ms) + rest == rest && out + Echoes(ms) == out;
    } else {
      var m := ms[0];
      var f, e := ClientFrame(true, Opcode(m), m.mask, m.payload), ServerFrame(Opcode(m), m.payload);
      var tail := Sent(ms[1..]) + rest;
      assert s.buffer == f + tail && s.buffer[|f|..] == tail;
      FitsLength(m.payload, cap);
      ClientFrameDecodes(true, Opcode(m), m.mask, m.payload, tail, cap);
      ProcessStep(s, cap);
      assert Handle(out, true, Opcode(m), m.payload) == (out + e, false);
      EchoExact(ms[1..], out + e, rest, cap);
      assert out + e + Echoes(ms[1..]) == out + Echoes(ms);
    }
  }

  // ---- with the write buffer flushed in between ------------------------------------------------

  /** The reply to a frame, without a limit on the write buffer, and whether it is the last. */
  function Reply(fin: bool, opcode: nat, payload: Bytes): (Bytes, bool)
    requires opcode < 16
  {
    if opcode == TEXT || opcode == BINARY then
      if fin then (ServerFrame(opcode, payload), false) else (CloseFrame(CLOSE_UNSUPPORTED_DATA), true)
    else if opcode == PING then
      if fin && |payload| <= 125 then (ServerFrame(PONG, payload), false)
      else (CloseFrame(CLOSE_PROTOCOL_ERROR), true)
    else if opcode == PONG then ([], false)
    else if opcode == CLOSE then
      var code: nat := if |payload| >= 2 then payload[0] * 256 + payload[1] else CLOSE_NORMAL;
      (CloseFrame(code), true)
    else (CloseFrame(CLOSE_PROTOCOL_ERROR), true)
  }

  /** Reference: what a stream is answered with. */
  datatype Answer = Answer(out: Bytes, rest: Bytes, closing: bool)

  function Answered(stream: Bytes, cap: nat): Answer
    decreases |stream|
  {
    match DecodeFrame(stream, cap)
    case Wait => Answer([], stream, false)
    case Violation(code) => Answer(CloseFrame(code), stream, true)
    case Frame(fin, opcode, payload, end) =>
      var (reply, close) := Reply(fin, opcode, payload);
      if close then Answer(reply, stream[end..], true)
      else var more := Answered(stream[end..], cap); more.(out := reply + more.out)
  }

  lemma {:induction false} AnsweredStep(stream: Bytes, cap: nat)
    ensures var d := DecodeFrame(stream, cap);
            && (d.Wait? ==> Answered(stream, cap) == Answer([], stream, false))
            && (d.Violation? ==> Answered(stream, cap) == Answer(CloseFrame(d.code), stream, true))
            && (d.Frame? ==>
                  var r := Reply(d.fin, d.opcode, d.payload);
                  var more := Answered(stream[d.end..], cap);
                  Answered(stream, cap) == if r.1 then Answer(r.0, stream[d.end..], true)
                                           else more.(out := r.0 + more.out))
  {
    hide DecodeFrame, Reply;
  }

  lemma {:induction false} HandleHasRoom(out: Bytes, fin: bool, opcode: nat, payload: Bytes)
    requires opcode < 16
    ensures var r := Reply(fin, opcode, payload);
            |out| + |r.0| <= MAX_RESPONSE_SIZE ==> Handle(out, fin, opcode, payload) == (out + r.0, r.1)
  {
    hide ServerFrame;
    assert out + [] == out;
  }

  /** While the write buffer has room, processing stages exactly the answer. */
  lemma {:induction false} ProcessAnswers(s: Session, cap: nat)
    requires !s.closing && |s.out| + |Answered(s.buffer, cap).out| <= MAX_RESPONSE_SIZE
    ensures var a := Answered(s.buffer, cap); Process(s, cap) == Session(a.rest, s.out + a.out, a.closing)
    decreases |s.buffer|
  {
    hide DecodeFrame, Handle, Reply, Process, Answered, CloseFrame;
    var d, a := DecodeFrame(s.buffer, cap), Answered(s.buffer, cap);
    ProcessStep(s, cap);
    AnsweredStep(s.buffer, cap);
    assert s.out + [] == s.out;
    if d.Frame? {
      var r := Reply(d.fin, d.opcode, d.payload);
      HandleHasRoom(s.out, d.fin, d.opcode, d.payload);
      if !r.1 {
        var more := Answered(s.buffer[d.end..], cap);
        ProcessAnswers(Session(s.buffer[d.end..], s.out + r.0, false), cap);
        assert s.out + r.0 + more.out == s.out + (r.0 + more.out);
      }
    }
  }

  // ---- the answers, byte by byte ---------------------------------------------------------------

  /** What each frame a client sends is answered with: data with the same opcode and payload, a
      ping with a pong of the same payload, a pong with nothing, a close with the client's code
      or 1000, a fragment with a close of 1003, and every other frame with a close of 1002. */
  lemma {:induction false} FrameAnswered(fin: bool, opcode: nat, mask: Bytes, payload: Bytes, rest: Bytes, cap: nat)
    requires opcode < 16 && |mask| == 4 && Fits(payload, cap)
    ensures var a, more := Answered(ClientFrame(fin, opcode, mask, payload) + rest, cap), Answered(rest, cap);
            var data, ping := opcode == 1 || opcode == 2, opcode == 9 && fin && |payload| <= 125;
            && (data && fin ==> a == more.(out := Header(true, opcode, false, |payload|) + payload + more.out))
            && (ping ==> a == more.(out := [0x8A, |payload|] + payload + more.out))
            && (opcode == 10 ==> a == more)
            && (opcode == 8 ==>
                  a == Answer([0x88, 2] + (if |payload| >= 2 then payload[..2] else [0x03, 0xE8]), rest, true))
            && (data && !fin ==> a == Answer([0x88, 2, 0x03, 0xEB], rest, true))
            && (!data && !ping && opcode != 10 && opcode != 8 ==> a == Answer([0x88, 2, 0x03, 0xEA], rest, true))
  {
    hide Answered, DecodeFrame, ClientFrame, Fits;
    var f := ClientFrame(fin, opcode, mask, payload);
    FitsLength(payload, cap);
    ClientFrameDecodes(fin, opcode, mask, payload, rest, cap);
    AnsweredStep(f + rest, cap);
    assert (f + rest)[|f|..] == rest;
    assert [] + Answered(rest, cap).out == Answered(rest, cap).out;
  }

  lemma {:induction false} FitsLength(payload: Bytes, cap: nat)
    requires Fits(payload, cap)
    ensures |payload| < Pow(256, 8)
  {
  }

  /** What is no frame is answered with a close of 1002, and a frame too big for the read buffer
      with a close of 1009. */
  lemma {:induction false} ViolationAnswered(fin: bool, opcode: nat, mask: bool, len: nat, k: nat, rest: Bytes,
                                             cap: nat)
    requires opcode < 16 && LengthForm(len, k)
    ensures var s := FormHeader(fin, opcode, mask, len, k) + rest;
            && (!mask ==> Answered(s, cap) == Answer([0x88, 2, 0x03, 0xEA], s, true))
            && (mask && 2 + k + 4 + len >= cap ==> Answered(s, cap) == Answer([0x88, 2, 0x03, 0xF1], s, true))
  {
    hide Answered, DecodeFrame, LengthForm, FormHeader;
    DecodeExact(fin, opcode, mask, len, k, rest, cap);
    AnsweredStep(FormHeader(fin, opcode, mask, len, k) + rest, cap);
  }

  lemma {:induction false} ReservedAnswered(s: Bytes, cap: nat)
    requires |s| >= 2 && (s[0] / 64 % 2 == 1 || s[0] / 32 % 2 == 1 || s[0] / 16 % 2 == 1)
    ensures Answered(s, cap) == Answer([0x88, 2, 0x03, 0xEA], s, true)
  {
    hide Answered;
    AnsweredStep(s, cap);
  }

  // ---- when the write buffer is full -----------------------------------------------------------

  /** The write buffer never outgrows its limit. */
  lemma {:induction false} StagedWithin(s: Session, cap: nat)
    requires |s.out| <= MAX_RESPONSE_SIZE
    ensures s.out <= Process(s, cap).out && |Process(s, cap).out| <= MAX_RESPONSE_SIZE
    decreases |s.buffer|
  {
    hide DecodeFrame, Process, ServerFrame;
    ProcessStep(s, cap);
    var d := DecodeFrame(s.buffer, cap);
    if d.Frame? {
      var h := Handle(s.out, d.fin, d.opcode, d.payload);
      if !h.1 { StagedWithin(Session(s.buffer[d.end..], h.0, false), cap); }
    }
  }

  /** A message whose echo does not fit closes the session, with a close of 1009 while that fits;
      a pong that does not fit is dropped. */
  lemma {:induction false} NoRoom(out: Bytes, opcode: nat, mask: Bytes, payload: Bytes, rest: Bytes, cap: nat)
    requires opcode == 1 || opcode == 2 || (opcode == 9 && |payload| <= 125)
    requires |mask| == 4 && Fits(payload, cap)
    requires |out| + |Header(true, opcode, false, |payload|)| + |payload| > MAX_RESPONSE_SIZE
    ensures var s := Session(ClientFrame(true, opcode, mask, payload) + rest, out, false);
            Process(s, cap) ==
            if opcode == 9 then Process(Session(rest, out, false), cap)
            else if |out| + 4 <= MAX_RESPONSE_SIZE then Session(rest, out + [0x88, 2, 0x03, 0xF1], true)
            else Session(rest, out, true)
  {
    hide Process, DecodeFrame, ClientFrame, Fits, Header;
    var f := ClientFrame(true, opcode, mask, payload);
    FitsLength(payload, cap);
    ClientFrameDecodes(true, opcode, mask, payload, rest, cap);
    ProcessStep(Session(f + rest, out, false), cap);
    assert (f + rest)[|f|..] == rest;
    CloseFrameBytes(CLOSE_MESSAGE_TOO_BIG);
  }

  lemma {:induction false} CloseFrameBytes(code: nat)
    requires code < 0x10000
    ensures CloseFrame(code) == [0x88, 2, code / 256, code % 256]
  {
  }

  /** More input only adds to the answer, and adds nothing once the session is closing. */
  lemma {:induction false} AnsweredMore(s: Bytes, t: Bytes, cap: nat)
    ensures var a, b := Answered(s, cap), Answered(s + t, cap);
            && (a.closing ==> b.out == a.out && b.closing)
            && (!a.closing ==>
                  var c := Answered(a.rest + t, cap);
                  b == Answer(a.out + c.out, c.rest, c.closing))
    decreases |s|
  {
    hide DecodeFrame, Reply, Answered, CloseFrame;
    var d := DecodeFrame(s, cap);
    AnsweredStep(s, cap);
    AnsweredStep(s + t, cap);
    DecodeLocal(s, t, cap);
    if d.Wait? {
      var c := Answered(s + t, cap);
      assert [] + c.out == c.out;
    } else if d.Frame? {
      var r, u := Reply(d.fin, d.opcode, d.payload), s[d.end..];
      assert (s + t)[d.end..] == u + t;
      if !r.1 {
        AnsweredMore(u, t, cap);
        var c := Answered(Answered(u, cap).rest + t, cap);
        assert r.0 + (Answered(u, cap).out + c.out) == r.0 + Answered(u, cap).out + c.out;
      }
    }
  }

  /** Bytes arrive, or the write buffer is sent out and emptied (handle_client_write). */
  datatype Event = Arrive(bytes: Bytes) | Flush

  datatype Wire = Wire(session: Session, sent: Bytes)

  function Happens(w: Wire, ev: Event, cap: nat): Wire {
    match ev
    case Arrive(bytes) => w.(session := Feed(w.session, bytes, cap))
    case Flush => Wire(w.session.(out := []), w.sent + w.session.out)
  }

  function Run(evs: seq<Event>, cap: nat): Wire {
    if |evs| == 0 then Wire(START, []) else Happens(Run(evs[..|evs| - 1], cap), evs[|evs| - 1], cap)
  }

  function Arrived(evs: seq<Event>): Bytes {
    if |evs| == 0 then []
    else Arrived(evs[..|evs| - 1]) + match evs[|evs| - 1] case Arrive(bytes) => bytes case Flush => []
  }

  /** No reply is ever refused for lack of room in the write buffer. */
  ghost predicate Roomy(evs: seq<Event>, cap: nat)
    decreases |evs|
  {
    |evs| > 0 ==>
      && Roomy(evs[..|evs| - 1], cap)
      && var s := Run(evs[..|evs| - 1], cap).session;
         evs[|evs| - 1].Arrive? && !s.closing ==>
           |s.out| + |Answered(s.buffer + evs[|evs| - 1].bytes, cap).out| <= MAX_RESPONSE_SIZE
  }

  /** However a stream is cut into reads, and whenever the write buffer is flushed in between,
      what is sent and staged is the answer to the stream, of any length. */
  lemma {:induction false} FlushIndependent(evs: seq<Event>, cap: nat)
    requires Roomy(evs, cap)
    ensures var w, a := Run(evs, cap), Answered(Arrived(evs), cap);
            && w.sent + w.session.out == a.out && w.session.closing == a.closing
            && (!a.closing ==> w.session.buffer == a.rest)
    decreases |evs|
  {
    hide Process, DecodeFrame, Answered;
    if |evs| == 0 {
      AnsweredStep([], cap);
      EmptyWaits(cap);
    } else {
      var front, last := evs[..|evs| - 1], evs[|evs| - 1];
      FlushIndependent(front, cap);
      var w, a := Run(front, cap), Answered(Arrived(front), cap);
      if last.Flush? {
        assert Arrived(evs) == Arrived(front);
        assert w.sent + w.session.out + [] == w.sent + w.session.out;
      } else {
        AnsweredMore(Arrived(front), last.bytes, cap);
        if !w.session.closing {
          ProcessAnswers(w.session.(buffer := w.session.buffer + last.bytes), cap);
          var c := Answered(a.rest + last.bytes, cap);
          assert w.sent + (w.session.out + c.out) == w.sent + w.session.out + c.out;
        }
      }
    }
  }

  /** A reply is shorter than the frame it answers. */
  lemma {:induction false} ReplyShort(s: Bytes, cap: nat)
    requires DecodeFrame(s, cap).Frame?
    ensures var d := DecodeFrame(s, cap); |Reply(d.fin, d.opcode, d.payload).0| <= d.end
  {
    var h, len := HeaderSize(s[1]), PayloadLength(s);
    if h == 4 {
      assert BigEndian(s[2..4]) == BigEndian(s[2..4][..1]) * 256 + s[3];
      assert BigEndian(s[2..4][..1]) == BigEndian(s[2..4][..1][..0]) * 256 + s[2];
    }
  }

  /** The answer to n bytes has at most n + 4, and with the leftover at most n while the session
      goes on. */
  lemma {:induction false} AnswerShort(stream: Bytes, cap: nat)
    ensures var a := Answered(stream, cap);
            |a.out| <= |stream| + 4 && (!a.closing ==> |a.out| + |a.rest| <= |stream|)
    decreases |stream|
  {
    hide DecodeFrame, Reply, Answered;
    AnsweredStep(stream, cap);
    var d := DecodeFrame(stream, cap);
    if d.Frame? {
      ReplyShort(stream, cap);
      AnswerShort(stream[d.end..], cap);
    }
  }

  /** Bytes that have arrived since the last flush. */
  function Since(evs: seq<Event>): nat {
    if |evs| == 0 then 0
    else match evs[|evs| - 1] case Arrive(bytes) => Since(evs[..|evs| - 1]) + |bytes| case Flush => 0
  }

  /** The same, with what was left in the read buffer at that flush. */
  function Unflushed(evs: seq<Event>, cap: nat): nat {
    if |evs| == 0 then 0
    else
      match evs[|evs| - 1]
      case Arrive(bytes) => Unflushed(evs[..|evs| - 1], cap) + |bytes|
      case Flush => var s := Run(evs, cap).session; if s.closing then 0 else |s.buffer|
  }

  lemma {:induction false} StagedBound(evs: seq<Event>, cap: nat)
    requires Roomy(evs, cap)
    ensures var s := Run(evs, cap).session; !s.closing ==> |s.out| + |s.buffer| <= Unflushed(evs, cap)
    decreases |evs|
  {
    hide Process, Answered;
    if |evs| > 0 {
      var front, last := evs[..|evs| - 1], evs[|evs| - 1];
      StagedBound(front, cap);
      var s := Run(front, cap).session;
      if last.Arrive? && !s.closing {
        var t := s.(buffer := s.buffer + last.bytes);
        ProcessAnswers(t, cap);
        AnswerShort(t.buffer, cap);
      }
    }
  }

  /** Flushing often enough leaves room: the leftover of a flush and what arrives before the
      next must stay four bytes below the size of the write buffer. */
  lemma {:induction false} OftenFlushed(evs: seq<Event>, cap: nat)
    requires forall i :: 0 <= i <= |evs| ==> Unflushed(evs[..i], cap) + 4 <= MAX_RESPONSE_SIZE
    ensures Roomy(evs, cap)
    decreases |evs|
  {
    hide Answered, Run;
    if |evs| > 0 {
      var front, last := evs[..|evs| - 1], evs[|evs| - 1];
      forall i | 0 <= i <= |front| ensures Unflushed(front[..i], cap) + 4 <= MAX_RESPONSE_SIZE {
        assert front[..i] == evs[..i];
      }
      OftenFlushed(front, cap);
      StagedBound(front, cap);
      assert evs[..|evs|] == evs;
      if last.Arrive? { AnswerShort(Run(front, cap).session.buffer + last.bytes, cap); }
    }
  }

  lemma {:induction false} LeftoverSmall(evs: seq<Event>, cap: nat)
    requires cap > 10
    ensures var s := Run(evs, cap).session; !s.closing ==> |s.buffer| < cap
    decreases |evs|
  {
    hide Process;
    if |evs| > 0 {
      var front, last := evs[..|evs| - 1], evs[|evs| - 1];
      LeftoverSmall(front, cap);
      var s := Run(front, cap).session;
      if last.Arrive? && !s.closing { NeverWedged(s.(buffer := s.buffer + last.bytes), cap); }
    }
  }

  lemma {:induction false} UnflushedBound(evs: seq<Event>, cap: nat)
    requires cap > 10
    ensures Unflushed(evs, cap) <= cap + Since(evs)
    decreases |evs|
  {
    hide Run;
    if |evs| > 0 {
      UnflushedBound(evs[..|evs| - 1], cap);
      LeftoverSmall(evs, cap);
    }
  }

  /** In terms of the input alone: no reply is refused if between two flushes fewer bytes arrive
      than the write buffer is larger than the read buffer, less four. */
  lemma {:induction false} SteadyIsRoomy(evs: seq<Event>, cap: nat)
    requires cap > 10 && forall i :: 0 <= i <= |evs| ==> cap + Since(evs[..i]) + 4 <= MAX_RESPONSE_SIZE
    ensures Roomy(evs, cap)
  {
    hide Since, Unflushed, Roomy;
    forall i | 0 <= i <= |evs| ensures Unflushed(evs[..i], cap) + 4 <= MAX_RESPONSE_SIZE {
      UnflushedBound(evs[..i], cap);
    }
    OftenFlushed(evs, cap);
  }

  lemma {:induction false} EchoesAnswer(ms: seq<Message>, cap: nat)
    requires Sendable(ms, cap)
    ensures Answered(Sent(ms), cap) == Answer(Echoes(ms), [], false)
  {
    hide Answered, DecodeFrame, ClientFrame, ServerFrame, Fits;
    AnsweredStep(Sent(ms), cap);
    if |ms| == 0 {
      EmptyWaits(cap);
    } else {
      var m := ms[0];
      var f, tail := ClientFrame(true, Opcode(m), m.mask, m.payload), Sent(ms[1..]);
      assert Sent(ms)[|f|..] == tail;
      FitsLength(m.payload, cap);
      ClientFrameDecodes(true, Opcode(m), m.mask, m.payload, tail, cap);
      EchoesAnswer(ms[1..], cap);
    }
  }

  /** However such messages are cut into reads and whenever the replies are flushed, the client
      gets back their echoes. */
  lemma {:induction false} EchoStream(ms: seq<Message>, evs: seq<Event>, cap: nat)
    requires Sendable(ms, cap) && Arrived(evs) == Sent(ms) && Roomy(evs, cap)
    ensures var w := Run(evs, cap);
            w.sent + w.session.out == Echoes(ms) && w.session.buffer == [] && !w.session.closing
  {
    hide Run, Roomy, Answered;
    FlushIndependent(evs, cap);
    EchoesAnswer(ms, cap);
  }
}

/** The session on the connection's buffers. */
module WsConnection {
  import opened Common
  import opened WsFrames
  import opened WsSession

  /** n >> 8 * k. */
  function Shifted(n: nat, k: nat): nat {
    if k == 0 then n else Shifted(n / 256, k - 1)
  }

  lemma {:induction false} BytesOfAt(n: nat, k: nat, i: nat)
    requires i < k
    ensures BytesOf(n, k)[i] == Shifted(n, k - 1 - i) % 256
  {
    if i < k - 1 { BytesOfAt(n / 256, k - 1, i); }
  }

  /** The header ws_append_frame writes before a payload of this length. */
  method BuildHeader(opcode: nat, len: nat) returns (header: Bytes)
    requires opcode < 16
    ensures header == Header(true, opcode, false, len)
  {
    hide BytesOf;
    header := [128 + opcode];
    if len < 126 {
      header := header + [len];
    } else if len <= 0xFFFF {
      BytesOfAt(len, 2, 0);
      BytesOfAt(len, 2, 1);
      header := header + [126, len / 256 % 256, len % 256];
    } else {
      header := header + [127];
      for i := 0 to 8
        invariant header == [128 + opcode, 127] + BytesOf(len, 8)[..i]
      {
        BytesOfAt(len, 8, i);
        header := header + [Shifted(len, 7 - i) % 256];
      }
    }
  }

  class Connection {
    const readBuffer: array<Byte>
    var readPos: nat
    /** The staged part of the write buffer, which grows on demand. */
    var writeBuffer: Bytes

    ghost predicate Valid()
      reads this
    {
      readPos <= readBuffer.Length
    }

    constructor (cap: nat)
      ensures Valid() && readPos == 0 && writeBuffer == [] && fresh(readBuffer) && readBuffer.Length == cap
    {
      readBuffer := new Byte[cap];
      readPos, writeBuffer := 0, [];
    }

    /** ws_append_frame. */
    method AppendFrame(opcode: nat, payload: Bytes) returns (ok: bool)
      requires opcode < 16
      modifies this`writeBuffer
      ensures ok <==> old(|writeBuffer|) + |ServerFrame(opcode, payload)| <= MAX_RESPONSE_SIZE
      ensures writeBuffer == Stage(old(writeBuffer), ServerFrame(opcode, payload))
    {
      hide Header;
      var len := |payload|;
      var header := BuildHeader(opcode, len);
      if |writeBuffer| + |header| + len > MAX_RESPONSE_SIZE {
        return false;
      }
      writeBuffer := writeBuffer + header + payload;
      assert old(writeBuffer) + header + payload == old(writeBuffer) + ServerFrame(opcode, payload);
      return true;
    }

    method AppendClose(code: nat)
      modifies this`writeBuffer
      ensures writeBuffer == Stage(old(writeBuffer), CloseFrame(code))
    {
      var _ := AppendFrame(CLOSE, [code / 256 % 256, code % 256]);
    }

    /** ws_handle_frame. */
    method HandleFrame(fin: bool, opcode: nat, payload: Bytes) returns (close: bool)
      requires opcode < 16
      modifies this`writeBuffer
      ensures (writeBuffer, close) == Handle(old(writeBuffer), fin, opcode, payload)
    {
      hide ServerFrame, CloseFrame;
      if opcode == TEXT || opcode == BINARY {
        if !fin {
          AppendClose(CLOSE_UNSUPPORTED_DATA);
          return true;
        }
        var ok := AppendFrame(opcode, payload);
        if !ok {
          AppendClose(CLOSE_MESSAGE_TOO_BIG);
        }
        return !ok;
      } else if opcode == PING {
        if !fin || |payload| > 125 {
          AppendClose(CLOSE_PROTOCOL_ERROR);
          return true;
        }
        var _ := AppendFrame(PONG, payload);
        return false;
      } else if opcode == PONG {
        return false;
      } else if opcode == CLOSE {
        AppendClose(if |payload| >= 2 then payload[0] * 256 + payload[1] else CLOSE_NORMAL);
        return true;
      }
      AppendClose(CLOSE_PROTOCOL_ERROR);
      return true;
    }

    /** Unmasks a payload in place with the four bytes before it. */
    method Unmask(off: nat, len: nat)
      requires 4 <= off && off + len <= readBuffer.Length
      modifies readBuffer
      ensures readBuffer[off..off + len] == Masked(old(readBuffer[off..off + len]), old(readBuffer[off - 4..off]))
      ensures forall j :: 0 <= j < off || off + len <= j < readBuffer.Length ==> readBuffer[j] == old(readBuffer[j])
    {
      ghost var p, mask := readBuffer[off..off + len], readBuffer[off - 4..off];
      for i := 0 to len
        invariant forall j :: 0 <= j < off || off + i <= j < readBuffer.Length ==> readBuffer[j] == old(readBuffer[j])
        invariant forall j :: 0 <= j < i ==> readBuffer[off + j] == Masked(p, mask)[j]
      {
        assert mask[i % 4] == readBuffer[off - 4 + i % 4] && p[i] == readBuffer[off + i];
        readBuffer[off + i] := Xor(readBuffer[off + i], readBuffer[off - 4 + i % 4]);
      }
      assert readBuffer[off..off + len] == Masked(p, mask);
    }

    /** Unmasks the frame at off and acts on it. */
    method TakeFrame(off: nat, d: Decoded) returns (close: bool)
      requires off <= readPos <= readBuffer.Length
      requires d.Frame? && d == DecodeFrame(readBuffer[off..readPos], readBuffer.Length)
      modifies this`writeBuffer, readBuffer
      ensures (writeBuffer, close) == Handle(old(writeBuffer), d.fin, d.opcode, d.payload)
      ensures readBuffer[off + d.end..readPos] == old(readBuffer[off..readPos])[d.end..]
      ensures readBuffer[off + d.end..readPos] == old(readBuffer[off + d.end..readPos])
    {
      hide DecodeFrame, Handle, Masked;
      ghost var s := readBuffer[off..readPos];
      FramePlace(s, readBuffer.Length);
      var e, n := off + d.end, |d.payload|;
      assert readBuffer[e - n..e] == s[d.end - n..d.end] && readBuffer[e - n - 4..e - n] == s[d.end - n - 4..d.end - n];
      Unmask(e - n, n);
      close := HandleFrame(d.fin, d.opcode, readBuffer[e - n..e]);
    }

    /** ws_process_frames: every whole frame is unmasked in place and acted on, then the
        leftover slides to the front. */
    method ProcessFrames() returns (close: bool)
      requires Valid()
      modifies this, readBuffer
      ensures Valid()
      ensures Session(readBuffer[..readPos], writeBuffer, close)
              == Process(Session(old(readBuffer[..readPos]), old(writeBuffer), false), readBuffer.Length)
    {
      hide DecodeFrame, Process, Handle, Stage, CloseFrame;
      var cap, off := readBuffer.Length, 0;
      ghost var all := Session(readBuffer[..readPos], writeBuffer, false);
      close := false;
      while off < readPos
        invariant off <= readPos == old(readPos) && !close
        invariant readBuffer[off..readPos] == old(readBuffer[off..readPos])
        invariant Process(Session(readBuffer[off..readPos], writeBuffer, false), cap) == Process(all, cap)
      {
        var s := readBuffer[off..readPos];
        var d := DecodeFrame(s, cap);
        ProcessStep(Session(s, writeBuffer, false), cap);
        match d {
          case Wait =>
            break;
          case Violation(code) =>
            AppendClose(code);
            close := true;
            break;
          case Frame(_, _, _, end) =>
            close := TakeFrame(off, d);
            off := off + end;
            if close {
              break;
            }
        }
      }
      if !close && off == readPos {
        EmptyWaits(cap);
        assert readBuffer[off..readPos] == [];
        ProcessStep(Session([], writeBuffer, false), cap);
      }
      SlideToFront(readBuffer, off, readPos);
      readPos := readPos - off;
    }
  }

  /** Where a decoded frame's mask and payload lie. */
  lemma {:induction false} FramePlace(s: Bytes, cap: nat)
    requires DecodeFrame(s, cap).Frame?
    ensures var d := DecodeFrame(s, cap);
            var p := d.end - |d.payload|;
            6 <= p <= d.end <= |s| && d.payload == Masked(s[p..d.end], s[p - 4..p])
  {
  }
}
