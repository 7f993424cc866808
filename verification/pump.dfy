/** The balancer's byte pump (balancer/src/balancer.c): two buffers per connection, each read
    only when empty, with back-pressure through the epoll interest. */
module BytePump {
  import opened Common

  const LB_BUFFER_SIZE: nat := 8192

  /** What a write reports: some bytes taken, would-block, or a failure. */
  datatype Io = Sent(n: nat) | Blocked | Broken

  /** What a read reports. */
  datatype Input = Data(bytes: Bytes) | Eof | Again | Failed

  /** The event of one socket in the fetched batch. */
  datatype Due = Nothing | Readable | Writable | HangUp

  function IoAt(io: seq<Io>, k: nat): Io {
    if k < |io| then io[k] else Blocked
  }

  /** How a write loop ends: everything out, waiting for the socket, or the socket lost. */
  datatype End = Drained | Stuck | Lost

  /** Writing `left` bytes with the outcomes from the k-th on: how many go out, how the loop
      ends, and the outcomes used.  A write that takes nothing without blocking is a failure. */
  function Push(io: seq<Io>, k: nat, left: nat): (r: (nat, End, nat))
    ensures r.0 <= left && (r.1 == Drained <==> r.0 == left)
    decreases left
  {
    if left == 0 then (0, Drained, k)
    else
      match IoAt(io, k)
      case Blocked => (0, Stuck, k)
      case Broken => (0, Lost, k)
      case Sent(n) =>
        if n == 0 then (0, Lost, k)
        else
          var m := if n < left then n else left;
          var r := Push(io, k + 1, left - m);
          (m + r.0, r.1, r.2)
  }

  /** One write of the loop. */
  lemma {:induction false} PushStep(io: seq<Io>, k: nat, left: nat)
    ensures left == 0 ==> Push(io, k, left) == (0, Drained, k)
    ensures left > 0 ==>
              match IoAt(io, k)
              case Blocked => Push(io, k, left) == (0, Stuck, k)
              case Broken => Push(io, k, left) == (0, Lost, k)
              case Sent(n) =>
                if n == 0 then Push(io, k, left) == (0, Lost, k)
                else
                  var m := if n < left then n else left;
                  var r := Push(io, k + 1, left - m);
                  Push(io, k, left) == (m + r.0, r.1, r.2)
  {
  }

  /** Header, then payload. */
  function PushBoth(io: seq<Io>, header: nat, payload: nat): (r: (nat, End))
    ensures r.0 <= header + payload && (r.1 == Drained <==> r.0 == header + payload)
  {
    var h := Push(io, 0, header);
    if h.1 != Drained then (h.0, h.1)
    else
      var b := Push(io, h.2, payload);
      (header + b.0, b.1)
  }

  /** As long as no write fails, the socket is not lost. */
  lemma {:induction false} NothingLost(io: seq<Io>, k: nat, left: nat)
    requires forall j :: 0 <= j < |io| ==> io[j] != Broken && io[j] != Sent(0)
    ensures Push(io, k, left).1 != Lost
    decreases left
  {
    if left > 0 && IoAt(io, k).Sent? {
      var n := IoAt(io, k).n;
      NothingLost(io, k + 1, left - if n < left then n else left);
    }
  }

  /** What the writes from the k-th up to the j-th took. */
  function Taken(io: seq<Io>, k: nat, j: nat): nat
    decreases j
  {
    if j <= k then 0 else Taken(io, k, j - 1) + match IoAt(io, j - 1) case Sent(n) => n case _ => 0
  }

  lemma {:induction false} TakenFirst(io: seq<Io>, k: nat, j: nat)
    requires k < j
    ensures Taken(io, k, j) == (match IoAt(io, k) case Sent(n) => n case _ => 0) + Taken(io, k + 1, j)
    decreases j
  {
    if k + 1 < j { TakenFirst(io, k, j - 1); }
  }

  /** The loop writes until everything is out or a write takes nothing, and not once more: what
      went out is what the writes took, it waits exactly on a write that would block, and it has
      lost the socket exactly on one that fails or takes nothing. */
  lemma {:induction false} PushExact(io: seq<Io>, k: nat, left: nat)
    ensures var (sent, end, j) := Push(io, k, left);
            && k <= j && (forall i :: k <= i < j ==> IoAt(io, i).Sent? && IoAt(io, i).n > 0)
            && (end == Drained <==> Taken(io, k, j) >= left) && (end != Drained ==> sent == Taken(io, k, j))
            && (end == Drained && j > k ==> Taken(io, k, j - 1) < left)
            && (end == Stuck ==> IoAt(io, j) == Blocked)
            && (end == Lost ==> IoAt(io, j) == Broken || IoAt(io, j) == Sent(0))
    decreases left
  {
    TakenNone(io, k);
    hide Taken;
    if left > 0 && IoAt(io, k).Sent? && IoAt(io, k).n > 0 {
      var n := IoAt(io, k).n;
      var m := if n < left then n else left;
      PushExact(io, k + 1, left - m);
      var j := Push(io, k + 1, left - m).2;
      TakenFirst(io, k, j);
      if j - 1 > k { TakenFirst(io, k, j - 1); }
    }
  }

  lemma {:induction false} TakenNone(io: seq<Io>, k: nat)
    ensures Taken(io, k, k) == 0 && Taken(io, k + 1, k + 1) == 0
  {
  }

  class Link {
    const backend: nat
    const proxyHdr: Bytes
    var hdrSent: nat
    /** Bytes on their way to the backend, and to the client. */
    const clientBuffer: array<Byte>
    var clientLen: nat
    var clientSent: nat
    const backendBuffer: array<Byte>
    var backendLen: nat
    var backendSent: nat
    var clientEof: bool
    var closed: bool
    /** The epoll interest of the two sockets. */
    var clientIn: bool
    var clientOut: bool
    var backendIn: bool
    var backendOut: bool
    /** Events fetched and not yet handled. */
    var dueClient: Due
    var dueBackend: Due
    /** Everything read from and written to each side so far. */
    ghost var fromClient: Bytes
    ghost var toBackend: Bytes
    ghost var fromBackend: Bytes
    ghost var toClient: Bytes

    /** Client to backend nothing is lost, repeated or reordered: the header and then what was
        read is what was written and then what waits. */
    ghost predicate Forward()
      reads this`hdrSent, this`clientLen, this`clientSent, this`fromClient, this`toBackend, clientBuffer
    {
      && clientBuffer.Length == LB_BUFFER_SIZE && clientSent <= clientLen <= LB_BUFFER_SIZE && hdrSent <= |proxyHdr|
      && proxyHdr + fromClient == toBackend + (proxyHdr[hdrSent..] + clientBuffer[clientSent..clientLen])
    }

    /** Backend to client likewise, without a header. */
    ghost predicate Backward()
      reads this`backendLen, this`backendSent, this`fromBackend, this`toClient, backendBuffer
    {
      && backendBuffer.Length == LB_BUFFER_SIZE && backendSent <= backendLen <= LB_BUFFER_SIZE
      && fromBackend == toClient + backendBuffer[backendSent..backendLen]
    }

    ghost predicate Conserved()
      reads this`hdrSent, this`clientLen, this`clientSent, this`fromClient, this`toBackend, clientBuffer
      reads this`backendLen, this`backendSent, this`fromBackend, this`toClient, backendBuffer
    {
      Forward() && Backward() && clientBuffer != backendBuffer
    }

    /** A side is read only while nothing read from it is waiting, and waiting bytes have the
        interest that will move them. */
    ghost predicate Pressed()
      reads this
    {
      && (clientIn ==> clientSent == clientLen && !clientEof) && (backendIn ==> backendSent == backendLen)
      && (clientSent < clientLen ==> backendOut) && (backendSent < backendLen ==> clientOut)
    }

    /** An event that says readable was fetched while the interest was there, and nothing since
        has put bytes in that side's buffer. */
    ghost predicate DueOk()
      reads this
    {
      (dueClient == Readable ==> clientSent == clientLen) && (dueBackend == Readable ==> backendSent == backendLen)
    }

    ghost predicate Valid()
      reads this, clientBuffer, backendBuffer
    {
      Conserved() && (!closed ==> Pressed() && DueOk())
    }

    /** A fresh connection, registered for reading on both sides. */
    constructor (backend: nat, proxyHdr: Bytes)
      ensures Valid() && !closed && this.backend == backend && this.proxyHdr == proxyHdr
      ensures fresh(clientBuffer) && fresh(backendBuffer)
      ensures toBackend == [] && toClient == [] && dueClient == Nothing && dueBackend == Nothing
    {
      this.backend, this.proxyHdr, hdrSent := backend, proxyHdr, 0;
      clientBuffer := new Byte[LB_BUFFER_SIZE];
      backendBuffer := new Byte[LB_BUFFER_SIZE];
      clientLen, clientSent, backendLen, backendSent := 0, 0, 0, 0;
      clientEof, closed := false, false;
      clientIn, clientOut, backendIn, backendOut := true, false, true, false;
      dueClient, dueBackend := Nothing, Nothing;
      fromClient, toBackend, fromBackend, toClient := [], [], [], [];
    }

    method MarkClosed()
      requires Conserved()
      modifies this`closed
      ensures Valid() && closed
    {
      closed := true;
    }

    /** The interest that goes with what is pending: each direction either reads or waits to
        write, never both, and never neither unless the client is done. */
    ghost predicate InterestFits()
      reads this
    {
      && (backendOut <==> clientSent < clientLen || hdrSent < |proxyHdr|)
      && (clientIn <==> !backendOut && !clientEof)
      && (clientOut <==> backendSent < backendLen)
      && (backendIn <==> !clientOut)
    }

    /** update_epoll_interest. */
    method UpdateInterest()
      requires Conserved() && DueOk() && !closed
      modifies this`clientIn, this`clientOut, this`backendIn, this`backendOut
      ensures Valid() && InterestFits()
    {
      var c2b := clientLen > clientSent || |proxyHdr| > hdrSent;
      var b2c := backendLen > backendSent;
      clientIn := !c2b && !clientEof;
      backendIn := !b2c;
      backendOut := c2b;
      clientOut := b2c;
    }

    /** The header loop of flush_client_to_backend. */
    method FlushHeader(io: seq<Io>) returns (end: End, k: nat)
      requires Forward()
      modifies this`hdrSent, this`toBackend
      ensures Forward()
      ensures var p := Push(io, 0, old(|proxyHdr| - hdrSent));
              hdrSent == old(hdrSent) + p.0 && |toBackend| == old(|toBackend|) + p.0 && end == p.1 && k == p.2
    {
      hide Push;
      k := 0;
      ghost var all := Push(io, 0, |proxyHdr| - hdrSent);
      while hdrSent < |proxyHdr|
        invariant Forward() && 0 <= hdrSent - old(hdrSent) == |toBackend| - old(|toBackend|)
        invariant var p := Push(io, k, |proxyHdr| - hdrSent);
                  p.0 + (hdrSent - old(hdrSent)) == all.0 && p.1 == all.1 && p.2 == all.2
        decreases |proxyHdr| - hdrSent
      {
        PushStep(io, k, |proxyHdr| - hdrSent);
        match IoAt(io, k) {
          case Sent(n) =>
            if n == 0 {
              return Lost, k;
            }
            var left := |proxyHdr| - hdrSent;
            var m := if n < left then n else left;
            ghost var part := proxyHdr[hdrSent..hdrSent + m];
            assert proxyHdr[hdrSent..] == part + proxyHdr[hdrSent + m..];
            MovePart(toBackend, part, proxyHdr[hdrSent + m..], clientBuffer[clientSent..clientLen]);
            toBackend := toBackend + part;
            hdrSent := hdrSent + m;
          case Blocked =>
            return Stuck, k;
          case Broken =>
            return Lost, k;
        }
        k := k + 1;
      }
      PushStep(io, k, |proxyHdr| - hdrSent);
      return Drained, k;
    }

    /** The payload loop, once the header is out. */
    method FlushPayload(io: seq<Io>, start: nat) returns (end: End)
      requires Forward() && hdrSent == |proxyHdr|
      modifies this`toBackend, this`clientSent
      ensures Forward()
      ensures var p := Push(io, start, old(clientLen - clientSent));
              clientSent == old(clientSent) + p.0 && |toBackend| == old(|toBackend|) + p.0 && end == p.1
    {
      hide Push;
      var k := start;
      ghost var all := Push(io, start, clientLen - clientSent);
      while clientSent < clientLen
        invariant Forward() && hdrSent == |proxyHdr|
                  && 0 <= clientSent - old(clientSent) == |toBackend| - old(|toBackend|)
        invariant var p := Push(io, k, clientLen - clientSent);
                  p.0 + (clientSent - old(clientSent)) == all.0 && p.1 == all.1
        decreases clientLen - clientSent
      {
        PushStep(io, k, clientLen - clientSent);
        match IoAt(io, k) {
          case Sent(n) =>
            if n == 0 {
              return Lost;
            }
            var left := clientLen - clientSent;
            var m := if n < left then n else left;
            ghost var part := clientBuffer[clientSent..clientSent + m];
            ghost var rest := clientBuffer[clientSent + m..clientLen];
            assert clientBuffer[clientSent..clientLen] == part + rest && proxyHdr[hdrSent..] == [];
            MovePart(toBackend, part, [], rest);
            assert [] + (part + rest) == (part + []) + rest;
            toBackend := toBackend + part;
            clientSent := clientSent + m;
          case Blocked =>
            return Stuck;
          case Broken =>
            return Lost;
        }
        k := k + 1;
      }
      PushStep(io, k, clientLen - clientSent);
      return Drained;
    }

    /** flush_client_to_backend: false when the backend failed and the link must close. */
    method FlushClientToBackend(io: seq<Io>) returns (alive: bool)
      requires Conserved() && DueOk() && !closed
      modifies this`hdrSent, this`toBackend, this`clientLen, this`clientSent
      modifies this`clientIn, this`clientOut, this`backendIn, this`backendOut
      ensures Conserved() && (alive ==> Valid() && InterestFits())
      ensures var p := PushBoth(io, old(|proxyHdr| - hdrSent), old(clientLen - clientSent));
              |toBackend| == old(|toBackend|) + p.0 && (alive <==> p.1 != Lost)
    {
      hide Push, Link.Backward;
      var end, k := FlushHeader(io);
      if end == Drained {
        end := FlushPayload(io, k);
        if end == Drained {
          assert clientBuffer[clientSent..clientLen] == clientBuffer[0..0];
          clientLen, clientSent := 0, 0;
        }
      }
      if end == Lost {
        return false;
      }
      UpdateInterest();
      return true;
    }

    /** flush_backend_to_client. */
    method FlushBackendToClient(io: seq<Io>) returns (alive: bool)
      requires Conserved() && DueOk() && !closed
      modifies this`toClient, this`backendLen, this`backendSent
      modifies this`clientIn, this`clientOut, this`backendIn, this`backendOut
      ensures Conserved() && (alive ==> Valid() && InterestFits())
      ensures var p := Push(io, 0, old(backendLen - backendSent));
              |toClient| == old(|toClient|) + p.0 && (alive <==> p.1 != Lost)
    {
      hide Push, Link.Forward;
      var end := FlushReply(io);
      if end == Drained {
        assert backendBuffer[backendSent..backendLen] == backendBuffer[0..0];
        backendLen, backendSent := 0, 0;
      }
      if end == Lost {
        return false;
      }
      UpdateInterest();
      return true;
    }

    /** The loop of flush_backend_to_client. */
    method FlushReply(io: seq<Io>) returns (end: End)
      requires Backward()
      modifies this`toClient, this`backendSent
      ensures Backward()
      ensures var p := Push(io, 0, old(backendLen - backendSent));
              backendSent == old(backendSent) + p.0 && |toClient| == old(|toClient|) + p.0 && end == p.1
    {
      hide Push;
      var k := 0;
      ghost var all := Push(io, 0, backendLen - backendSent);
      while backendSent < backendLen
        invariant Backward() && 0 <= backendSent - old(backendSent) == |toClient| - old(|toClient|)
        invariant var p := Push(io, k, backendLen - backendSent);
                  p.0 + (backendSent - old(backendSent)) == all.0 && p.1 == all.1
        decreases backendLen - backendSent
      {
        PushStep(io, k, backendLen - backendSent);
        match IoAt(io, k) {
          case Sent(n) =>
            if n == 0 {
              return Lost;
            }
            var left := backendLen - backendSent;
            var m := if n < left then n else left;
            ghost var part := backendBuffer[backendSent..backendSent + m];
            assert backendBuffer[backendSent..backendLen] == part + backendBuffer[backendSent + m..backendLen];
            toClient := toClient + part;
            backendSent := backendSent + m;
          case Blocked =>
            return Stuck;
          case Broken =>
            return Lost;
        }
        k := k + 1;
      }
      PushStep(io, k, backendLen - backendSent);
      return Drained;
    }

    /** A chunk read from the client: nothing unsent was in its buffer. */
    method FillClientBuffer(bytes: Bytes)
      requires Forward() && clientSent == clientLen && 0 < |bytes| <= LB_BUFFER_SIZE
      modifies this`clientLen, this`clientSent, this`fromClient, clientBuffer
      ensures Forward() && fromClient == old(fromClient) + bytes && clientSent == 0 && clientLen == |bytes|
    {
      ghost var rest := clientBuffer[clientSent..clientLen];
      AddBytes(proxyHdr, fromClient, toBackend, proxyHdr[hdrSent..], rest, bytes);
      CopyInto(clientBuffer, 0, bytes);
      clientLen, clientSent := |bytes|, 0;
      fromClient := fromClient + bytes;
      assert clientBuffer[0..|bytes|] == bytes;
    }

    method FillBackendBuffer(bytes: Bytes)
      requires Backward() && backendSent == backendLen && 0 < |bytes| <= LB_BUFFER_SIZE
      modifies this`backendLen, this`backendSent, this`fromBackend, backendBuffer
      ensures Backward() && fromBackend == old(fromBackend) + bytes && backendSent == 0 && backendLen == |bytes|
    {
      assert backendBuffer[backendSent..backendLen] == [];
      CopyInto(backendBuffer, 0, bytes);
      backendLen, backendSent := |bytes|, 0;
      fromBackend := fromBackend + bytes;
      assert backendBuffer[0..|bytes|] == bytes;
    }

    /** lb_handle_client_data, on a fetched readable event: a chunk goes into the buffer only
        because nothing unsent is in it. */
    method ClientData(input: Input, io: seq<Io>) returns (alive: bool)
      requires Valid() && !closed && dueClient == Readable
      requires input.Data? ==> 0 < |input.bytes| <= LB_BUFFER_SIZE
      modifies this, clientBuffer
      ensures Conserved() && (alive ==> Valid()) && !closed
      ensures input.Data? ==> var p := PushBoth(io, old(|proxyHdr| - hdrSent), |input.bytes|);
                              |toBackend| == old(|toBackend|) + p.0 && (alive <==> p.1 != Lost)
      ensures !input.Data? ==> toBackend == old(toBackend) && (alive <==> !input.Failed?)
      ensures input.Eof? ==> clientEof && !clientIn
      ensures fromClient == old(fromClient) + (if input.Data? then input.bytes else [])
      ensures fromBackend == old(fromBackend) && toClient == old(toClient)
    {
      hide Push, PushBoth, Link.Backward, Link.Forward;
      dueClient := Nothing;
      match input {
        case Data(bytes) =>
          FillClientBuffer(bytes);
          alive := FlushClientToBackend(io);
        case Eof =>
          clientEof := true;
          UpdateInterest();
          alive := true;
        case Again =>
          alive := true;
        case Failed =>
          alive := false;
      }
    }

    /** lb_handle_backend_data. */
    method BackendData(input: Input, io: seq<Io>) returns (alive: bool)
      requires Valid() && !closed && dueBackend == Readable
      requires input.Data? ==> 0 < |input.bytes| <= LB_BUFFER_SIZE
      modifies this, backendBuffer
      ensures Conserved() && (alive ==> Valid()) && !closed
      ensures input.Data? ==> var p := Push(io, 0, |input.bytes|);
                              |toClient| == old(|toClient|) + p.0 && (alive <==> p.1 != Lost)
      ensures !input.Data? ==> toClient == old(toClient) && (alive <==> input.Again?)
      ensures fromBackend == old(fromBackend) + (if input.Data? then input.bytes else [])
      ensures fromClient == old(fromClient) && toBackend == old(toBackend)
    {
      hide Push, PushBoth, Link.Forward, Link.Backward;
      dueBackend := Nothing;
      match input {
        case Data(bytes) =>
          FillBackendBuffer(bytes);
          alive := FlushBackendToClient(io);
        case Eof =>
          alive := false;
        case Again =>
          alive := true;
        case Failed =>
          alive := false;
      }
    }
  }

  lemma {:induction false} AddBytes(header: Bytes, read: Bytes, done: Bytes, waiting: Bytes, rest: Bytes, bytes: Bytes)
    requires header + read == done + (waiting + rest) && |rest| == 0
    ensures header + (read + bytes) == done + (waiting + bytes)
  {
    assert waiting + rest == waiting;
    assert header + (read + bytes) == (header + read) + bytes && done + (waiting + bytes) == (done + waiting) + bytes;
  }

  lemma {:induction false} MovePart(done: Bytes, part: Bytes, rest: Bytes, after: Bytes)
    ensures done + ((part + rest) + after) == (done + part) + (rest + after)
  {
  }

  /** The balancer: its links and the connection count of each backend. */
  class Balancer {
    const current: array<int>
    ghost var links: set<Link>

    ghost function OpenOn(b: nat): set<Link>
      reads this, links
    {
      set l | l in links && !l.closed && l.backend == b
    }

    ghost predicate Apart()
      reads this
    {
      forall l, m :: l in links && m in links && l != m ==>
        l.clientBuffer != m.clientBuffer && l.clientBuffer != m.backendBuffer
        && l.backendBuffer != m.clientBuffer && l.backendBuffer != m.backendBuffer
    }

    ghost function Buffers(): set<object>
      reads this
    {
      (set l | l in links :: l.clientBuffer as object) + (set l | l in links :: l.backendBuffer as object)
    }

    /** Every backend's count is the number of its open links. */
    ghost predicate Counted()
      reads this, links, current
    {
      forall b :: 0 <= b < current.Length ==> current[b] == |OpenOn(b)|
    }

    /** All is well, the link `but` apart. */
    ghost predicate ValidBut(but: Link?)
      reads this, links, current, Buffers()
    {
      && Apart() && Counted()
      && (forall l :: l in links ==> l.backend < current.Length && (l != but ==> l.Valid()))
    }

    constructor (backends: nat)
      ensures ValidBut(null) && links == {} && current.Length == backends && fresh(current)
    {
      current := new int[backends](_ => 0);
      links := {};
    }

    /** lb_handle_new_connection, once a backend has been chosen. */
    method Accept(b: nat, proxyHdr: Bytes, connected: bool, registered: bool) returns (l: Link?)
      requires ValidBut(null) && b < current.Length
      modifies this, current
      ensures ValidBut(null)
      ensures l != null <==> connected && registered
      ensures l != null ==> fresh(l) && links == old(links) + {l} && l.backend == b && l.proxyHdr == proxyHdr
      ensures l == null ==> links == old(links) && current[..] == old(current[..])
    {
      hide Link.Conserved, Link.Pressed, Link.DueOk;
      if !connected || !registered {
        return null;
      }
      var n := new Link(b, proxyHdr);
      links := links + {n};
      current[b] := current[b] + 1;
      forall c | 0 <= c < current.Length ensures current[c] == |OpenOn(c)| {
        assert OpenOn(c) == old(OpenOn(c)) + if c == b then {n} else {};
      }
      return n;
    }

    /** epoll_wait: what may be reported for a link's two sockets, each once. */
    method Fetch(l: Link, client: Due, backend: Due)
      requires ValidBut(null) && l in links && !l.closed
      requires client == Readable ==> l.clientIn
      requires client == Writable ==> l.clientOut
      requires backend == Readable ==> l.backendIn
      requires backend == Writable ==> l.backendOut
      modifies l`dueClient, l`dueBackend
      ensures ValidBut(null) && l.dueClient == client && l.dueBackend == backend
    {
      hide Link.Forward, Link.Backward, Link.Conserved;
      l.dueClient, l.dueBackend := client, backend;
      assert forall c :: 0 <= c < current.Length ==> OpenOn(c) == old(OpenOn(c));
    }

    /** lb_close_connection: the guard makes a second close of the same link harmless. */
    method Close(l: Link)
      requires ValidBut(l) && l in links && l.Conserved()
      modifies l`closed, current
      ensures ValidBut(null) && l.closed
      ensures current[..] == if old(l.closed) then old(current[..])
                             else old(current[..])[l.backend := old(current[l.backend]) - 1]
    {
      hide Link.Conserved, Link.Pressed, Link.DueOk;
      if !l.closed {
        l.MarkClosed();
        current[l.backend] := current[l.backend] - 1;
        forall c | 0 <= c < current.Length ensures current[c] == |OpenOn(c)| {
          assert OpenOn(c) == old(OpenOn(c)) - if c == l.backend then {l} else {};
        }
      }
    }

    /** The main loop on the client socket's event. */
    method OnClient(l: Link, input: Input, io: seq<Io>)
      requires ValidBut(null) && l in links
      requires input.Data? ==> 0 < |input.bytes| <= LB_BUFFER_SIZE
      modifies l, l.clientBuffer, current
      ensures ValidBut(null) && (old(l.closed) ==> unchanged(l) && unchanged(current))
      ensures old(!l.closed && l.dueClient == Readable) ==>
                && l.fromClient == old(l.fromClient) + (if input.Data? then input.bytes else [])
                && (input.Data? ==> var p := PushBoth(io, old(|l.proxyHdr| - l.hdrSent), |input.bytes|);
                                    |l.toBackend| == old(|l.toBackend|) + p.0 && (l.closed <==> p.1 == Lost))
                && (!input.Data? ==> (l.closed <==> input.Failed?))
      ensures old(!l.closed && l.dueClient == Writable) ==>
                var p := Push(io, 0, old(l.backendLen - l.backendSent));
                |l.toClient| == old(|l.toClient|) + p.0 && (l.closed <==> p.1 == Lost)
      ensures old(!l.closed && l.dueClient == HangUp) ==> l.closed
    {
      hide Link.Forward, Link.Backward, Link.Conserved, Link.Pressed, Link.DueOk, Push, PushBoth;
      if l.closed {
        return;
      }
      var alive := true;
      if l.dueClient == HangUp {
        alive := false;
      } else if l.dueClient == Readable {
        alive := l.ClientData(input, io);
      } else if l.dueClient == Writable {
        alive := l.FlushBackendToClient(io);
      }
      assert forall c :: 0 <= c < current.Length ==> OpenOn(c) == old(OpenOn(c));
      if !alive {
        Close(l);
      }
    }

    /** The main loop on the backend socket's event. */
    method OnBackend(l: Link, input: Input, io: seq<Io>)
      requires ValidBut(null) && l in links
      requires input.Data? ==> 0 < |input.bytes| <= LB_BUFFER_SIZE
      modifies l, l.backendBuffer, current
      ensures ValidBut(null) && (old(l.closed) ==> unchanged(l) && unchanged(current))
      ensures old(!l.closed && l.dueBackend == Readable) ==>
                && l.fromBackend == old(l.fromBackend) + (if input.Data? then input.bytes else [])
                && (input.Data? ==> var p := Push(io, 0, |input.bytes|);
                                    |l.toClient| == old(|l.toClient|) + p.0 && (l.closed <==> p.1 == Lost))
                && (!input.Data? ==> (l.closed <==> !input.Again?))
      ensures old(!l.closed && l.dueBackend == Writable) ==>
                var p := PushBoth(io, old(|l.proxyHdr| - l.hdrSent), old(l.clientLen - l.clientSent));
                |l.toBackend| == old(|l.toBackend|) + p.0 && (l.closed <==> p.1 == Lost)
      ensures old(!l.closed && l.dueBackend == HangUp) ==> l.closed
    {
      hide Link.Forward, Link.Backward, Link.Conserved, Link.Pressed, Link.DueOk, Push, PushBoth;
      if l.closed {
        return;
      }
      var alive := true;
      if l.dueBackend == HangUp {
        alive := false;
      } else if l.dueBackend == Readable {
        alive := l.BackendData(input, io);
      } else if l.dueBackend == Writable {
        alive := l.FlushClientToBackend(io);
      }
      assert forall c :: 0 <= c < current.Length ==> OpenOn(c) == old(OpenOn(c));
      if !alive {
        Close(l);
      }
    }
  }
}
