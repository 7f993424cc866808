/** One connection's read side: frame, parse in place, consume, repeat (handle_client_data and
    conn_consume_read in server/src/worker.c). */
module ReadSide {
  import opened Common
  import opened HttpText
  import opened Framing
  import opened RequestParser
  import Pipeline

  class Connection {
    var readBuffer: array<Byte>
    var readPos: nat
    var open: bool
    /** The requests taken off the stream so far, and what the parser made of each. */
    ghost var requests: seq<Bytes>
    var parsed: seq<Parsed>

    ghost predicate Valid()
      reads this, readBuffer
    {
      readPos <= readBuffer.Length && |parsed| == |requests|
      && forall i :: 0 <= i < |requests| ==> parsed[i] == Parse(requests[i])
    }

    ghost function State(): Pipeline.Conn
      reads this, readBuffer
      requires readPos <= readBuffer.Length
    {
      Pipeline.Conn(readBuffer[..readPos], requests, open)
    }

    constructor (cap: nat)
      ensures Valid() && State() == Pipeline.START && fresh(readBuffer)
    {
      readBuffer := new Byte[cap];
      readPos, open, requests, parsed := 0, true, [], [];
    }

    /** Appends what a read delivered, in a larger buffer when it does not fit. */
    method Receive(piece: Bytes)
      requires Valid()
      modifies this, readBuffer
      ensures Valid() && readBuffer[..readPos] == old(readBuffer[..readPos]) + piece
      ensures requests == old(requests) && parsed == old(parsed) && open == old(open)
      ensures readBuffer == old(readBuffer) || fresh(readBuffer)
    {
      var b := readBuffer;
      if readPos + |piece| > b.Length {
        b := new Byte[2 * (readPos + |piece|)];
        forall i | 0 <= i < readPos { b[i] := readBuffer[i]; }
      }
      assert b[..readPos] == old(readBuffer[..readPos]);
      forall i | 0 <= i < |piece| { b[readPos + i] := piece[i]; }
      assert b[..readPos] == old(readBuffer[..readPos]);
      readBuffer := b;
      readPos := readPos + |piece|;
    }

    /** conn_consume_read: slides what follows the first n bytes to the front. */
    method ConsumeRead(n: nat)
      requires n <= readPos <= readBuffer.Length
      modifies this`readPos, readBuffer
      ensures readPos <= readBuffer.Length && readBuffer[..readPos] == old(readBuffer[n..readPos])
    {
      SlideToFront(readBuffer, n, readPos);
      readPos := readPos - n;
    }

    /** Takes every complete request off the buffer.  The parser works in place on a request's
        own bytes, so the next one is intact when its turn comes. */
    method HandleData(piece: Bytes, maxBody: nat, keepAlive: Bytes -> bool)
      requires Valid() && open
      modifies this, readBuffer
      ensures Valid()
      ensures State() == Pipeline.Feed(old(State()), piece, maxBody, r => Parse(r).Parsed? && keepAlive(r))
      ensures readBuffer == old(readBuffer) || fresh(readBuffer)
    {
      hide Frame, Parse, Pipeline.Drain;
      ghost var keep := (r: Bytes) => Parse(r).Parsed? && keepAlive(r);
      Receive(piece);
      ghost var all := State();
      while open
        invariant Valid() && (readBuffer == old(readBuffer) || fresh(readBuffer))
        invariant open ==> Pipeline.Drain(State(), maxBody, keep) == Pipeline.Drain(all, maxBody, keep)
        invariant !open ==> State() == Pipeline.Drain(all, maxBody, keep)
        decreases open, readPos
      {
        Pipeline.DrainStep(State(), maxBody, keep);
        var v := CheckRequestFrame(readBuffer[..readPos], maxBody);
        if v.Incomplete? {
          return;
        }
        if !v.Complete? {
          readPos, open := 0, false;
        } else {
          ghost var b, n := readBuffer[..readPos], v.length;
          assert readBuffer[..n] == b[..n] && readBuffer[n..readPos] == b[n..];
          var alive := TakeRequest(v.length, keepAlive);
          assert alive == keep(b[..n]) && readBuffer[..readPos] == b[n..];
          if !alive {
            readPos, open := 0, false;
          }
        }
      }
    }

    /** Parses and consumes the first n bytes. */
    method TakeRequest(n: nat, keepAlive: Bytes -> bool) returns (alive: bool)
      requires Valid() && n <= readPos
      modifies this`readPos, this`parsed, this`requests, readBuffer
      ensures Valid() && requests == old(requests) + [old(readBuffer[..n])]
      ensures readBuffer[..readPos] == old(readBuffer[n..readPos])
      ensures alive == (Parse(old(readBuffer[..n])).Parsed? && keepAlive(old(readBuffer[..n])))
    {
      hide Parse;
      var raw := readBuffer[..n];
      var p := ParseHttpRequest(readBuffer, n);
      assert readBuffer[n..readPos] == readBuffer[n..][..readPos - n];
      assert old(readBuffer[n..readPos]) == old(readBuffer[n..])[..readPos - n];
      ConsumeRead(n);
      parsed := parsed + [p];
      requests := requests + [raw];
      return p.Parsed? && keepAlive(raw);
    }
  }
}
