/*
 * One accepted TCP connection (net.Conn) seen from the server: what the
 * peer's request delivers to a single Read, the bytes the peer has received so
 * far, and how many more bytes it takes before it goes away (after which a
 * Write fails part-way, as a client that disconnects during a transfer makes
 * it).
 */
module Net {
  import opened Strings
  import opened Errors
  import opened Wrappers

  /** What one Read call returns: the bytes that arrived and an optional error
      (a Read may return both). */
  datatype Inbound = Inbound(data: Str, err: Option<Error>)

  /** The prefix of `data` that reaches a peer taking at most `room` bytes. */
  function Transmit(data: Str, room: nat): (r: Str)
    ensures |r| <= room && r <= data
    ensures |data| <= room ==> r == data
  {
    data[..Min(|data|, room)]
  }

  class Conn {
    const inbound: Inbound
    var sent: Str
    var room: nat
    var closed: bool

    constructor (inbound: Inbound, room: nat)
      ensures this.inbound == inbound && this.room == room
      ensures sent == [] && !closed
    {
      this.inbound := inbound;
      this.room := room;
      sent := [];
      closed := false;
    }

    /** Read into `buf`: as many of the arrived bytes as fit, and the error that
        came with them; a closed connection reads nothing. */
    method Read(buf: array<byte>) returns (n: nat, err: Option<Error>)
      modifies buf
      ensures n <= buf.Length
      ensures closed ==> n == 0 && err == Some(AlreadyClosed)
      ensures !closed ==> n == Min(|inbound.data|, buf.Length) && err == inbound.err
      ensures buf[..n] == inbound.data[..n]
    {
      if closed {
        n, err := 0, Some(AlreadyClosed);
      } else {
        n := Min(|inbound.data|, buf.Length);
        var i := 0;
        while i < n
          invariant 0 <= i <= n
          invariant buf[..i] == inbound.data[..i]
        {
          buf[i] := inbound.data[i];
          i := i + 1;
        }
        err := inbound.err;
      }
    }

    /** Write: the peer receives what it has room for; a write that does not
        fit fails after sending the part that did. */
    method Write(data: Str) returns (n: nat, err: Option<Error>)
      modifies this`sent, this`room
      ensures closed ==> n == 0 && sent == old(sent) && room == old(room)
      ensures !closed ==> sent == old(sent) + Transmit(data, old(room)) && n == |Transmit(data, old(room))|
      ensures room == old(room) - n
      ensures err.None? <==> !closed && |data| <= old(room)
    {
      if closed {
        n, err := 0, Some(AlreadyClosed);
      } else {
        var part := Transmit(data, room);
        sent, room, n := sent + part, room - |part|, |part|;
        err := if |data| <= |part| then None else Some(BrokenPipe);
      }
    }

    method Close() returns (err: Option<Error>)
      modifies this`closed
      ensures closed
      ensures err.None? <==> !old(closed)
    {
      err := if closed then Some(AlreadyClosed) else None;
      closed := true;
    }
  }
}
