/**
 The peer's side of a TCP connection.  `recv` hands out the bytes still to come in pieces of any
 size, and `send` accepts any non-empty part of what it is given; either may fail at any call.
 */
module Sockets {
  import opened Bytes

  class Socket {
    /** The bytes the peer will still send. */
    var incoming: seq<byte>
    /** The bytes the peer has been sent. */
    var outgoing: seq<byte>
    /** Some recv or send has failed. */
    var failed: bool

    constructor (incoming: seq<byte>)
      ensures this.incoming == incoming && outgoing == [] && !failed
    {
      this.incoming := incoming;
      outgoing := [];
      failed := false;
    }

    /** recv(socket, buffer + at, n, 0) */
    method Recv(buffer: array<byte>, at: nat, n: nat) returns (done: int)
      requires at + n <= buffer.Length
      modifies this`incoming, this`failed, buffer
      ensures forall i :: 0 <= i < at || at + (if done > 0 then done else 0) <= i < buffer.Length ==> buffer[i] == old(buffer[i])
      ensures done <= 0 ==> failed && incoming == old(incoming)
      ensures done > 0 ==>
                && done <= n && done <= |old(incoming)|
                && failed == old(failed)
                && incoming == old(incoming)[done..]
                && buffer[at..at + done] == old(incoming)[..done]
    {
      if * {
        failed := true;
        return -1;
      }
      if n == 0 || incoming == [] {
        failed := true;
        return 0;
      }
      var k: nat :| 1 <= k <= n && k <= |incoming|;
      forall i | 0 <= i < k {
        buffer[at + i] := incoming[i];
      }
      incoming := incoming[k..];
      done := k;
    }

    /** send(socket, data, |data|, 0) */
    method Send(data: seq<byte>) returns (done: int)
      requires data != []
      modifies this`outgoing, this`failed
      ensures done <= 0 ==> failed && outgoing == old(outgoing)
      ensures done > 0 ==> done <= |data| && failed == old(failed) && outgoing == old(outgoing) + data[..done]
    {
      if * {
        failed := true;
        return -1;
      }
      var k: nat :| 1 <= k <= |data|;
      outgoing := outgoing + data[..k];
      done := k;
    }
  }
}
