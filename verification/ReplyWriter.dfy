/**
 The sending side of one HTTP connection: replies put together from formatted fragments in the
 connection's buffer, flushed when the next fragment might not fit.

 A formatted fragment is the bytes that vsnprintf would produce with unlimited room.
 */
module ReplyWriter {
  import opened Bytes
  import opened Sockets

  const SAFETY_MARGIN := 16

  /** send_all: gives up at the first failure, otherwise everything is sent in order. */
  method SendAll(socket: Socket, buf: seq<byte>) returns (ok: bool)
    modifies socket`outgoing, socket`failed
    ensures ok ==> socket.failed == old(socket.failed) && socket.outgoing == old(socket.outgoing) + buf
    ensures !ok ==> socket.failed
    ensures old(socket.outgoing) <= socket.outgoing <= old(socket.outgoing) + buf
  {
    var rest := buf;
    while rest != []
      invariant socket.failed == old(socket.failed)
      invariant |rest| <= |buf| && rest == buf[|buf| - |rest|..]
      invariant socket.outgoing == old(socket.outgoing) + buf[..|buf| - |rest|]
      decreases |rest|
    {
      var done := socket.Send(rest);
      if done <= 0 {
        return false;
      }
      assert buf[..|buf| - |rest|] + rest[..done] == buf[..|buf| - |rest| + done];
      rest := rest[done..];
    }
    ok := true;
  }

  class ReplyWriter {
    const socket: Socket
    const buffer: array<byte>
    const bufferSize: nat
    var bufferedSize: nat
    /** What the peer had been sent before this reply, and the reply so far. */
    ghost var before: seq<byte>
    ghost var reply: seq<byte>

    /** As long as no send has failed, what was sent and what is buffered is the reply so far. */
    ghost predicate Valid()
      reads this, buffer, socket
    {
      && SAFETY_MARGIN <= bufferSize <= buffer.Length
      && bufferedSize < bufferSize
      && (!socket.failed ==> socket.outgoing + buffer[..bufferedSize] == before + reply)
    }

    constructor (socket: Socket, bufferSize: nat)
      requires SAFETY_MARGIN <= bufferSize
      ensures Valid() && fresh(buffer) && this.socket == socket && this.bufferSize == bufferSize
      ensures reply == [] && before == socket.outgoing && bufferedSize == 0
    {
      this.socket := socket;
      this.bufferSize := bufferSize;
      buffer := new byte[bufferSize + 1](_ => 0);
      bufferedSize := 0;
      before := socket.outgoing;
      reply := [];
    }

    /** vsnprintf(buffer + at, n, ...): at most n - 1 characters and a NUL; the full length is returned. */
    method Format(at: nat, n: nat, text: seq<byte>) returns (written: nat)
      requires 0 < n && at + n <= buffer.Length
      modifies buffer
      ensures written == |text|
      ensures var shown := if |text| < n then |text| else n - 1;
              buffer[..at + shown] == old(buffer[..at]) + text[..shown] && buffer[at + shown] == 0
    {
      written := |text|;
      var shown := if |text| < n then |text| else n - 1;
      forall i | 0 <= i < shown {
        buffer[at + i] := text[i];
      }
      buffer[at + shown] := 0;
    }

    /** http_server_begin_write_reply */
    method Begin(header: seq<byte>)
      requires SAFETY_MARGIN <= bufferSize <= buffer.Length && |header| < bufferSize
      modifies this, buffer
      ensures Valid() && reply == header && before == socket.outgoing
    {
      bufferedSize := Format(0, bufferSize, header);
      before, reply := socket.outgoing, header;
    }

    /** http_server_write_reply */
    method Write(text: seq<byte>)
      requires Valid() && |text| < bufferSize
      modifies this`bufferedSize, this`reply, buffer, socket`outgoing, socket`failed
      ensures Valid() && reply == old(reply) + text && before == old(before)
      ensures old(socket.failed) ==> socket.failed
      // it is buffered if it leaves room enough, and otherwise goes to the front of a buffer that was sent
      ensures if old(bufferedSize) + |text| < bufferSize - SAFETY_MARGIN
              then bufferedSize == old(bufferedSize) + |text| && socket.outgoing == old(socket.outgoing) && socket.failed == old(socket.failed)
              else bufferedSize == |text|
    {
      ghost var pending, sent, soFar := buffer[..bufferedSize], socket.outgoing, reply;
      var written := Format(bufferedSize, bufferSize - bufferedSize, text);
      assert buffer[..bufferedSize] == pending;
      reply := reply + text;
      if bufferedSize + written < bufferSize - SAFETY_MARGIN {
        Regroup(sent, pending, text, before, soFar);
        bufferedSize := bufferedSize + written;
      } else {
        var ok := SendAll(socket, buffer[..bufferedSize]);
        bufferedSize := Format(0, bufferSize, text);
        assert buffer[..bufferedSize] == text;
        Regroup(sent + pending, [], text, before, soFar);
      }
    }

    static lemma Regroup(sent: seq<byte>, pending: seq<byte>, text: seq<byte>, before: seq<byte>, soFar: seq<byte>)
      ensures sent + pending == before + soFar ==> sent + (pending + text) == before + (soFar + text)
    {
      assert sent + (pending + text) == (sent + pending) + text;
    }

    /** http_server_end_write_reply; no footer is the same as an empty one. */
    method End(footer: seq<byte>)
      requires Valid()
      modifies this`bufferedSize, this`reply, buffer, socket`outgoing, socket`failed
      ensures Valid() && bufferedSize == 0 && reply == old(reply) + footer && before == old(before)
      ensures !socket.failed ==> socket.outgoing == before + reply
    {
      ghost var sent := socket.outgoing;
      Regroup(sent, buffer[..bufferedSize], footer, before, reply);
      assert sent + (buffer[..bufferedSize] + footer) == sent + buffer[..bufferedSize] + footer;
      reply := reply + footer;
      var len := |footer|;
      if len != 0 && len < bufferSize - bufferedSize {
        ghost var pending := buffer[..bufferedSize];
        forall i | 0 <= i < len {
          buffer[bufferedSize + i] := footer[i];
        }
        bufferedSize := bufferedSize + len;
        assert buffer[..bufferedSize] == pending + footer;
        len := 0;
      }
      var ok := true;
      if bufferedSize != 0 {
        ok := SendAll(socket, buffer[..bufferedSize]);
      }
      if len != 0 {
        ok := SendAll(socket, footer);
      }
      bufferedSize := 0;
      assert socket.outgoing + buffer[..0] == socket.outgoing;
    }
  }

  /**
   A whole reply, in the way handlers write one: begin, any number of fragments, end.  However the
   socket splits the sends, the peer receives the header, the fragments and the footer, in order and
   complete, if no send fails.
   */
  method WriteWholeReply(w: ReplyWriter, header: seq<byte>, fragments: seq<seq<byte>>, footer: seq<byte>)
    requires w.Valid() && |header| < w.bufferSize
    requires forall i :: 0 <= i < |fragments| ==> |fragments[i]| < w.bufferSize
    modifies w, w.buffer, w.socket`outgoing, w.socket`failed
    ensures !w.socket.failed ==> w.socket.outgoing == old(w.socket.outgoing) + header + Concat(fragments) + footer
  {
    w.Begin(header);
    for i := 0 to |fragments|
      invariant w.Valid() && w.before == old(w.socket.outgoing)
      invariant w.reply == header + Concat(fragments[..i])
    {
      w.Write(fragments[i]);
      ConcatOneMore(fragments, i);
    }
    assert fragments[..|fragments|] == fragments;
    w.End(footer);
  }
}
