/**
 The receiving side of one HTTP connection: one buffer, one socket, and the buffered line reader
 that serves first the header lines and then the lines of a POST body.
 */
module HttpConnection {
  import opened Bytes
  import opened CrlfLines
  import opened Sockets

  class HttpConnection {
    const socket: Socket
    const buffer: array<byte>
    const bufferSize: nat
    /** What recv_line has received for the request, chunk by chunk. */
    ghost var chunks: seq<seq<byte>>
    // post
    var postUsed: int
    var postPos: nat
    var remainingInputLen: int
    var offsetFromMainBuffer: nat

    ghost predicate Valid() {
      bufferSize <= buffer.Length
    }

    constructor (socket: Socket, bufferSize: nat)
      ensures Valid() && this.socket == socket && this.bufferSize == bufferSize && fresh(buffer)
    {
      this.socket := socket;
      this.bufferSize := bufferSize;
      buffer := new byte[bufferSize + 1](_ => 0);
      postUsed, postPos, remainingInputLen, offsetFromMainBuffer := 0, 0, 0, 0;
      chunks := [];
    }

    /** The bytes the line reader has still to look at: buffered ones, then those still to come. */
    ghost function Pending(base: nat, offset: nat, used: int): seq<byte>
      requires offset <= used && base + used <= buffer.Length
      reads buffer, socket
    {
      buffer[base + offset..base + used] + socket.incoming
    }

    /** The line delivered at `start`, when the next one begins at `next`. */
    function Text(base: nat, start: nat, next: nat): seq<byte>
      requires start + 2 <= next && base + next <= buffer.Length
      reads buffer
    {
      buffer[base + start..base + next - 2]
    }

    /**
     recv_next_line_buffered, on the `size` bytes of the buffer from `base` on.  The int pointers of
     the C function are in- and out-parameters here; `limit` is None where it passes NULL.
     */
    method RecvNextLine(base: nat, size: nat, used0: int, offset0: nat, limit0: Option<int>)
      returns (start: Option<nat>, len: int, used: int, offset: nat, limit: Option<int>)
      requires Valid() && 2 <= size && base + size <= bufferSize && used0 <= size
      modifies buffer, socket`incoming, socket`failed
      // nothing outside the window is touched
      ensures forall i :: 0 <= i < base || base + size <= i < buffer.Length ==> buffer[i] == old(buffer[i])
      ensures used <= size && used <= used0 + |old(socket.incoming)| - |socket.incoming|
      ensures offset0 <= used0 ==> offset <= used
      // the budget pays for exactly what is received
      ensures |socket.incoming| <= |old(socket.incoming)|
      ensures limit.Some? <==> limit0.Some?
      ensures limit.Some? ==> limit0.value - limit.value == |old(socket.incoming)| - |socket.incoming|
      ensures limit.Some? ==> limit.value == limit0.value || 0 <= limit.value
      // there is a reason for giving up
      ensures start.None? ==> offset0 > used0 || offset0 == used0 == size
                              || socket.failed || (limit.Some? && limit.value <= 0)
      ensures offset0 > used0 || offset0 == used0 == size ==>
                && start.None? && offset == offset0 && used == used0
                && socket.incoming == old(socket.incoming) && socket.failed == old(socket.failed)
      // no whole line that has been received is withheld
      ensures start.None? && offset0 <= used0 ==> Find(Come(old(Pending(base, offset0, used0)), |socket.incoming|)).None?
      // a line that is in the window is delivered without receiving anything
      ensures offset0 <= used0 ==>
                match old(Find(buffer[base + offset0..base + used0]))
                case None => true
                case Some(p) =>
                  && start == Some(offset0) && len == p && offset == offset0 + p + 2 && used == used0 && limit == limit0
                  && socket.incoming == old(socket.incoming)
                  && forall i :: 0 <= i < buffer.Length && i != base + offset0 + p ==> buffer[i] == old(buffer[i])
      ensures start.Some? && len >= 0 ==> start.value + len + 2 == offset
      ensures start.Some? ==> offset0 <= used0 && start.value + 2 <= offset && (old(socket.failed) == socket.failed)
      ensures start.Some? ==> |socket.incoming| + used - offset < |old(socket.incoming)| + used0 - offset0
      // and otherwise the first line of what was pending is delivered, and the rest stays pending
      ensures start.Some? ==>
                var s := old(Pending(base, offset0, used0));
                && (NulFree(s) ==> Find(s).Some?)
                && (Find(s).Some? ==>
                      && Delivery(Text(base, start.value, offset), len) == Delivered(s[..Find(s).value], size)
                      && buffer[base + offset - 2] == NUL
                      && Pending(base, offset, used) == s[Find(s).value + 2..])
    {
      start, len, used, offset, limit := None, 0, used0, offset0, limit0;
      if offset > used {
        return;
      }
      ghost var s := Pending(base, offset, used);
      var p, skipped;
      ghost var dropped;
      p, skipped, used, offset, limit, dropped := Search(base, size, used0, offset0, limit0);
      if p.None? {
        return;
      }
      var at := offset;
      len, offset := EndLine(base, size, at, used, p.value, skipped, s, dropped);
      start := Some(at);
    }

    /** Ends the line found at `offset + p` with a NUL, and returns its length and the offset of the next one. */
    method EndLine(base: nat, size: nat, offset: nat, used: nat, p: nat, skipped: nat, ghost s: seq<byte>, ghost dropped: nat)
      returns (len: int, next: nat)
      requires 2 <= size && offset <= used <= size && base + size <= buffer.Length
      requires Some(p) == Find(buffer[base + offset..base + used])
      requires Reached(s, size, dropped, skipped) && s[dropped..] == Pending(base, offset, used)
      modifies buffer
      ensures next == offset + p + 2 <= used && |socket.incoming| + used - next < |s|
      ensures if skipped == 0 then len == p else len < 0
      ensures forall i :: 0 <= i < buffer.Length && i != base + offset + p ==> buffer[i] == old(buffer[i])
      ensures forall i :: 0 <= i < base || base + size <= i < buffer.Length ==> buffer[i] == old(buffer[i])
      ensures buffer[base + next - 2] == NUL
      ensures NulFree(s) ==> Find(s).Some?
      ensures Find(s).Some? ==>
                && Delivery(Text(base, offset, next), len) == Delivered(s[..Find(s).value], size)
                && Pending(base, next, used) == s[Find(s).value + 2..]
    {
      ghost var window := buffer[base + offset..base + used];
      BreakInWindow(s, window, socket.incoming, size, dropped, skipped);
      var n: int := p;
      len := if skipped != 0 then -(n + skipped) else n;
      next := offset + p + 2;
      buffer[base + offset + p] := NUL;
      assert Text(base, offset, next) == window[..p];
      assert buffer[base + next..base + used] == window[p + 2..];
    }

    /** The reader has changed nothing. */
    ghost predicate Untouched(skipped: nat, used: nat, used0: nat, offset: nat, offset0: nat, limit: Option<int>, limit0: Option<int>,
                              mem: seq<byte>, incoming: seq<byte>)
      reads buffer, socket
    {
      skipped == 0 && used == used0 && offset == offset0 && limit == limit0 && buffer[..] == mem && socket.incoming == incoming
    }

    /** The reader's loop: looks for a line break, making room and receiving until there is one. */
    method Search(base: nat, size: nat, used0: nat, offset0: nat, limit0: Option<int>)
      returns (p: Option<nat>, skipped: nat, used: nat, offset: nat, limit: Option<int>, ghost dropped: nat)
      requires Valid() && 2 <= size && base + size <= bufferSize && offset0 <= used0 <= size
      modifies buffer, socket`incoming, socket`failed
      ensures forall i :: 0 <= i < base || base + size <= i < buffer.Length ==> buffer[i] == old(buffer[i])
      ensures offset <= used <= size && used <= used0 + |old(socket.incoming)| - |socket.incoming|
      ensures |socket.incoming| <= |old(socket.incoming)|
      ensures limit.Some? <==> limit0.Some?
      ensures limit.Some? ==> limit0.value - limit.value == |old(socket.incoming)| - |socket.incoming|
      ensures limit.Some? ==> limit.value == limit0.value || 0 <= limit.value
      ensures p.None? ==> offset0 == used0 == size || socket.failed || (limit.Some? && limit.value <= 0)
      ensures offset0 == used0 == size ==>
                p.None? && socket.incoming == old(socket.incoming) && socket.failed == old(socket.failed) && offset == used == size
      ensures var found := old(Find(buffer[base + offset0..base + used0]));
              found.Some? ==> p == found && Untouched(skipped, used, used0, offset, offset0, limit, limit0, old(buffer[..]), old(socket.incoming))
      ensures p.None? ==> Find(Come(old(Pending(base, offset0, used0)), |socket.incoming|)).None?
      ensures p.Some? ==> socket.failed == old(socket.failed)
      ensures p.Some? ==> p == Find(buffer[base + offset..base + used])
      ensures var s := old(Pending(base, offset0, used0));
              Reached(s, size, dropped, skipped) && s[dropped..] == Pending(base, offset, used)
    {
      p, skipped, used, offset, limit, dropped := None, 0, used0, offset0, limit0, 0;
      ghost var s, sent := Pending(base, offset, used), socket.incoming;
      ReachedAtStart(s, size);
      while true
        invariant offset <= used <= size && (offset == used == size ==> offset0 == used0 == size)
        invariant used <= used0 + |sent| - |socket.incoming|
        invariant forall i :: 0 <= i < base || base + size <= i < buffer.Length ==> buffer[i] == old(buffer[i])
        invariant |socket.incoming| <= |sent|
        invariant limit.Some? <==> limit0.Some?
        invariant limit.Some? ==> limit0.value - limit.value == |sent| - |socket.incoming|
        invariant limit.Some? ==> limit.value == limit0.value || 0 <= limit.value
        invariant socket.failed == old(socket.failed)
        invariant offset0 == used0 == size ==> offset == used == size && socket.incoming == sent
        invariant old(Find(buffer[base + offset0..base + used0])).Some? ==>
                    Untouched(skipped, used, used0, offset, offset0, limit, limit0, old(buffer[..]), sent)
        invariant Reached(s, size, dropped, skipped)
        invariant s[dropped..] == Pending(base, offset, used)
        decreases |socket.incoming|
      {
        p := Find(buffer[base + offset..base + used]);
        if p.Some? {
          return;
        }
        var more;
        more, offset, used, skipped, limit, dropped := ReadOn(base, size, offset, used, skipped, limit, s, dropped);
        if !more {
          return;
        }
      }
    }

    /** One turn of the loop: makes room, keeping account of what is thrown away of the stream `s`, and receives. */
    method ReadOn(base: nat, size: nat, offset0: nat, used0: nat, skipped0: nat, limit0: Option<int>,
                  ghost s: seq<byte>, ghost dropped0: nat)
      returns (more: bool, offset: nat, used: nat, skipped: nat, limit: Option<int>, ghost dropped: nat)
      requires 2 <= size && offset0 <= used0 <= size && base + size <= buffer.Length
      requires Reached(s, size, dropped0, skipped0) && s[dropped0..] == Pending(base, offset0, used0)
      requires Find(buffer[base + offset0..base + used0]).None?
      modifies buffer, socket`incoming, socket`failed
      ensures forall i :: 0 <= i < base || base + size <= i < buffer.Length ==> buffer[i] == old(buffer[i])
      ensures offset <= used <= size && (more ==> offset < used)
      ensures used <= used0 + |old(socket.incoming)| - |socket.incoming|
      ensures offset0 == used0 == size ==> !more && offset == used == size
      ensures Reached(s, size, dropped, skipped) && s[dropped..] == Pending(base, offset, used)
      ensures |socket.incoming| <= |old(socket.incoming)|
      ensures more ==> |socket.incoming| < |old(socket.incoming)| && socket.failed == old(socket.failed)
      ensures !more ==> socket.incoming == old(socket.incoming) && Find(Come(s, |socket.incoming|)).None?
      ensures !more ==> offset0 == used0 == size || socket.failed || (limit.Some? && limit.value <= 0)
      ensures offset0 == used0 == size ==> socket.failed == old(socket.failed)
      ensures limit.Some? <==> limit0.Some?
      ensures limit.Some? ==> limit0.value - limit.value == |old(socket.incoming)| - |socket.incoming|
      ensures limit.Some? ==> limit.value == limit0.value || 0 <= limit.value
    {
      NoLineYet(s, buffer[base + offset0..base + used0], socket.incoming, dropped0);
      offset, used, skipped, dropped := MakeRoomIn(base, size, offset0, used0, skipped0, s, dropped0);
      ghost var pending := Pending(base, offset, used);
      more, used, limit := Refill(base, size, offset, used, limit0);
      assert Pending(base, offset, used) == pending;
    }

    /** Makes room, keeping account of what is thrown away of the stream `s`. */
    method MakeRoomIn(base: nat, size: nat, offset0: nat, used0: nat, skipped0: nat, ghost s: seq<byte>, ghost dropped0: nat)
      returns (offset: nat, used: nat, skipped: nat, ghost dropped: nat)
      requires 2 <= size && offset0 <= used0 <= size && base + size <= buffer.Length
      requires Reached(s, size, dropped0, skipped0) && s[dropped0..] == Pending(base, offset0, used0)
      requires Find(buffer[base + offset0..base + used0]).None?
      modifies buffer
      ensures forall i :: 0 <= i < base || base + size <= i < buffer.Length ==> buffer[i] == old(buffer[i])
      ensures offset <= used <= size && used <= used0 && (used == size ==> offset0 == used0 == size)
      ensures offset0 == used0 == size ==> offset == used == size
      ensures Reached(s, size, dropped, skipped) && s[dropped..] == Pending(base, offset, used)
    {
      ghost var pending := Pending(base, offset0, used0);
      assert pending[..used0 - offset0] == buffer[base + offset0..base + used0];
      offset, used, skipped := MakeRoom(base, size, offset0, used0, skipped0);
      if used0 - offset0 == size {
        dropped := dropped0 + skipped;
        ReachedAfterOverflow(s, pending, size, dropped0, skipped0, dropped, skipped);
      } else {
        dropped := dropped0;
      }
    }

    /** Discards a full buffer, or moves the unread bytes to its front. */
    method MakeRoom(base: nat, size: nat, offset0: nat, used0: nat, skipped0: nat) returns (offset: nat, used: nat, skipped: nat)
      requires 2 <= size && offset0 <= used0 <= size && base + size <= buffer.Length
      modifies buffer
      ensures forall i :: 0 <= i < base || base + size <= i < buffer.Length ==> buffer[i] == old(buffer[i])
      ensures offset <= used <= size && used <= used0 && (offset == 0 || (offset == offset0 && used == used0))
      ensures offset == used == size ==> offset0 == used0 == size
      ensures used == size ==> offset0 == used0 == size
      ensures offset0 == used0 == size ==> offset == offset0
      ensures used0 - offset0 < size ==> skipped == skipped0 && Pending(base, offset, used) == old(Pending(base, offset0, used0))
      ensures used0 - offset0 == size ==>
                && skipped == size - Kept(old(Pending(base, offset0, used0)), 0, size)
                && Pending(base, offset, used) == old(Pending(base, offset0, used0))[skipped..]
    {
      offset, used, skipped := offset0, used0, skipped0;
      ghost var window, mem := buffer[base + offset0..base + used0], buffer[..];
      if offset == 0 && size == used {
        // the line exceeds the entire buffer: keep looking for its end
        assert window[size - 1] == buffer[base + size - 1];
        buffer[base] := buffer[base + size - 1];
        used := if buffer[base] == CR then 1 else 0;
        skipped := size - used;
        assert buffer[base..base + used] == window[skipped..];
      } else if 0 < offset < used {
        forall i | 0 <= i < used - offset {
          buffer[base + i] := buffer[base + offset + i];
        }
        used, offset := used - offset, 0;
        WindowMoved(mem, buffer[..], base, base + offset0, used);
      }
    }

    static lemma WindowMoved(mem: seq<byte>, mem': seq<byte>, i: nat, j: nat, n: nat)
      requires i <= j && j + n <= |mem| == |mem'| && forall k :: i <= k < i + n ==> mem'[k] == mem[k + (j - i)]
      ensures mem'[i..i + n] == mem[j..j + n]
    {
    }

    /** One recv into the free part of the window, within the budget. */
    method Refill(base: nat, size: nat, ghost offset: nat, used0: nat, limit0: Option<int>)
      returns (more: bool, used: nat, limit: Option<int>)
      requires offset <= used0 <= size && base + size <= buffer.Length
      modifies buffer, socket`incoming, socket`failed
      ensures forall i :: 0 <= i < base || base + size <= i < buffer.Length ==> buffer[i] == old(buffer[i])
      ensures offset <= used <= size && Pending(base, offset, used) == old(Pending(base, offset, used0))
      ensures if more then used0 < used && socket.failed == old(socket.failed)
              else used == used0 && socket.incoming == old(socket.incoming) && (socket.failed || used == size || (limit.Some? && limit.value <= 0))
      // without room or budget there is no recv
      ensures used0 == size || (limit0.Some? && limit0.value <= 0) ==> !more && socket.failed == old(socket.failed)
      ensures |socket.incoming| == |old(socket.incoming)| - (used - used0)
      ensures limit.Some? <==> limit0.Some?
      ensures limit.Some? ==> limit.value == limit0.value - (used - used0) && (more ==> 0 <= limit.value)
    {
      used, limit := used0, limit0;
      var avail := size - used;
      if limit.Some? {
        avail := if avail < limit.value then avail else limit.value;
      }
      if avail <= 0 {
        return false, used, limit;
      }
      ghost var mem, incoming := buffer[..], socket.incoming;
      var done := socket.Recv(buffer, base + used, avail);
      more := done > 0;
      if more {
        used := used + done;
        WindowGrows(mem, buffer[..], base + offset, base + used0, base + used, incoming[..done]);
        Regroup(mem[base + offset..base + used0], incoming, done);
        if limit.Some? {
          limit := Some(limit.value - done);
        }
      } else {
        assert buffer[base + offset..base + used] == mem[base + offset..base + used];
      }
    }

    static lemma WindowGrows(mem: seq<byte>, mem': seq<byte>, i: nat, j: nat, k: nat, chunk: seq<byte>)
      requires i <= j <= k <= |mem| == |mem'| && mem'[j..k] == chunk
      requires forall n :: i <= n < j ==> mem'[n] == mem[n]
      ensures mem'[i..k] == mem[i..j] + chunk
    {
      assert mem'[i..k] == mem'[i..j] + mem'[j..k];
      assert mem'[i..j] == mem[i..j];
    }

    static lemma Regroup(window: seq<byte>, incoming: seq<byte>, n: nat)
      requires n <= |incoming|
      ensures window + incoming[..n] + incoming[n..] == window + incoming
    {
      assert incoming == incoming[..n] + incoming[n..];
    }
  }
}
