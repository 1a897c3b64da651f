/** The lines of a POST body, read within the budget that its Content-Length sets. */
module PostBody {
  import opened Bytes
  import opened CrlfLines
  import opened Sockets
  import opened HttpConnection

  /** The body reader has all of `body` before it, and a budget of `contentLength` for it. */
  ghost predicate BodyReady(conn: HttpConnection, body: seq<byte>, base: nat, contentLength: int)
    reads conn, conn.buffer, conn.socket
  {
    && BodyValid(conn)
    && conn.offsetFromMainBuffer == base
    && conn.Pending(base, conn.postPos, conn.postUsed) == body
    && conn.remainingInputLen == contentLength - (conn.postUsed - conn.postPos)
  }

  /** There may be body lines: otherwise http_server_read_post_line returns NULL at once. */
  predicate HasInput(conn: HttpConnection)
    reads conn
  {
    conn.remainingInputLen > 0 || conn.postPos < conn.postUsed
  }

  ghost predicate BodyValid(conn: HttpConnection)
    reads conn
  {
    && conn.Valid()
    && conn.offsetFromMainBuffer + 2 <= conn.bufferSize
    && conn.postPos <= conn.postUsed
    && conn.offsetFromMainBuffer + conn.postUsed <= conn.bufferSize
  }

  ghost function Body(conn: HttpConnection): seq<byte>
    requires BodyValid(conn)
    reads conn, conn.buffer, conn.socket
  {
    conn.Pending(conn.offsetFromMainBuffer, conn.postPos, conn.postUsed)
  }

  /** The buffer is full and ends with the line that was read last. */
  predicate Stuck(conn: HttpConnection)
    reads conn
  {
    conn.postPos == conn.postUsed == conn.bufferSize - conn.offsetFromMainBuffer
  }

  /**
   What reading the body does, from one state to a later one: the budget pays for exactly what is
   received and is not overdrawn, nothing is received if there is none, and nothing in the buffer
   before the body reader's part of it changes, so that the path is there.
   */
  twostate predicate Budgeted(conn: HttpConnection)
    reads conn, conn.buffer, conn.socket
  {
    && BodyValid(conn)
    && (forall i :: 0 <= i < conn.offsetFromMainBuffer ==> conn.buffer[i] == old(conn.buffer[i]))
    && conn.remainingInputLen - |conn.socket.incoming| == old(conn.remainingInputLen - |conn.socket.incoming|)
    && |conn.socket.incoming| <= |old(conn.socket.incoming)|
    && (old(conn.remainingInputLen) >= 0 ==> conn.remainingInputLen >= 0)
    && (old(conn.remainingInputLen) < 0 ==> conn.remainingInputLen == old(conn.remainingInputLen))
  }

  /** The first line of `s` is delivered, which leaves `rest`. */
  ghost predicate FirstLineTaken(s: seq<byte>, line: Delivery, rest: seq<byte>, size: nat)
    requires size >= 2
  {
    && (NulFree(s) ==> Find(s).Some?)
    && (Find(s).Some? ==> rest == s[Find(s).value + 2..] && line == Delivered(s[..Find(s).value], size))
  }

  /** The call of the line reader in http_server_read_post_line. */
  method RecvPostLine(conn: HttpConnection) returns (line: Option<Delivery>)
    requires BodyValid(conn)
    modifies conn`postUsed, conn`postPos, conn`remainingInputLen, conn.buffer, conn.socket`incoming, conn.socket`failed
    ensures Budgeted(conn)
    ensures old(Stuck(conn)) ==> line.None? && Stuck(conn)
    ensures line.Some? ==> |Body(conn)| < |old(Body(conn))| && conn.socket.failed == old(conn.socket.failed)
    ensures line.Some? ==> FirstLineTaken(old(Body(conn)), line.value, Body(conn), conn.bufferSize - conn.offsetFromMainBuffer)
    ensures line.None? ==>
              && Find(Come(old(Body(conn)), |conn.socket.incoming|)).None?
              && (conn.socket.failed || conn.remainingInputLen <= 0 || old(Stuck(conn)))
  {
    var base := conn.offsetFromMainBuffer;
    ghost var s := Body(conn);
    var start, len, used, pos, limit := conn.RecvNextLine(
      base, conn.bufferSize - base, conn.postUsed, conn.postPos, Some(conn.remainingInputLen));
    line := if start.None? then None else Some(Delivery(conn.Text(base, start.value, pos), len));
    ghost var rest := conn.Pending(base, pos, used);
    assert line.Some? ==> FirstLineTaken(s, line.value, rest, conn.bufferSize - base);
    conn.postUsed, conn.postPos, conn.remainingInputLen := used, pos, limit.value;
    assert Body(conn) == rest;
  }

  /** http_server_read_post_line */
  method ReadPostLine(conn: HttpConnection) returns (line: Option<seq<byte>>)
    requires BodyValid(conn)
    modifies conn`postUsed, conn`postPos, conn`remainingInputLen, conn.buffer, conn.socket`incoming, conn.socket`failed
    ensures Budgeted(conn)
    ensures old(Stuck(conn)) ==> line.None? && Stuck(conn)
    ensures line.Some? ==> |Body(conn)| < |old(Body(conn))| && conn.socket.failed == old(conn.socket.failed)
    ensures line.Some? && NulFree(old(Body(conn))) ==>
              var s := old(Body(conn));
              Find(s).Some? && line.value == s[..Find(s).value] && Body(conn) == s[Find(s).value + 2..]
              && |line.value| + 2 <= conn.bufferSize - conn.offsetFromMainBuffer
    ensures line.None? && NulFree(old(Body(conn))) ==>
              var (taken, size) := (Come(old(Body(conn)), |conn.socket.incoming|), conn.bufferSize - conn.offsetFromMainBuffer);
              // no whole line that has been received is withheld but one that does not fit
              && (Find(taken).Some? ==> Find(taken).value + 2 > size)
              && (conn.socket.failed || conn.remainingInputLen <= 0 || old(Stuck(conn)) || Find(taken).Some?)
  {
    ghost var s := Body(conn);
    if !HasInput(conn) {
      assert Come(s, |conn.socket.incoming|) == [];
      return None;
    }
    var d := RecvPostLine(conn);
    if d.None? {
      return None;
    }
    if NulFree(s) {
      DeliveredIffFits(s[..Find(s).value], conn.bufferSize - conn.offsetFromMainBuffer);
      LineHasCome(s, |conn.socket.incoming|);
    }
    if d.value.len < 0 {
      return None;
    }
    line := Some(d.value.bytes);
  }

  lemma LineHasCome(s: seq<byte>, left: nat)
    requires Find(s).Some? && Find(s).value + 2 + left <= |s|
    ensures Find(Come(s, left)) == Find(s)
  {
    BreakOfPrefix(s, |s| - left);
  }

  /** `lines` are the first lines of `s`, all of which fit a buffer of `size` bytes, and leave `rest`. */
  ghost predicate FirstLines(s: seq<byte>, lines: seq<seq<byte>>, size: nat, rest: seq<byte>) {
    if lines == [] then rest == s
    else
      && Find(s).Some? && lines[0] == s[..Find(s).value] && |lines[0]| + 2 <= size
      && FirstLines(s[Find(s).value + 2..], lines[1..], size, rest)
  }

  lemma {:induction false} TakeLine(s: seq<byte>, lines: seq<seq<byte>>, size: nat, rest: seq<byte>)
    requires FirstLines(s, lines, size, rest) && Find(rest).Some? && Find(rest).value + 2 <= size
    ensures FirstLines(s, lines + [rest[..Find(rest).value]], size, rest[Find(rest).value + 2..])
    decreases |lines|
  {
    var more := lines + [rest[..Find(rest).value]];
    if lines == [] {
      assert more[1..] == [];
    } else {
      TakeLine(s[Find(s).value + 2..], lines[1..], size, rest);
      assert more[1..] == lines[1..] + [rest[..Find(rest).value]];
    }
  }

  lemma {:induction false} RestIsNulFree(s: seq<byte>, lines: seq<seq<byte>>, size: nat, rest: seq<byte>)
    requires FirstLines(s, lines, size, rest) && NulFree(s)
    ensures NulFree(rest)
    decreases |lines|
  {
    if lines != [] {
      RestIsNulFree(s[Find(s).value + 2..], lines[1..], size, rest);
    }
  }

  /** The lines read are those of what has come, if there is not one more in it that fits. */
  lemma {:induction false} LinesOfTaken(s: seq<byte>, lines: seq<seq<byte>>, size: nat, rest: seq<byte>, left: nat)
    requires FirstLines(s, lines, size, rest) && left <= |rest|
    requires Find(Come(rest, left)).Some? ==> Find(Come(rest, left)).value + 2 > size
    ensures left <= |s| && |Unlines(lines)| <= |s| - left
    ensures lines == Fitting(Lines(Come(s, left)), size)
    ensures Find(Come(rest, left)).Some? ==> lines != Lines(Come(s, left))
    decreases |lines|
  {
    if lines == [] {
      FirstLineOf(Come(s, left));
    } else {
      var next := s[Find(s).value + 2..];
      LinesOfTaken(next, lines[1..], size, rest, left);
      FirstLineThenRest(s, |s| - left);
      FittingAfterOne(lines, Lines(Come(s, left)), size);
    }
  }

  lemma FittingAfterOne(lines: seq<seq<byte>>, all: seq<seq<byte>>, size: nat)
    requires lines != [] && all != [] && lines[0] == all[0] && |all[0]| + 2 <= size
    requires lines[1..] == Fitting(all[1..], size)
    ensures lines == Fitting(all, size)
  {
    assert lines == [lines[0]] + lines[1..];
  }

  lemma FirstLineThenRest(s: seq<byte>, n: nat)
    requires Find(s).Some? && Find(s).value + 2 <= n <= |s|
    ensures var p := Find(s).value;
            var (lines, others) := (Lines(s[..n]), Lines(s[p + 2..][..n - p - 2]));
            lines != [] && lines[0] == s[..p] && lines[1..] == others
  {
    LineOfPrefix(s, n);
  }

  /** Of the body `s`, `lines` are the lines that have come, before the first that does not fit; and why no more have. */
  ghost predicate AllTaken(conn: HttpConnection, s: seq<byte>, lines: seq<seq<byte>>)
    reads conn, conn.socket
  {
    var (taken, size) := (Come(s, |conn.socket.incoming|), conn.bufferSize - conn.offsetFromMainBuffer);
    && conn.offsetFromMainBuffer <= conn.bufferSize
    && |conn.socket.incoming| <= |s| && |Unlines(lines)| <= |taken|
    && lines == Fitting(Lines(taken), size)
    && (conn.socket.failed || conn.remainingInputLen <= 0 || Stuck(conn) || lines != Lines(taken))
  }

  /**
   The loop with which handlers read a POST body (parse_timer).  Whatever the peer does, the lines
   are exactly the lines of the bytes taken before the first that does not fit the buffer, and reading
   stops only for one of these reasons: there is such a line, the connection failed, the budget is
   spent, or a line ended exactly at the buffer's end (`Stuck`).
   */
  method ReadBody(conn: HttpConnection) returns (lines: seq<seq<byte>>)
    requires BodyValid(conn)
    modifies conn`postUsed, conn`postPos, conn`remainingInputLen, conn.buffer, conn.socket`incoming, conn.socket`failed
    ensures Budgeted(conn)
    ensures NulFree(old(Body(conn))) ==> AllTaken(conn, old(Body(conn)), lines)
  {
    lines := [];
    ghost var s, size := Body(conn), conn.bufferSize - conn.offsetFromMainBuffer;
    while true
      invariant Budgeted(conn)
      invariant NulFree(s) ==> FirstLines(s, lines, size, Body(conn))
      decreases |Body(conn)|
    {
      var line := ReadOneMore(conn, lines, s);
      if line.None? {
        return;
      }
      lines := lines + [line.value];
    }
  }

  /** One turn of the loop: the next line of the body `s` after `lines`, if there is one. */
  method ReadOneMore(conn: HttpConnection, ghost lines: seq<seq<byte>>, ghost s: seq<byte>) returns (line: Option<seq<byte>>)
    requires BodyValid(conn)
    requires NulFree(s) ==> FirstLines(s, lines, conn.bufferSize - conn.offsetFromMainBuffer, Body(conn))
    modifies conn`postUsed, conn`postPos, conn`remainingInputLen, conn.buffer, conn.socket`incoming, conn.socket`failed
    ensures Budgeted(conn)
    ensures line.Some? ==> |Body(conn)| < |old(Body(conn))|
    ensures NulFree(s) ==>
              if line.None? then AllTaken(conn, s, lines)
              else FirstLines(s, lines + [line.value], conn.bufferSize - conn.offsetFromMainBuffer, Body(conn))
  {
    ghost var clean, rest, size := NulFree(s), Body(conn), conn.bufferSize - conn.offsetFromMainBuffer;
    if clean {
      RestIsNulFree(s, lines, size, rest);
    }
    line := ReadPostLine(conn);
    if clean {
      if line.None? {
        LinesOfTaken(s, lines, size, rest, |conn.socket.incoming|);
      } else {
        TakeLine(s, lines, size, rest);
      }
    }
  }
}
