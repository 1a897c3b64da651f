/**
 One HTTP request as the server takes it off the connection: the request line, the header lines
 and, for a POST, the lines of the body within its Content-Length.
 */
module HttpRequest {
  import opened Bytes
  import opened CrlfLines
  import opened CStrings
  import opened Sockets
  import opened HttpConnection
  import opened HttpRecvLine
  import opened PostBody

  const SPACE: byte := 32
  const POST: seq<byte> := [80, 79, 83, 84, 32]                                                             // "POST "
  const HOST: seq<byte> := [72, 111, 115, 116, 58, 32]                                                      // "Host: "
  const CONTENT_LENGTH: seq<byte> := [67, 111, 110, 116, 101, 110, 116, 45, 108, 101, 110, 103, 116, 104, 58, 32]  // "Content-length: "
  const HOST_SIZE := 32
  const MIN_HEADER_BUFFER := 32

  // --------------------------------------------------------------------------------- request line

  /** Offsets of the path, of the NUL that ends it, and of the first header. */
  datatype RequestLine = RequestLine(isPost: bool, path: nat, pathEnd: nat, headers: nat)

  function ParseRequestLine(mem: seq<byte>): (r: Option<RequestLine>)
    ensures r.Some? ==> r.value.path <= r.value.pathEnd < r.value.headers <= |mem|
  {
    match StrChr(mem, 0, SPACE)
    case None => None
    case Some(p1) =>
      match StrChr(mem, p1 + 1, SPACE)
      case None => None
      case Some(p2) =>
        match FindFrom(mem, p2)
        case None => None
        case Some(p3) => Some(RequestLine(StrNCaseEq(mem, POST, 5), p1 + 1, p2, p3 + 2))
  }

  /** The line has the form "method path protocol": its first two spaces are at `p1` and `p2`. */
  predicate TwoSpaces(line: seq<byte>, p1: nat, p2: nat) {
    && p1 < p2 < |line| && line[p1] == line[p2] == SPACE
    && forall j :: 0 <= j < p2 && j != p1 ==> line[j] != SPACE
  }

  /** If the memory begins with such a line, it is what gets parsed, whatever comes after it. */
  lemma ParsesFirstLine(mem: seq<byte>, p1: nat, p2: nat)
    requires Find(mem).Some? && TwoSpaces(mem[..Find(mem).value], p1, p2)
    ensures ParseRequestLine(mem) == Some(RequestLine(StrNCaseEq(mem, POST, 5), p1 + 1, p2, Find(mem).value + 2))
  {
    var p := Find(mem).value;
    FoundIsFirst(mem, 0);
    assert forall j :: 0 <= j < p ==> mem[..p][j] == mem[j];
    StrChrFinds(mem, 0, SPACE, p1);
    StrChrFinds(mem, p1 + 1, SPACE, p2);
    FoundAt(mem, p, p2);
  }

  // -------------------------------------------------------------------------------------- headers

  /** What follows the first `n` bytes. */
  function From(s: seq<byte>, n: nat): seq<byte> {
    if n <= |s| then s[n..] else []
  }

  predicate IsHost(d: Delivery) {
    d.len > 0 && StrNCaseEq(d.bytes, HOST, 6) && 0 <= d.len - 6 < HOST_SIZE - 1
  }

  predicate IsContentLength(d: Delivery) {
    !IsHost(d) && StrNCaseEq(d.bytes, CONTENT_LENGTH, 16)
  }

  /** The Content-Length that a list of header lines leaves behind: the last one counts. */
  function ContentLength(headers: seq<Delivery>): int {
    if headers == [] then 0
    else
      var d := headers[|headers| - 1];
      if IsContentLength(d) then Atoi(From(d.bytes, 16))
      else ContentLength(headers[..|headers| - 1])
  }

  /** The value of the last Host header that fits its buffer, empty if there is none. */
  function HostOf(headers: seq<Delivery>): seq<byte> {
    if headers == [] then []
    else
      var d := headers[|headers| - 1];
      if IsHost(d) then From(d.bytes, 6) else HostOf(headers[..|headers| - 1])
  }

  predicate NoneEmpty(headers: seq<Delivery>) {
    forall i :: 0 <= i < |headers| ==> headers[i].bytes != []
  }

  /**
   `headers` is what a buffer of `size` bytes delivers of the lines of `s` before the first one of
   which it delivers nothing, and `body` is what follows that one.
   */
  ghost predicate HeadersOf(s: seq<byte>, headers: seq<Delivery>, size: nat, body: seq<byte>)
    requires size >= 2
  {
    && NoneEmpty(headers)
    && exists end: Delivery :: end.bytes == [] && Consumed(s, headers + [end], size, body)
  }

  /** The lines delivered end with the last byte that was received, which is the last that fits in the buffer. */
  ghost predicate FilledBy(s: seq<byte>, headers: seq<Delivery>, size: nat, rest: seq<byte>)
    requires size >= 2
  {
    NoneEmpty(headers) && Consumed(s, headers, size, rest) && size <= |s| - |rest|
  }

  /** Whole lines, none of them empty, and nothing else. */
  predicate OnlyHeaders(w: seq<byte>) {
    w == [] || (Find(w).Some? && Find(w).value > 0 && OnlyHeaders(w[Find(w).value + 2..]))
  }

  /** Whole lines that are not empty, and then an empty one. */
  predicate HeadersAndEnd(w: seq<byte>) {
    Find(w).Some? && (Find(w).value == 0 || HeadersAndEnd(w[Find(w).value + 2..]))
  }

  /** In terms of lines: they are all there is, and none of them is empty. */
  lemma {:induction false} OnlyHeadersIff(w: seq<byte>)
    ensures OnlyHeaders(w) <==> Unlines(Lines(w)) == w && forall i :: 0 <= i < |Lines(w)| ==> Lines(w)[i] != []
    decreases |w|
  {
    if Find(w).Some? {
      var line, rest := w[..Find(w).value], w[Find(w).value + 2..];
      FoundIsFirst(w, 0);
      OnlyHeadersIff(rest);
      assert w == line + [13, 10] + rest;
      assert Lines(w) == [line] + Lines(rest);
      assert Unlines(Lines(w)) == line + [13, 10] + Unlines(Lines(rest));
      SameTail(line + [13, 10], Unlines(Lines(rest)), rest);
      assert forall i :: 0 <= i < |Lines(rest)| ==> Lines(w)[i + 1] == Lines(rest)[i];
    }
  }

  lemma SameTail(front: seq<byte>, a: seq<byte>, b: seq<byte>)
    ensures front + a == front + b <==> a == b
  {
    assert (front + a)[|front|..] == a && (front + b)[|front|..] == b;
  }

  /** In terms of lines: some line is empty. */
  lemma {:induction false} HeadersAndEndIff(w: seq<byte>)
    ensures HeadersAndEnd(w) <==> exists i :: 0 <= i < |Lines(w)| && Lines(w)[i] == []
    decreases |w|
  {
    if Find(w).Some? {
      var line, rest := w[..Find(w).value], w[Find(w).value + 2..];
      HeadersAndEndIff(rest);
      assert Lines(w) == [line] + Lines(rest);
      assert Lines(w)[0] == line;
      assert forall i :: 0 <= i < |Lines(rest)| ==> Lines(w)[i + 1] == Lines(rest)[i];
    }
  }

  /** Nothing has been received since. */
  ghost predicate NoRecv(conn: HttpConnection, incoming: seq<byte>, failed: bool)
    reads conn.socket
  {
    conn.socket.incoming == incoming && conn.socket.failed == failed
  }

  /** The loop over the header lines, in the window of `size` bytes at `base` that holds `used0` of them. */
  method ReadHeaders(conn: HttpConnection, base: nat, size: nat, used0: int, ghost s: seq<byte>)
    returns (ok: bool, used: int, pos: nat, contentLength: int, host: seq<byte>, ghost headers: seq<Delivery>, ghost rest: seq<byte>)
    requires conn.Valid() && 2 <= size && base + size <= conn.bufferSize && used0 <= size
    requires 0 <= used0 ==> s == conn.Pending(base, 0, used0)
    modifies conn.buffer, conn.socket`incoming, conn.socket`failed
    ensures forall i :: 0 <= i < base || base + size <= i < conn.buffer.Length ==> conn.buffer[i] == old(conn.buffer[i])
    ensures ok ==> 0 <= used0 && pos <= used <= size
    // it gives up if the connection fails, or if the buffer is full and ends with a line
    ensures !ok && 0 <= used0 && NulFree(s) ==> conn.socket.failed || FilledBy(s, headers, size, conn.socket.incoming)
    ensures used0 == size && OnlyHeaders(old(conn.buffer[base..base + size])) ==>
              !ok && NoRecv(conn, old(conn.socket.incoming), old(conn.socket.failed))
    ensures 0 <= used0 && HeadersAndEnd(old(conn.buffer[base..base + used0])) ==>
              ok && NoRecv(conn, old(conn.socket.incoming), old(conn.socket.failed))
    ensures ok ==> rest == conn.Pending(base, pos, used) && contentLength == ContentLength(headers)
    ensures host == HostOf(headers) && |host| < HOST_SIZE
    ensures ok && NulFree(s) ==> HeadersOf(s, headers, size, rest)
  {
    ok, used, pos, contentLength, host, headers, rest := false, used0, 0, 0, [], [], s;
    if used0 < 0 {
      return;
    }
    ghost var incoming, failed := conn.socket.incoming, conn.socket.failed;
    ghost var only := used0 == size && OnlyHeaders(conn.buffer[base..base + size]);
    ghost var ends := HeadersAndEnd(conn.buffer[base..base + used0]);
    while true
      invariant 0 <= pos <= used <= size
      invariant forall i :: 0 <= i < base || base + size <= i < conn.buffer.Length ==> conn.buffer[i] == old(conn.buffer[i])
      invariant used <= |s| - |conn.socket.incoming|
      invariant Decided(conn, base, size, used, pos, only, ends, incoming, failed)
      invariant rest == conn.Pending(base, pos, used) && (NulFree(s) ==> Consumed(s, headers, size, rest))
      invariant NoneEmpty(headers) && contentLength == ContentLength(headers)
      invariant host == HostOf(headers) && |host| < HOST_SIZE
      decreases |conn.socket.incoming| + used - pos
    {
      var line;
      line, used, pos := ReadHeader(conn, base, size, used, pos, s, headers, only, ends, incoming, failed);
      if line.None? {
        return;
      }
      rest := conn.Pending(base, pos, used);
      if line.value.bytes == [] {
        ok := true;
        return;
      }
      contentLength, host := Interpret(line.value, contentLength, host, headers);
      headers := headers + [line.value];
    }
  }

  /** What the window says for certain: only headers and no room for more, or headers and their end. */
  ghost predicate Decided(conn: HttpConnection, base: nat, size: nat, used: nat, pos: nat, only: bool, ends: bool,
                          incoming: seq<byte>, failed: bool)
    requires pos <= used && base + used <= conn.buffer.Length
    reads conn.buffer, conn.socket
  {
    var window := conn.buffer[base + pos..base + used];
    && (only || ends ==> NoRecv(conn, incoming, failed))
    && (only ==> used == size && OnlyHeaders(window))
    && (ends ==> HeadersAndEnd(window))
  }

  /** One call of the line reader. */
  method ReadHeader(conn: HttpConnection, base: nat, size: nat, used0: nat, pos0: nat, ghost s: seq<byte>, ghost headers: seq<Delivery>,
                    ghost only: bool, ghost ends: bool, ghost incoming: seq<byte>, ghost failed: bool)
    returns (line: Option<Delivery>, used: nat, pos: nat)
    requires conn.Valid() && 2 <= size && base + size <= conn.bufferSize && pos0 <= used0 <= size
    requires NulFree(s) ==> Consumed(s, headers, size, conn.Pending(base, pos0, used0))
    requires Decided(conn, base, size, used0, pos0, only, ends, incoming, failed)
    modifies conn.buffer, conn.socket`incoming, conn.socket`failed
    ensures forall i :: 0 <= i < base || base + size <= i < conn.buffer.Length ==> conn.buffer[i] == old(conn.buffer[i])
    ensures pos <= used <= size && used <= used0 + |old(conn.socket.incoming)| - |conn.socket.incoming|
    ensures line.None? ==> !ends && (only ==> NoRecv(conn, incoming, failed))
    ensures line.None? ==>
              conn.socket.failed || (used == size && conn.socket.incoming == old(conn.Pending(base, pos0, used0)))
    ensures line.Some? ==> |conn.socket.incoming| + used - pos < |old(conn.socket.incoming)| + used0 - pos0
    ensures line.Some? && line.value.len >= 0 ==> |line.value.bytes| == line.value.len
    ensures line.Some? && NulFree(s) ==> Consumed(s, headers + [line.value], size, conn.Pending(base, pos, used))
    ensures line.Some? && line.value.bytes != [] ==> Decided(conn, base, size, used, pos, only, ends, incoming, failed)
    ensures line.Some? && line.value.bytes == [] ==> !only && (ends ==> NoRecv(conn, incoming, failed))
  {
    ghost var mem := conn.buffer[..];
    ghost var window, pending := conn.buffer[base + pos0..base + used0], conn.Pending(base, pos0, used0);
    if NulFree(s) {
      ConsumeOne(s, headers, size, pending);
    }
    assert pos0 == used0 ==> window == [] && pending == conn.socket.incoming;
    var start, len, limit;
    start, len, used, pos, limit := conn.RecvNextLine(base, size, used0, pos0, None);
    line := if start.None? then None else Some(Delivery(conn.Text(base, start.value, pos), len));
    if Find(window).Some? {
      RestOfWindow(mem, conn.buffer[..], base + pos0, base + used, Find(window).value + 2);
      assert conn.buffer[base + pos..base + used] == window[Find(window).value + 2..];
    }
    if line.Some? && NulFree(s) {
      assert Consumed(s, headers + [line.value], size, conn.Pending(base, pos, used));
    }
  }

  lemma RestOfWindow(mem: seq<byte>, mem': seq<byte>, i: nat, k: nat, n: nat)
    requires i + n <= k <= |mem| == |mem'| && forall j :: i + n <= j < k ==> mem'[j] == mem[j]
    ensures mem'[i + n..k] == mem[i..k][n..]
  {
  }

  /** What a header line that is not empty leaves in the Content-Length and the host. */
  method Interpret(line: Delivery, contentLength0: int, host0: seq<byte>, ghost headers: seq<Delivery>)
    returns (contentLength: int, host: seq<byte>)
    requires contentLength0 == ContentLength(headers) && host0 == HostOf(headers) && |host0| < HOST_SIZE
    requires line.len >= 0 ==> |line.bytes| == line.len
    ensures contentLength == ContentLength(headers + [line]) && host == HostOf(headers + [line]) && |host| < HOST_SIZE
  {
    contentLength, host := contentLength0, host0;
    assert (headers + [line])[..|headers|] == headers;
    if IsHost(line) {
      host := line.bytes[6..line.len];
    } else if IsContentLength(line) {
      contentLength := Atoi(From(line.bytes, 16));
    }
  }

  // ------------------------------------------------------------------------------ the whole request

  /** The request line of the stream `s`, with spaces at p1 and p2, is understood, and its path is in memory. */
  ghost predicate LineOf(mem: seq<byte>, r: RequestLine, s: seq<byte>, p1: nat, p2: nat)
    requires Find(s).Some? && TwoSpaces(s[..Find(s).value], p1, p2)
  {
    && r == RequestLine(StrNCaseEq(s, POST, 5), p1 + 1, p2, Find(s).value + 2)
    && r.headers <= |mem|
    && mem[p1 + 1..p2] == s[p1 + 1..p2]
    && mem[p2] == NUL
  }

  /** What is stored after the request line does not change it. */
  lemma LineStays(mem: seq<byte>, mem': seq<byte>, r: RequestLine, s: seq<byte>, p1: nat, p2: nat)
    requires Find(s).Some? && TwoSpaces(s[..Find(s).value], p1, p2) && LineOf(mem, r, s, p1, p2)
    requires |mem| == |mem'| && forall i :: 0 <= i < r.headers ==> mem'[i] == mem[i]
    ensures LineOf(mem', r, s, p1, p2)
  {
    assert mem'[p1 + 1..p2] == mem[p1 + 1..p2];
  }

  /** What is known of a request whose line came whole, if the peer sent `s`, with spaces at p1 and p2 in its first line. */
  ghost predicate RequestOf(conn: HttpConnection, r: RequestLine, headers: seq<Delivery>, body: seq<byte>,
                            s: seq<byte>, p1: nat, p2: nat)
    requires Find(s).Some? && TwoSpaces(s[..Find(s).value], p1, p2)
    reads conn, conn.buffer, conn.socket
  {
    && LineOf(conn.buffer[..], r, s, p1, p2)
    // the headers are the lines after the request line, and the body is what follows them
    && r.headers + 2 <= conn.bufferSize
    && HeadersOf(s[r.headers..], headers, conn.bufferSize - r.headers, body)
    && HandedOver(conn, r, headers, body, 0, 0, conn.offsetFromMainBuffer)
  }

  lemma NulFreeSuffix(s: seq<byte>, n: nat)
    ensures NulFree(s) && n <= |s| ==> NulFree(s[n..])
  {
    if n <= |s| {
      assert forall i :: 0 <= i < |s[n..]| ==> s[n..][i] == s[n + i];
    }
  }

  /** Why such a request is turned down: failure, no room for headers, or a full buffer that ends with a line. */
  ghost predicate Rejected(conn: HttpConnection, headers: seq<Delivery>, s: seq<byte>)
    requires Find(s).Some?
    reads conn.socket
  {
    var n := Find(s).value + 2;
    || conn.socket.failed
    || conn.bufferSize < n + 32
    || FilledBy(s[n..], headers, conn.bufferSize - n, conn.socket.incoming)
  }

  /** The loop over the headers, and the hand-over to the body reader of what it leaves in the buffer. */
  method ReadHeadersOf(conn: HttpConnection, line: RequestLine, len: nat, ghost s: seq<byte>)
    returns (ok: bool, host: seq<byte>, ghost headers: seq<Delivery>, ghost body: seq<byte>)
    requires conn.Valid() && line.headers + MIN_HEADER_BUFFER <= conn.bufferSize && len <= conn.bufferSize
    requires line.headers <= len ==> s == conn.Pending(line.headers, 0, len - line.headers)
    modifies conn`postUsed, conn`postPos, conn`remainingInputLen, conn`offsetFromMainBuffer, conn.buffer, conn.socket`incoming, conn.socket`failed
    ensures forall i :: 0 <= i < line.headers ==> conn.buffer[i] == old(conn.buffer[i])
    ensures ok ==> line.headers <= len
    ensures !ok && line.headers <= len && NulFree(s) ==>
              conn.socket.failed || FilledBy(s, headers, conn.bufferSize - line.headers, conn.socket.incoming)
    ensures len == conn.bufferSize && OnlyHeaders(old(conn.buffer[line.headers..conn.bufferSize])) ==>
              !ok && NoRecv(conn, old(conn.socket.incoming), old(conn.socket.failed))
    ensures line.headers <= len && HeadersAndEnd(old(conn.buffer[line.headers..len])) ==>
              ok && NoRecv(conn, old(conn.socket.incoming), old(conn.socket.failed))
    ensures host == HostOf(headers) && |host| < HOST_SIZE
    ensures ok && NulFree(s) ==> HeadersOf(s, headers, conn.bufferSize - line.headers, body)
    ensures ok ==> HandedOver(conn, line, headers, body, old(conn.postPos), old(conn.postUsed), old(conn.offsetFromMainBuffer))
  {
    var base := line.headers;
    assert len - base + base == len;
    var used, pos, contentLength;
    ok, used, pos, contentLength, host, headers, body := ReadHeaders(conn, base, conn.bufferSize - base, len - base, s);
    if ok {
      HandOver(conn, line, used, pos, contentLength, headers, body);
    }
  }

  /**
   What the body reader is left with: for a POST with a Content-Length the body, and otherwise only
   the Content-Length, while its place in the buffer is what it was before.
   */
  ghost predicate HandedOver(conn: HttpConnection, line: RequestLine, headers: seq<Delivery>, body: seq<byte>,
                             postPos: nat, postUsed: int, offset: nat)
    reads conn, conn.buffer, conn.socket
  {
    if line.isPost && ContentLength(headers) != 0 then BodyReady(conn, body, line.headers, ContentLength(headers))
    else
      && conn.remainingInputLen == ContentLength(headers)
      && conn.postPos == postPos && conn.postUsed == postUsed && conn.offsetFromMainBuffer == offset
  }

  /**
   When a handler that asks for a line of the body has it read from a place that was never set: for
   exactly those requests that are no POST and have a positive Content-Length.
   */
  lemma InputWithoutBody(conn: HttpConnection, line: RequestLine, headers: seq<Delivery>, body: seq<byte>, offset: nat)
    requires HandedOver(conn, line, headers, body, 0, 0, offset)
    ensures HasInput(conn) && !(line.isPost && ContentLength(headers) != 0) <==> !line.isPost && ContentLength(headers) > 0
  {
  }

  /** What the headers leave in the buffer goes to the body reader, and is paid for from its budget. */
  method HandOver(conn: HttpConnection, line: RequestLine, used: int, pos: nat, contentLength: int,
                  ghost headers: seq<Delivery>, ghost body: seq<byte>)
    requires conn.Valid() && line.headers + 2 <= conn.bufferSize && pos <= used && line.headers + used <= conn.bufferSize
    requires body == conn.Pending(line.headers, pos, used) && contentLength == ContentLength(headers)
    modifies conn`postUsed, conn`postPos, conn`remainingInputLen, conn`offsetFromMainBuffer
    ensures HandedOver(conn, line, headers, body, old(conn.postPos), old(conn.postUsed), old(conn.offsetFromMainBuffer))
  {
    conn.remainingInputLen := contentLength;
    if line.isPost && conn.remainingInputLen != 0 {
      conn.postPos := pos;
      conn.postUsed := used;
      conn.remainingInputLen := conn.remainingInputLen - (used - pos);
      conn.offsetFromMainBuffer := line.headers;
    }
  }

  /** The request line is parsed from the buffer as it would be from the stream. */
  lemma RequestLineInMemory(s: seq<byte>, mem: seq<byte>, len: nat, p1: nat, p2: nat)
    requires len <= |mem| && len <= |s| && mem[..len] == s[..len] && Find(mem[..len]).Some?
    requires Find(s).Some? && TwoSpaces(s[..Find(s).value], p1, p2)
    ensures ParseRequestLine(mem) == Some(RequestLine(StrNCaseEq(s, POST, 5), p1 + 1, p2, Find(s).value + 2))
    ensures p2 < Find(s).value && Find(s).value + 2 <= len && mem[p1 + 1..p2] == s[p1 + 1..p2]
  {
    var p := Find(s).value;
    assert mem == mem[..len] + mem[len..] && s == s[..len] + s[len..];
    FindInPrefix(mem[..len], mem[len..]);
    FindInPrefix(s[..len], s[len..]);
    assert Find(mem) == Find(s) == Find(mem[..len]);
    SliceOfPrefix(mem, len, 0, p);
    SliceOfPrefix(s, len, 0, p);
    assert mem[..p] == s[..p];
    ParsesFirstLine(mem, p1, p2);
    SliceOfPrefix(mem, p, p1 + 1, p2);
    SliceOfPrefix(s, p, p1 + 1, p2);
    FoundIsFirst(s, 0);
    assert forall j :: 0 <= j < p + 2 ==> mem[..len][j] == s[..len][j];
    SameMethod(s, mem, p + 2);
  }

  /** The method is recognised within the request line. */
  lemma SameMethod(s: seq<byte>, mem: seq<byte>, n: nat)
    requires n <= |s| && n <= |mem| && 2 <= n && s[..n] == mem[..n] && BreakAt(s, n - 2)
    ensures StrNCaseEq(s, POST, 5) == StrNCaseEq(mem, POST, 5)
  {
    assert BreakAt(mem, n - 2);
    SameMethodFrom(s, mem, n, 0);
  }

  lemma {:induction false} SameMethodFrom(s: seq<byte>, mem: seq<byte>, n: nat, i: nat)
    requires i + 2 <= n <= |s| && n <= |mem| && s[..n] == mem[..n] && BreakAt(s, n - 2)
    ensures StrNCaseEqFrom(s, POST, 5, i) == StrNCaseEqFrom(mem, POST, 5, i)
    decreases n - i
  {
    assert s[i] == s[..n][i] == mem[i];
    if i + 2 < n {
      SameMethodFrom(s, mem, n, i + 1);
    } else {
      assert i < 5 ==> Lower(CR) != Lower(At(POST, i));
    }
  }

  /** recv_line, and what it means if the first chunk holds the line. */
  method RecvFirstLine(conn: HttpConnection) returns (len: nat, ghost whole: bool)
    requires conn.Valid()
    modifies conn`chunks, conn.buffer, conn.socket`incoming, conn.socket`failed
    ensures len <= conn.bufferSize
    ensures len > 0 ==> conn.chunks != []
    ensures whole <==> FirstChunkHasLine(conn.chunks)
    ensures whole ==>
              var s := old(conn.socket.incoming);
              && 0 < len <= |s| && conn.buffer[..len] == s[..len] && conn.socket.incoming == s[len..]
              && Find(s[..len]).Some? && Find(s).Some?
              && len == |conn.chunks[0]| && conn.socket.failed == old(conn.socket.failed)
  {
    ghost var s, buffer := conn.socket.incoming, conn.buffer[..];
    len := RecvLine(conn);
    ghost var chunks := conn.chunks;
    whole := FirstChunkHasLine(chunks);
    if whole {
      OneChunkIsEnough(buffer, chunks, if len == 0 then |chunks| + 1 else |chunks|);
      assert s == chunks[0] + conn.socket.incoming;
      FindInPrefix(chunks[0], conn.socket.incoming);
      assert conn.buffer[..len] == AtStart(buffer, chunks)[..len];
      assert s[..len] == chunks[0];
    }
  }

  /**
   The first line is received and parsed, and its path ended with a NUL.  `p1` and `p2` are where the
   first line that the peer sends has its spaces, if it has two; `rest` is what follows the line.
   */
  method ReadRequestLine(conn: HttpConnection, ghost p1: nat, ghost p2: nat)
    returns (line: Option<RequestLine>, len: nat, ghost whole: bool, ghost rest: seq<byte>)
    requires conn.Valid()
    modifies conn`chunks, conn`postUsed, conn`postPos, conn`remainingInputLen, conn.buffer, conn.socket`incoming, conn.socket`failed
    ensures len <= conn.bufferSize && conn.postPos == conn.postUsed == 0 && conn.remainingInputLen == 0
    ensures conn.offsetFromMainBuffer == old(conn.offsetFromMainBuffer)
    ensures whole <==> FirstChunkHasLine(conn.chunks)
    ensures line.Some? ==> conn.chunks != []
    ensures line.Some? && line.value.headers <= len ==> rest == conn.Pending(line.value.headers, 0, len - line.value.headers)
    ensures whole ==>
              var s := old(conn.socket.incoming);
              && Find(s).Some?
              && (TwoSpaces(s[..Find(s).value], p1, p2) ==>
                    && line.Some? && LineOf(conn.buffer[..], line.value, s, p1, p2)
                    && line.value.headers <= len <= |s| && rest == s[line.value.headers..]
                    && conn.buffer[line.value.headers..len] == s[line.value.headers..len])
              && len == |conn.chunks[0]| <= |s|
              && NoRecv(conn, s[len..], old(conn.socket.failed))
  {
    line, rest := None, [];
    ghost var s := conn.socket.incoming;
    len, whole := RecvFirstLine(conn);
    conn.remainingInputLen, conn.postUsed, conn.postPos := 0, 0, 0;
    if len == 0 {
      return;
    }
    ghost var mem := conn.buffer[..];
    line := ParseInBuffer(conn);
    if whole {
      assert mem[..len] == s[..len];
      if TwoSpaces(s[..Find(s).value], p1, p2) {
        RequestLineInMemory(s, mem, len, p1, p2);
        LineInMemory(s, mem, conn.buffer[..], len, line.value, p1, p2);
      }
    }
    if line.None? {
      return;
    }
    rest := if line.value.headers <= len then conn.buffer[..][line.value.headers..len] + conn.socket.incoming else [];
  }

  /** The request line is parsed, and its path ended with a NUL. */
  method ParseInBuffer(conn: HttpConnection) returns (line: Option<RequestLine>)
    modifies conn.buffer
    ensures line == ParseRequestLine(old(conn.buffer[..]))
    ensures conn.buffer[..] == if line.Some? then old(conn.buffer[..])[line.value.pathEnd := NUL] else old(conn.buffer[..])
  {
    line := ParseRequestLine(conn.buffer[..]);
    if line.Some? {
      conn.buffer[line.value.pathEnd] := NUL;
    }
  }

  lemma LineInMemory(s: seq<byte>, mem: seq<byte>, mem': seq<byte>, len: nat, line: RequestLine, p1: nat, p2: nat)
    requires len <= |mem| && len <= |s| && mem[..len] == s[..len] && Find(mem[..len]).Some?
    requires Find(s).Some? && TwoSpaces(s[..Find(s).value], p1, p2)
    requires ParseRequestLine(mem) == Some(line) && mem' == mem[line.pathEnd := NUL]
    ensures LineOf(mem', line, s, p1, p2) && line.headers <= len
    ensures mem'[line.headers..len] == s[line.headers..len] && mem'[line.headers..len] + s[len..] == s[line.headers..]
  {
    RequestLineInMemory(s, mem, len, p1, p2);
    assert mem'[p1 + 1..p2] == mem[p1 + 1..p2];
    assert mem'[line.headers..len] == mem[..len][line.headers..] == s[..len][line.headers..];
  }

  /**
   What is certain if the first chunk, of `n` bytes, holds the request line.  If it also holds all
   of the headers, and there is room, the request is accepted.  If it fills the buffer with headers
   but for the empty line, it is refused, though the connection has not failed and more is to come.
   */
  ghost predicate DecidedByFirstChunk(conn: HttpConnection, accepted: bool, s: seq<byte>, n: nat, failed: bool)
    requires Find(s).Some? && n <= |s|
    reads conn, conn.socket
  {
    var base := Find(s).value + 2;
    && (base <= n == conn.bufferSize && OnlyHeaders(s[base..n]) ==> !accepted && NoRecv(conn, s[n..], failed))
    && (base <= n && base + 32 <= conn.bufferSize && HeadersAndEnd(s[base..n]) ==>
          accepted && NoRecv(conn, s[n..], failed))
  }

  /** How a request is judged whose line, with spaces at p1 and p2, came whole in the first chunk, of `n` bytes. */
  ghost predicate Judged(conn: HttpConnection, r: Option<RequestLine>, headers: seq<Delivery>, body: seq<byte>,
                         s: seq<byte>, p1: nat, p2: nat, n: nat, failed: bool)
    requires Find(s).Some? && TwoSpaces(s[..Find(s).value], p1, p2) && n <= |s|
    reads conn, conn.buffer, conn.socket
  {
    && DecidedByFirstChunk(conn, r.Some?, s, n, failed)
    && (NulFree(s) ==> if r.Some? then RequestOf(conn, r.value, headers, body, s, p1, p2) else Rejected(conn, headers, s))
  }

  /**
   parse_and_handle_http_request up to the choice of a handler: the request line, the headers, and
   for a POST with a Content-Length the hand-over to the body reader.
   */
  method ReadRequest(conn: HttpConnection, ghost p1: nat, ghost p2: nat)
    returns (r: Option<RequestLine>, host: seq<byte>, ghost whole: bool, ghost headers: seq<Delivery>, ghost body: seq<byte>)
    requires conn.Valid()
    modifies conn, conn.buffer, conn.socket`incoming, conn.socket`failed
    ensures r.Some? ==> HandedOver(conn, r.value, headers, body, 0, 0, old(conn.offsetFromMainBuffer))
    ensures host == HostOf(headers) && |host| < HOST_SIZE
    ensures r.Some? ==> conn.chunks != []
    ensures whole <==> FirstChunkHasLine(conn.chunks)
    ensures whole ==>
              var (s, n) := (old(conn.socket.incoming), |conn.chunks[0]|);
              && Find(s).Some? && n <= |s|
              && (TwoSpaces(s[..Find(s).value], p1, p2) ==>
                    Judged(conn, r, headers, body, s, p1, p2, n, old(conn.socket.failed)))
  {
    r, host, headers, body := None, [], [], [];
    ghost var s := conn.socket.incoming;
    var line, len;
    ghost var rest;
    line, len, whole, rest := ReadRequestLine(conn, p1, p2);
    if line.None? || conn.bufferSize < line.value.headers + MIN_HEADER_BUFFER {
      return;
    }
    ghost var known := whole && TwoSpaces(s[..Find(s).value], p1, p2);
    r, host, headers, body := FinishRequest(conn, line.value, len, rest, known, s, p1, p2);
  }

  /** The request from the headers on; `known` if the first chunk, of `len` bytes, holds the line with the two spaces. */
  method FinishRequest(conn: HttpConnection, line: RequestLine, len: nat, ghost rest: seq<byte>, ghost known: bool,
                       ghost s: seq<byte>, ghost p1: nat, ghost p2: nat)
    returns (r: Option<RequestLine>, host: seq<byte>, ghost headers: seq<Delivery>, ghost body: seq<byte>)
    requires conn.Valid() && line.headers + MIN_HEADER_BUFFER <= conn.bufferSize && len <= conn.bufferSize
    requires conn.postPos == conn.postUsed == 0
    requires line.headers <= len ==> rest == conn.Pending(line.headers, 0, len - line.headers)
    requires known ==>
               && Find(s).Some? && TwoSpaces(s[..Find(s).value], p1, p2) && LineOf(conn.buffer[..], line, s, p1, p2)
               && line.headers <= len <= |s| && rest == s[line.headers..] && conn.socket.incoming == s[len..]
               && conn.buffer[line.headers..len] == s[line.headers..len]
    modifies conn`postUsed, conn`postPos, conn`remainingInputLen, conn`offsetFromMainBuffer, conn.buffer, conn.socket`incoming, conn.socket`failed
    ensures r.Some? ==> HandedOver(conn, r.value, headers, body, 0, 0, old(conn.offsetFromMainBuffer))
    ensures host == HostOf(headers) && |host| < HOST_SIZE
    ensures known ==> Judged(conn, r, headers, body, s, p1, p2, len, old(conn.socket.failed))
  {
    ghost var mem := conn.buffer[..];
    var ok;
    ok, host, headers, body := ReadHeadersOf(conn, line, len, rest);
    r := if ok then Some(line) else None;
    if known {
      NulFreeSuffix(s, line.headers);
      LineStays(mem, conn.buffer[..], line, s, p1, p2);
    }
  }

  /**
   How a POST with `contentLength` was served: of the stream `s` after the request line, `headers`
   and then an empty delivery were taken line by line, `lines` are the lines right after those, and
   the budget that is left is the Content-Length less the bytes taken of the body.
   */
  ghost predicate ServedFrom(s: seq<byte>, size: nat, headers: seq<Delivery>, lines: seq<seq<byte>>, contentLength: int,
                             left: nat, remaining: int)
    requires size >= 2
  {
    && |headers| < |Lines(s)|
    && (forall i :: 0 <= i < |headers| ==> headers[i] == Delivered(Lines(s)[i], size))
    && Delivered(Lines(s)[|headers|], size).bytes == []
    && lines <= Lines(s)[|headers| + 1..]
    && remaining == contentLength - (|After(s, |headers| + 1)| - left)
  }

  /**
   The budget of a body of which `buffered` bytes came with the headers, and `taken` in all.  If the
   Content-Length covers those, no byte beyond it is ever taken; otherwise no other is.
   */
  ghost predicate WithinBudget(contentLength: int, buffered: nat, taken: int) {
    if buffered <= contentLength then buffered <= taken <= contentLength else taken == buffered
  }

  /**
   The lines that are read of a body, when `left` bytes of the stream are still to come: exactly the
   lines of what was taken, before the first that does not fit a buffer of `size` bytes.
   */
  ghost predicate LinesOfBody(lines: seq<seq<byte>>, body: seq<byte>, left: nat, size: nat) {
    && left <= |body| && |Unlines(lines)| <= |body| - left
    && lines == Fitting(Lines(Come(body, left)), size)
  }

  /** What a stream of which at most `n` bytes are looked at amounts to. */
  function First(s: seq<byte>, n: int): seq<byte> {
    if 0 <= n <= |s| then s[..n] else s
  }

  /**
   The whole body is read: if the Content-Length covers what came with the headers, the connection has
   not failed, the reader is not stuck and the lines within the Content-Length fit, then all the bytes
   that it covers have come, and the lines are theirs.
   */
  ghost predicate WholeBody(lines: seq<seq<byte>>, body: seq<byte>, contentLength: int, buffered: nat, size: nat,
                            failed: bool, stuck: bool) {
    var covered := Lines(First(body, contentLength));
    buffered <= contentLength && !failed && !stuck && Fitting(covered, size) == covered ==>
      contentLength <= |body| && lines == Lines(body[..contentLength])
  }

  lemma WholeBodyIsRead(lines: seq<seq<byte>>, body: seq<byte>, left: nat, contentLength: int, buffered: nat, size: nat,
                        failed: bool, stuck: bool)
    requires LinesOfBody(lines, body, left, size) && WithinBudget(contentLength, buffered, |body| - left)
    requires failed || contentLength <= |body| - left || stuck || lines != Lines(Come(body, left))
    ensures WholeBody(lines, body, contentLength, buffered, size, failed, stuck)
  {
    var taken, covered := Come(body, left), First(body, contentLength);
    if buffered <= contentLength && !failed && !stuck && Fitting(Lines(covered), size) == Lines(covered) {
      MoreLines(body, |taken|, |covered|);
      assert body[..|covered|] == covered;
      FittingOfFirst(Lines(taken), Lines(covered), size);
    }
  }

  /** If all lines fit, so do the first of them. */
  lemma FittingOfFirst(lines: seq<seq<byte>>, more: seq<seq<byte>>, size: nat)
    requires lines <= more && Fitting(more, size) == more
    ensures Fitting(lines, size) == lines
  {
    FittingIsLongest(lines, size);
    var n := |Fitting(lines, size)|;
    if n < |lines| {
      assert lines[n] == more[n];
      FittingIsLongest(more, size);
      assert false;
    }
  }

  lemma HeadersThenBody(s: seq<byte>, size: nat, headers: seq<Delivery>, body: seq<byte>, lines: seq<seq<byte>>,
                        contentLength: int, left: nat, remaining: int)
    requires size >= 2 && HeadersOf(s, headers, size, body) && LinesOfBody(lines, body, left, size)
    requires remaining == contentLength - (|body| - left)
    ensures ServedFrom(s, size, headers, lines, contentLength, left, remaining) && body == After(s, |headers| + 1)
  {
    var end: Delivery :| end.bytes == [] && Consumed(s, headers + [end], size, body);
    LinesOfRest(s, |headers| + 1);
    AreFirstLines(lines, body, left, size);
    assert forall i :: 0 <= i < |headers| ==> (headers + [end])[i] == headers[i];
    assert (headers + [end])[|headers|] == end;
  }

  lemma AreFirstLines(lines: seq<seq<byte>>, body: seq<byte>, left: nat, size: nat)
    requires LinesOfBody(lines, body, left, size)
    ensures lines <= Lines(body)
  {
    FittingIsLongest(Lines(Come(body, left)), size);
    MoreLines(body, |body| - left, |body|);
    assert body[..|body|] == body;
  }

  lemma BodyIsNulFree(s: seq<byte>, n: nat, size: nat, headers: seq<Delivery>, body: seq<byte>)
    requires size >= 2 && n <= |s| && NulFree(s) && HeadersOf(s[n..], headers, size, body)
    ensures NulFree(body)
  {
    var rest := s[n..];
    NulFreeSuffix(s, n);
    var end: Delivery :| end.bytes == [] && Consumed(rest, headers + [end], size, body);
    AfterIsSuffix(rest, |headers| + 1);
  }

  /**
   A handler that reads the body of a POST to the end of its lines; `buffered` is how much of the
   body came with the headers.
   */
  method ServeBody(conn: HttpConnection, ghost line: RequestLine, ghost headers: seq<Delivery>, ghost body: seq<byte>)
    returns (lines: seq<seq<byte>>, ghost buffered: nat)
    requires line.isPost && HandedOver(conn, line, headers, body, 0, 0, conn.offsetFromMainBuffer)
    modifies conn`postUsed, conn`postPos, conn`remainingInputLen, conn.buffer, conn.socket`incoming, conn.socket`failed
    ensures ContentLength(headers) != 0 ==>
              var (taken, size) := (|body| - |conn.socket.incoming|, conn.bufferSize - line.headers);
              && (forall i :: 0 <= i < line.headers && i < conn.buffer.Length ==> conn.buffer[i] == old(conn.buffer[i]))
              && buffered == |body| - |old(conn.socket.incoming)| <= size
              && conn.remainingInputLen == ContentLength(headers) - taken
              && WithinBudget(ContentLength(headers), buffered, taken)
              && (NulFree(body) ==>
                    && LinesOfBody(lines, body, |conn.socket.incoming|, size)
                    && WholeBody(lines, body, ContentLength(headers), buffered, size, conn.socket.failed, Stuck(conn)))
  {
    lines, buffered := [], if ContentLength(headers) != 0 then conn.postUsed - conn.postPos else 0;
    if HasInput(conn) {
      lines := ReadBody(conn);
    } else if ContentLength(headers) != 0 {
      assert Come(body, |conn.socket.incoming|) == [];
    }
    if ContentLength(headers) != 0 && NulFree(body) {
      WholeBodyIsRead(lines, body, |conn.socket.incoming|, ContentLength(headers), buffered, conn.bufferSize - line.headers,
                      conn.socket.failed, Stuck(conn));
    }
  }

  /**
   All of a POST that was served: the path is in memory, and the lines of the body are the lines that
   follow the headers in the stream, within the Content-Length.
   */
  ghost predicate PostServed(mem: seq<byte>, bufferSize: nat, r: RequestLine, headers: seq<Delivery>, lines: seq<seq<byte>>,
                             buffered: nat, left: nat, remaining: int, failed: bool, stuck: bool, s: seq<byte>, p1: nat, p2: nat)
    requires Find(s).Some? && TwoSpaces(s[..Find(s).value], p1, p2)
  {
    var contentLength := ContentLength(headers);
    && LineOf(mem, r, s, p1, p2)
    && r.headers + 2 <= bufferSize && r.headers + buffered <= bufferSize
    && ServedFrom(s[r.headers..], bufferSize - r.headers, headers, lines, contentLength, left, remaining)
    && WithinBudget(contentLength, buffered, contentLength - remaining)
    && var (body, size) := (After(s[r.headers..], |headers| + 1), bufferSize - r.headers);
       && LinesOfBody(lines, body, left, size)
       && WholeBody(lines, body, contentLength, buffered, size, failed, stuck)
  }

  /**
   A POST from its request line to its body, of which `buffered` bytes came with the headers.  If the
   request line came whole, it is served as above, and the path is still there after all of it.
   */
  method ServePost(conn: HttpConnection, ghost p1: nat, ghost p2: nat)
    returns (r: Option<RequestLine>, lines: seq<seq<byte>>, ghost whole: bool, ghost headers: seq<Delivery>, ghost buffered: nat)
    requires conn.Valid()
    modifies conn, conn.buffer, conn.socket`incoming, conn.socket`failed
    ensures whole <==> FirstChunkHasLine(conn.chunks)
    ensures whole ==> Find(old(conn.socket.incoming)).Some?
    ensures r.Some? && r.value.isPost && whole && NulFree(old(conn.socket.incoming)) && ContentLength(headers) != 0 ==>
              var s := old(conn.socket.incoming);
              TwoSpaces(s[..Find(s).value], p1, p2) ==>
                PostServed(conn.buffer[..], conn.bufferSize, r.value, headers, lines, buffered, |conn.socket.incoming|,
                           conn.remainingInputLen, conn.socket.failed, Stuck(conn), s, p1, p2)
  {
    lines, buffered := [], 0;
    ghost var s, body := conn.socket.incoming, [];
    var host;
    r, host, whole, headers, body := ReadRequest(conn, p1, p2);
    if r.None? || !r.value.isPost {
      return;
    }
    ghost var known := whole && NulFree(s) && TwoSpaces(s[..Find(s).value], p1, p2);
    lines, buffered := ServeKnown(conn, r.value, headers, body, known, s, p1, p2);
  }

  /** The same from the end of the headers on; `known` if the request line came whole, with the two spaces. */
  method ServeKnown(conn: HttpConnection, r: RequestLine, ghost headers: seq<Delivery>, ghost body: seq<byte>,
                    ghost known: bool, ghost s: seq<byte>, ghost p1: nat, ghost p2: nat)
    returns (lines: seq<seq<byte>>, ghost buffered: nat)
    requires r.isPost && HandedOver(conn, r, headers, body, 0, 0, conn.offsetFromMainBuffer)
    requires known ==>
               && NulFree(s) && Find(s).Some? && TwoSpaces(s[..Find(s).value], p1, p2)
               && RequestOf(conn, r, headers, body, s, p1, p2)
    modifies conn`postUsed, conn`postPos, conn`remainingInputLen, conn.buffer, conn.socket`incoming, conn.socket`failed
    ensures known && ContentLength(headers) != 0 ==>
              PostServed(conn.buffer[..], conn.bufferSize, r, headers, lines, buffered, |conn.socket.incoming|,
                         conn.remainingInputLen, conn.socket.failed, Stuck(conn), s, p1, p2)
  {
    ghost var mem := conn.buffer[..];
    lines, buffered := ServeBody(conn, r, headers, body);
    if known && ContentLength(headers) != 0 {
      BodyIsNulFree(s, r.headers, conn.bufferSize - r.headers, headers, body);
      HeadersThenBody(s[r.headers..], conn.bufferSize - r.headers, headers, body, lines,
                      ContentLength(headers), |conn.socket.incoming|, conn.remainingInputLen);
      LineStays(mem, conn.buffer[..], r, s, p1, p2);
    }
  }
}
