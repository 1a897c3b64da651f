/**
 A request that is no POST but announces a body: it is accepted, and leaves the body reader with a
 budget but without a place in the buffer.
 */
module HttpGetBody {
  import opened Bytes
  import opened CrlfLines
  import opened CStrings
  import opened HttpConnection
  import opened HttpRecvLine
  import opened HttpRequest
  import opened PostBody

  const GET_LINE: seq<byte> := [71, 69, 84, 32, 47, 32, 72]      // "GET / H"
  const LENGTH_LINE: seq<byte> := CONTENT_LENGTH + [53]          // "Content-length: 5"
  const HEADERS: seq<byte> := LENGTH_LINE + CRLF + ([] + CRLF)

  /** The request, and whatever else the peer sends. */
  function GetThen(rest: seq<byte>): seq<byte> {
    GET_LINE + CRLF + (HEADERS + rest)
  }

  lemma FirstLineIs(line: seq<byte>, tail: seq<byte>)
    requires NulFree(line) && CR !in line
    ensures var s := line + CRLF + tail;
            Find(s) == Some(|line|) && s[..|line|] == line && s[|line| + 2..] == tail
  {
    var s := line + CRLF + tail;
    forall j | 0 <= j < |line|
      ensures s[j] != NUL && !BreakAt(s, j)
    {
      assert s[j] == line[j];
    }
    FoundAt(s, |line|, 0);
  }

  /** The header lines of the request come first, and are followed by an empty one. */
  lemma HeaderLines(rest: seq<byte>)
    ensures var s := HEADERS + rest;
            && HeadersAndEnd(s)
            && |Lines(s)| >= 2 && Lines(s)[0] == LENGTH_LINE && Lines(s)[1] == []
  {
    var s, t := HEADERS + rest, [] + CRLF + rest;
    assert s == LENGTH_LINE + CRLF + t;
    FirstLineIs(LENGTH_LINE, t);
    FirstLineIs([], rest);
    assert Lines(t) == [[]] + Lines(rest);
  }

  lemma {:induction false} SameIsEqual(a: seq<byte>, b: seq<byte>, n: nat, i: nat)
    requires forall j :: i <= j < n ==> At(a, j) == At(b, j)
    ensures StrNCaseEqFrom(a, b, n, i)
    decreases n - i
  {
    if i < n {
      SameIsEqual(a, b, n, i + 1);
    }
  }

  lemma AnnouncesFive()
    ensures ContentLength([Delivery(LENGTH_LINE, 17)]) == 5
  {
    var d := Delivery(LENGTH_LINE, 17);
    SameIsEqual(d.bytes, CONTENT_LENGTH, 16, 0);
    assert !IsHost(d) by {
      assert Lower(At(d.bytes, 0)) != Lower(At(HOST, 0));
    }
    assert From(d.bytes, 16) == [53];
    assert Digits([53], 0) == Digits([53][1..], 5) == 5;
    assert Atoi([53]) == 5;
  }

  /** Whatever follows them, the headers that are read announce a body of five bytes. */
  lemma HeadersAnnounceFive(rest: seq<byte>, headers: seq<Delivery>, size: nat, body: seq<byte>)
    requires size >= MIN_HEADER_BUFFER && HeadersOf(HEADERS + rest, headers, size, body)
    ensures ContentLength(headers) == 5
  {
    var s := HEADERS + rest;
    HeaderLines(rest);
    DeliveredIffFits(LENGTH_LINE, size);
    var end: Delivery :| end.bytes == [] && Consumed(s, headers + [end], size, body);
    var all := headers + [end];
    assert all[0] == Delivery(LENGTH_LINE, 17);
    assert |headers| > 0 && headers[0] == all[0];
    assert headers == [Delivery(LENGTH_LINE, 17)];
    AnnouncesFive();
  }

  /** The request line is no POST, and has its spaces where they should be. */
  lemma LineIsGet(rest: seq<byte>)
    ensures var s := GetThen(rest);
            && Find(s) == Some(7) && TwoSpaces(s[..7], 3, 5) && !StrNCaseEq(s, POST, 5)
            && s[9..] == HEADERS + rest
  {
    FirstLineIs(GET_LINE, HEADERS + rest);
    assert Lower(At(GetThen(rest), 0)) != Lower(At(POST, 0));
  }

  lemma GetIsJudged(conn: HttpConnection, r: Option<RequestLine>, headers: seq<Delivery>, body: seq<byte>, rest: seq<byte>,
                    n: nat, failed: bool)
    requires 9 + MIN_HEADER_BUFFER <= conn.bufferSize && NulFree(GetThen(rest)) && |GetThen([])| <= n <= |GetThen(rest)|
    requires Find(GetThen(rest)) == Some(7) && TwoSpaces(GetThen(rest)[..7], 3, 5)
    requires Judged(conn, r, headers, body, GetThen(rest), 3, 5, n, failed)
    ensures r.Some? && !r.value.isPost && HasInput(conn)
  {
    var s, k := GetThen(rest), n - |GetThen([])|;
    LineIsGet(rest);
    assert s[9..n] == HEADERS + rest[..k];
    HeaderLines(rest[..k]);
    HeadersAnnounceFive(rest, headers, conn.bufferSize - 9, body);
  }

  /**
   If the first chunk holds this request, it is accepted, and a handler that asks for a line of the
   body has it read from wherever the body reader's place happens to be.
   */
  method AcceptGet(conn: HttpConnection, ghost rest: seq<byte>) returns (r: Option<RequestLine>)
    requires conn.Valid() && 9 + MIN_HEADER_BUFFER <= conn.bufferSize
    requires conn.socket.incoming == GetThen(rest) && NulFree(GetThen(rest))
    modifies conn, conn.buffer, conn.socket`incoming, conn.socket`failed
    ensures FirstChunkHasLine(conn.chunks) && |GetThen([])| <= |conn.chunks[0]| ==>
              && r.Some? && !r.value.isPost
              && HasInput(conn) && conn.offsetFromMainBuffer == old(conn.offsetFromMainBuffer)
  {
    LineIsGet(rest);
    ghost var failed := conn.socket.failed;
    var host;
    ghost var whole, headers, body;
    r, host, whole, headers, body := ReadRequest(conn, 3, 5);
    if whole && |GetThen([])| <= |conn.chunks[0]| {
      GetIsJudged(conn, r, headers, body, rest, |conn.chunks[0]|, failed);
    }
  }
}
