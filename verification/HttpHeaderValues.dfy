/**
 What a request says, in the bytes of its lines: the method, the Content-Length and the host, and
 what is served of the body of a POST that says so.
 */
module HttpHeaderValues {
  import opened Bytes
  import opened CrlfLines
  import opened CStrings
  import opened HttpRequest

  /** A line `name` + `value`, where the name may be in upper or lower case. */
  predicate IsField(line: seq<byte>, name: seq<byte>, value: seq<byte>) {
    |line| == |name| + |value| && CaseEq(line[..|name|], name) && line[|name|..] == value
  }

  /** A request is a POST if and only if it begins with "POST ", up to case. */
  lemma PostIffItBegins(s: seq<byte>)
    ensures StrNCaseEq(s, POST, 5) <==> 5 <= |s| && CaseEq(s[..5], [80, 79, 83, 84, 32])
  {
    StrNCaseEqIsBeginning(s, POST);
  }

  /** "Content-length: ", in upper or lower case. */
  function LengthName(): seq<byte> {
    [67, 111, 110, 116, 101, 110, 116, 45, 108, 101, 110, 103, 116, 104, 58, 32]
  }

  /** "Host: " */
  function HostName(): seq<byte> {
    [72, 111, 115, 116, 58, 32]
  }

  /** A header is taken for a Content-Length if and only if it begins with that name, up to case. */
  lemma LengthIffItBegins(d: Delivery)
    ensures IsContentLength(d) <==> 16 <= |d.bytes| && CaseEq(d.bytes[..16], LengthName())
  {
    StrNCaseEqIsBeginning(d.bytes, CONTENT_LENGTH);
    StrNCaseEqIsBeginning(d.bytes, HOST);
  }

  /** A header is taken for a Host if and only if it begins with that name, up to case, and its value has up to 30 bytes. */
  lemma HostIffItBegins(d: Delivery)
    requires d.len >= 0 ==> d.len == |d.bytes|
    ensures IsHost(d) <==> 6 <= d.len <= 36 && CaseEq(d.bytes[..6], HostName())
  {
    StrNCaseEqIsBeginning(d.bytes, HOST);
  }

  /** The last Content-Length header of a request, with a number in decimal digits, gives its Content-Length. */
  lemma {:induction false} ContentLengthIs(headers: seq<Delivery>, i: nat, n: nat)
    requires i < |headers| && IsField(headers[i].bytes, LengthName(), Decimal(n))
    requires forall j :: i < j < |headers| ==> !IsContentLength(headers[j])
    ensures ContentLength(headers) == n
    decreases |headers|
  {
    var last := |headers| - 1;
    if i < last {
      ContentLengthIs(headers[..last], i, n);
    } else {
      LengthIffItBegins(headers[i]);
      AtoiOfDecimal(n, []);
      assert Decimal(n) + [] == Decimal(n);
    }
  }

  /** The same of the last Host header that fits its buffer. */
  lemma {:induction false} HostIs(headers: seq<Delivery>, i: nat, value: seq<byte>)
    requires i < |headers| && IsField(headers[i].bytes, HostName(), value) && |value| <= 30
    requires headers[i].len == |headers[i].bytes|
    requires forall j :: i < j < |headers| ==> !IsHost(headers[j])
    ensures HostOf(headers) == value
    decreases |headers|
  {
    var last := |headers| - 1;
    if i < last {
      HostIs(headers[..last], i, value);
    } else {
      HostIffItBegins(headers[i]);
    }
  }

  /**
   A POST with the header line "Content-length: " and the number n, the last of its kind, as line
   `i` after the request line.  If no more than n bytes of the body came with the headers, the
   connection has not failed, the reader is not stuck and the lines of the first n bytes of the body
   fit, then the lines read are exactly those.
   */
  lemma BodyOfLength(mem: seq<byte>, bufferSize: nat, r: RequestLine, headers: seq<Delivery>, lines: seq<seq<byte>>,
                     buffered: nat, left: nat, remaining: int, s: seq<byte>, p1: nat, p2: nat, i: nat, n: nat)
    requires Find(s).Some? && TwoSpaces(s[..Find(s).value], p1, p2)
    requires PostServed(mem, bufferSize, r, headers, lines, buffered, left, remaining, false, false, s, p1, p2)
    requires var (all, size) := (Lines(s[r.headers..]), bufferSize - r.headers);
             && i < |headers| && i < |all| && |all[i]| + 2 <= size && IsField(all[i], LengthName(), Decimal(n))
    requires forall j :: i < j < |headers| ==> !IsContentLength(headers[j])
    requires buffered <= n
    ensures var body := After(s[r.headers..], |headers| + 1);
            Fitting(Lines(First(body, n)), bufferSize - r.headers) == Lines(First(body, n)) ==>
              n <= |body| && lines == Lines(body[..n])
  {
    DeliveredIffFits(Lines(s[r.headers..])[i], bufferSize - r.headers);
    ContentLengthIs(headers, i, n);
  }
}
