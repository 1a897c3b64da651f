/**
 Lines that end in CR LF, and what the buffered line reader makes of one of them: the line itself
 if it fits the buffer with its CR LF, otherwise the line's tail with a negative length.

 Nothing here depends on how the bytes arrive; HttpConnection proves that they may arrive anyhow.
 */
module CrlfLines {
  import opened Bytes
  import opened Words

  const LF: byte := 10
  const CR: byte := 13
  const CRLF: seq<byte> := [CR, LF]

  predicate BreakAt(s: seq<byte>, i: nat) {
    i + 1 < |s| && s[i] == CR && s[i + 1] == LF
  }

  /** strnstr(s + i, "\r\n", |s| - i): it gives up at a NUL. */
  function FindFrom(s: seq<byte>, i: nat): (r: Option<nat>)
    requires i <= |s|
    ensures r.Some? ==> i <= r.value && r.value + 1 < |s|
    decreases |s| - i
  {
    if i + 1 >= |s| || s[i] == NUL then None
    else if s[i + 1] == LF && s[i] == CR then Some(i)
    else FindFrom(s, i + 1)
  }

  function Find(s: seq<byte>): (r: Option<nat>)
    ensures r.Some? ==> r.value + 1 < |s|
  {
    FindFrom(s, 0)
  }

  /** A result of the search is the first break, and no NUL comes before it. */
  lemma {:induction false} FoundIsFirst(s: seq<byte>, i: nat)
    requires i <= |s|
    ensures var r := FindFrom(s, i);
            && (r.Some? ==> BreakAt(s, r.value) && forall j :: i <= j < r.value ==> s[j] != NUL && !BreakAt(s, j))
            && (r.None? && NulFree(s) ==> forall j :: i <= j ==> !BreakAt(s, j))
    decreases |s| - i
  {
    if i + 1 < |s| && s[i] != NUL && !BreakAt(s, i) {
      FoundIsFirst(s, i + 1);
    }
  }

  /** Find is the only position with its properties. */
  lemma {:induction false} FoundAt(s: seq<byte>, p: nat, i: nat)
    requires i <= p && BreakAt(s, p) && forall j :: i <= j < p ==> s[j] != NUL && !BreakAt(s, j)
    ensures FindFrom(s, i) == Some(p)
    decreases p - i
  {
    assert i < p ==> !BreakAt(s, i);
    if i < p {
      FoundAt(s, p, i + 1);
    }
  }

  /** More bytes at the end change nothing once there is a break. */
  lemma FindInPrefix(s: seq<byte>, t: seq<byte>)
    ensures Find(s).Some? ==> Find(s + t) == Find(s)
    ensures Find(s).None? && Find(s + t).Some? ==> |s| <= Find(s + t).value + 1
  {
    FoundIsFirst(s, 0);
    FoundIsFirst(s + t, 0);
    if Find(s).Some? {
      var p := Find(s).value;
      forall j | 0 <= j < p
        ensures (s + t)[j] != NUL && !BreakAt(s + t, j)
      {
        assert s[j] != NUL && !BreakAt(s, j);
      }
      FoundAt(s + t, p, 0);
    } else if Find(s + t).Some? && Find(s + t).value + 1 < |s| {
      var p := Find(s + t).value;
      assert BreakAt(s, p);
      forall j | 0 <= j < p
        ensures s[j] != NUL && !BreakAt(s, j)
      {
        assert (s + t)[j] != NUL && !BreakAt(s + t, j);
      }
      FoundAt(s, p, 0);
    }
  }

  /** Fewer bytes at the front only shift the break. */
  lemma FindInSuffix(s: seq<byte>, k: nat)
    requires Find(s).Some? && k <= Find(s).value
    ensures Find(s[k..]) == Some(Find(s).value - k)
  {
    var p := Find(s).value - k;
    FoundIsFirst(s, 0);
    forall j | 0 <= j < p
      ensures s[k..][j] != NUL && !BreakAt(s[k..], j)
    {
      assert s[k + j] != NUL && !BreakAt(s, k + j);
    }
    FoundAt(s[k..], p, 0);
  }

  // ------------------------------------------------------------------------- splitting a stream

  /** The CRLF-terminated lines of a stream, without their CR LF. */
  function Lines(s: seq<byte>): seq<seq<byte>> {
    match Find(s)
    case None => []
    case Some(p) => [s[..p]] + Lines(s[p + 2..])
  }

  /** What is left of a stream after its first `k` lines. */
  function After(s: seq<byte>, k: nat): seq<byte>
    requires k <= |Lines(s)|
  {
    if k == 0 then s else After(s[Find(s).value + 2..], k - 1)
  }

  function Unlines(lines: seq<seq<byte>>): seq<byte> {
    if lines == [] then [] else lines[0] + [13, 10] + Unlines(lines[1..])
  }

  lemma NoBreakInside(s: seq<byte>)
    requires Find(s).Some?
    ensures Find(s[..Find(s).value] + [CR]).None?
  {
    var line := s[..Find(s).value] + [CR];
    FoundIsFirst(s, 0);
    FoundIsFirst(line, 0);
    forall q: nat
      ensures !BreakAt(line, q)
    {
      if q + 2 < |line| {
        assert line[q] == s[q] && line[q + 1] == s[q + 1];
      }
    }
  }

  lemma OneLineAndRest(s: seq<byte>, k: nat)
    requires 0 < k <= |Lines(s)|
    ensures var rest := s[Find(s).value + 2..];
            && s == Lines(s)[0] + CRLF + rest
            && After(s, k) == After(rest, k - 1)
            && Lines(s)[..k] == [Lines(s)[0]] + Lines(rest)[..k - 1]
  {
    FoundIsFirst(s, 0);
  }

  /** The first lines of a stream, joined again, are what comes before the rest of it. */
  lemma {:induction false} FirstLinesJoined(s: seq<byte>, k: nat)
    requires k <= |Lines(s)|
    ensures s == Unlines(Lines(s)[..k]) + After(s, k)
  {
    if k > 0 {
      var line, rest := Lines(s)[0], s[Find(s).value + 2..];
      OneLineAndRest(s, k);
      FirstLinesJoined(rest, k - 1);
      UnlinesOneMore(line, Lines(rest)[..k - 1], After(s, k));
    }
  }

  lemma UnlinesOneMore(line: seq<byte>, lines: seq<seq<byte>>, tail: seq<byte>)
    ensures Unlines([line] + lines) + tail == line + CRLF + (Unlines(lines) + tail)
  {
    assert ([line] + lines)[1..] == lines;
  }

  /** Lines loses nothing, adds nothing and leaves no line unsplit. */
  lemma SplittingIsExact(s: seq<byte>)
    ensures s == Unlines(Lines(s)) + After(s, |Lines(s)|)
    ensures Find(After(s, |Lines(s)|)).None?
    ensures forall i :: 0 <= i < |Lines(s)| ==> Find(Lines(s)[i] + [CR]).None?
  {
    FirstLinesJoined(s, |Lines(s)|);
    assert Lines(s)[..|Lines(s)|] == Lines(s);
    AfterOneMore(s, |Lines(s)|);
    forall i | 0 <= i < |Lines(s)|
      ensures Find(Lines(s)[i] + [CR]).None?
    {
      AfterOneMore(s, i);
      NoBreakInside(After(s, i));
    }
  }

  /** Conversely, lines that contain no CR LF and no NUL are found again in what they were joined to. */
  lemma {:induction false} SplittingInvertsJoining(lines: seq<seq<byte>>, tail: seq<byte>)
    requires forall i :: 0 <= i < |lines| ==> NulFree(lines[i]) && Find(lines[i] + [CR]).None?
    requires Find(tail).None?
    ensures Lines(Unlines(lines) + tail) == lines
  {
    var s := Unlines(lines) + tail;
    if lines == [] {
      assert s == tail;
    } else {
      var p, rest := |lines[0]|, Unlines(lines[1..]) + tail;
      assert s == lines[0] + CRLF + rest;
      assert NulFree(lines[0] + [CR]);
      FoundIsFirst(lines[0] + [CR], 0);
      forall j | 0 <= j < p
        ensures s[j] != NUL && !BreakAt(s, j)
      {
        assert s[j] == lines[0][j];
        assert !BreakAt(lines[0] + [CR], j);
      }
      FoundAt(s, p, 0);
      assert s[..p] == lines[0] && s[p + 2..] == rest;
      SplittingInvertsJoining(lines[1..], tail);
    }
  }

  lemma {:induction false} AfterOneMore(s: seq<byte>, k: nat)
    requires k <= |Lines(s)|
    ensures Find(After(s, k)).Some? <==> k < |Lines(s)|
    ensures k < |Lines(s)| ==> var t := After(s, k);
            t[..Find(t).value] == Lines(s)[k] && t[Find(t).value + 2..] == After(s, k + 1)
  {
    if k > 0 {
      AfterOneMore(s[Find(s).value + 2..], k - 1);
    }
  }

  lemma {:induction false} AfterIsSuffix(s: seq<byte>, k: nat)
    requires k <= |Lines(s)| && NulFree(s)
    ensures NulFree(After(s, k))
  {
    if k > 0 {
      AfterIsSuffix(s[Find(s).value + 2..], k - 1);
    }
  }

  // ---------------------------------------------------------------------------- over-long lines

  /** What a caller of the reader gets: the bytes up to the terminating NUL, and the length. */
  datatype Delivery = Delivery(bytes: seq<byte>, len: int)

  /** How many of `size` bytes from offset `d` on are kept when they are thrown away: a final CR. */
  function Kept(s: seq<byte>, d: nat, size: nat): (n: nat)
    requires 0 < size && d + size <= |s|
    ensures n <= 1
  {
    if s[d + size - 1] == CR then 1 else 0
  }

  /**
   What becomes of the line in s[d..p], with its CR LF at `p`, in a buffer of `size` bytes, when
   `skipped` bytes were thrown away last.
   */
  function Deliver(s: seq<byte>, d: nat, p: nat, size: nat, skipped: nat): Delivery
    requires size >= 2 && d <= p && BreakAt(s, p)
    decreases p - d
  {
    if p + 2 - d <= size then
      Delivery(s[d..p], if skipped == 0 then p - d else -(p - d) - skipped)
    else
      var drop := size - Kept(s, d, size);
      Deliver(s, d + drop, p, size, drop)
  }

  function Delivered(line: seq<byte>, size: nat): Delivery
    requires size >= 2
  {
    Deliver(line + CRLF, 0, |line|, size, 0)
  }

  /** Only the line itself matters. */
  lemma {:induction false} DeliverInContext(s: seq<byte>, d: nat, p: nat, size: nat, skipped: nat)
    requires size >= 2 && d <= p && BreakAt(s, p)
    ensures BreakAt(s[..p] + CRLF, p) && Deliver(s, d, p, size, skipped) == Deliver(s[..p] + CRLF, d, p, size, skipped)
    decreases p - d
  {
    var t := s[..p] + CRLF;
    if p + 2 - d <= size {
      assert t[d..p] == s[d..p];
    } else {
      assert t[d + size - 1] == s[d + size - 1];
      var drop := size - Kept(s, d, size);
      DeliverInContext(s, d + drop, p, size, drop);
    }
  }

  lemma {:induction false} SkippedMeansNegative(s: seq<byte>, d: nat, p: nat, size: nat, skipped: nat)
    requires size >= 2 && d <= p && BreakAt(s, p) && skipped > 0
    ensures var len := Deliver(s, d, p, size, skipped).len;
            && len < 0
            && -len <= p - d + skipped
            && (-len == p - d + skipped <==> p + 2 - d <= size)
    decreases p - d
  {
    if p + 2 - d > size {
      var drop := size - Kept(s, d, size);
      SkippedMeansNegative(s, d + drop, p, size, drop);
    }
  }

  /**
   A caller can tell exactly: the length is non-negative if and only if the line fitted with its
   CR LF, and then it is the line's length and the bytes are the line's bytes.
   */
  lemma DeliveredIffFits(line: seq<byte>, size: nat)
    requires size >= 2
    ensures |line| + 2 <= size <==> Delivered(line, size).len >= 0
    ensures |line| + 2 <= size ==> Delivered(line, size) == Delivery(line, |line|)
  {
    var t := line + CRLF;
    if |t| <= size {
      assert t[0..|line|] == line;
    } else {
      var drop := size - Kept(t, 0, size);
      SkippedMeansNegative(t, drop, |line|, size, drop);
    }
  }

  /**
   The magnitude of a negative length is the line's length if and only if the buffer overflowed
   once: each overflow forgets the one before it, so for longer lines it is too small.
   */
  lemma MagnitudeIffOneOverflow(line: seq<byte>, size: nat)
    requires size >= 2 && |line| + 2 > size
    ensures -|line| <= Delivered(line, size).len < 0
    ensures Delivered(line, size).len == -|line| <==> |line| + 2 <= 2 * size - Kept(line + CRLF, 0, size)
  {
    var t := line + CRLF;
    var drop := size - Kept(t, 0, size);
    SkippedMeansNegative(t, drop, |line|, size, drop);
  }

  /** How much is left of a line of `n` bytes when whole buffers are discarded, and a final CR alone is kept. */
  function TailLength(n: nat, size: nat): nat
    requires size > 0
  {
    if n % size == size - 1 then 0 else n % size
  }

  lemma {:induction false} TailLeft(s: seq<byte>, d: nat, p: nat, size: nat, skipped: nat)
    requires size >= 2 && d <= p && BreakAt(s, p) && forall j :: d <= j < p ==> s[j] != CR
    ensures var (n, r) := (p - d, TailLength(p - d, size));
            && r <= n
            && Deliver(s, d, p, size, skipped).bytes == s[p - r..p]
            && (n + 2 > size ==> Deliver(s, d, p, size, skipped).len == if n % size == size - 1 then 1 - size else -(r + size))
    decreases p - d
  {
    if p - d < size {
      RemainderIs(p - d, size, 0, p - d);
      if p - d == size - 1 {
        assert Kept(s, d, size) == 1;
      }
    } else {
      assert Kept(s, d, size) == 0;
      OneMore(p - d - size, size);
      TailLeft(s, d + size, p, size, size);
    }
  }

  /**
   What is delivered of a line without CRs that does not fit: its last bytes, as many as are left when
   whole buffers are discarded, and a length that counts the last buffer discarded with them.
   */
  lemma LongLineDelivered(line: seq<byte>, size: nat)
    requires size >= 2 && CR !in line && |line| + 2 > size
    ensures var r := TailLength(|line|, size);
            && r <= |line|
            && Delivered(line, size).bytes == line[|line| - r..]
            && Delivered(line, size).len == if |line| % size == size - 1 then 1 - size else -(r + size)
  {
    var t, r := line + CRLF, TailLength(|line|, size);
    TailLeft(t, 0, |line|, size, 0);
    assert t[|line| - r..|line|] == line[|line| - r..];
  }

  /**
   A line that is too long can look like an empty one, and so end the headers: nothing is delivered of
   a line without CRs if and only if its length is a multiple of the buffer's, or one less than that.
   */
  lemma NothingDeliveredIff(line: seq<byte>, size: nat)
    requires size >= 2 && CR !in line
    ensures Delivered(line, size).bytes == [] <==> |line| % size == 0 || |line| % size == size - 1
  {
    TailLeft(line + CRLF, 0, |line|, size, 0);
  }

  // ------------------------------------------------------------------------ the reader's progress

  /**
   After throwing away `dropped` bytes of the stream `s`, `skipped` of them at the last overflow,
   the reader is still within the first line, and delivering the rest of it delivers the line.
   */
  ghost predicate Reached(s: seq<byte>, size: nat, dropped: nat, skipped: nat)
    requires size >= 2
  {
    && dropped <= |s|
    && (Find(s).Some? ==>
          var p := Find(s).value;
          dropped <= p && BreakAt(s, p) && Deliver(s, dropped, p, size, skipped) == Delivered(s[..p], size))
  }

  /** A line that goes on after the first `d` bytes goes on for `size` bytes if these hold no break. */
  lemma LineGoesOn(s: seq<byte>, d: nat, size: nat)
    requires Find(s).Some? && d <= Find(s).value && d + size <= |s|
    requires Find(s[d..d + size]).None?
    ensures d + size <= Find(s).value + 1
  {
    FindInSuffix(s, d);
    assert s[d..] == s[d..d + size] + s[d + size..];
    FindInPrefix(s[d..d + size], s[d + size..]);
  }

  lemma ReachedAtStart(s: seq<byte>, size: nat)
    requires size >= 2
    ensures Reached(s, size, 0, 0)
  {
    if Find(s).Some? {
      FoundIsFirst(s, 0);
      DeliverInContext(s, 0, Find(s).value, size, 0);
    }
  }

  /** A full buffer without a line break is thrown away, but for a final CR. */
  lemma ReachedAfterOverflow(s: seq<byte>, pending: seq<byte>, size: nat, d: nat, skipped: nat, d': nat, drop: nat)
    requires size >= 2 && Reached(s, size, d, skipped) && pending == s[d..]
    requires size <= |pending| && Find(pending[..size]).None?
    requires drop == size - Kept(pending, 0, size) && d' == d + drop
    ensures Reached(s, size, d', drop) && s[d'..] == pending[drop..]
  {
    assert pending[..size] == s[d..d + size];
    assert Kept(pending, 0, size) == Kept(s, d, size);
    if Find(s).Some? {
      LineGoesOn(s, d, size);
    }
  }

  /** A break in the window is the break of the line being read. */
  lemma BreakInWindow(s: seq<byte>, window: seq<byte>, incoming: seq<byte>, size: nat, d: nat, skipped: nat)
    requires size >= 2 && |window| <= size && Reached(s, size, d, skipped) && s[d..] == window + incoming
    requires Find(window).Some?
    ensures NulFree(s) ==> Find(s).Some?
    ensures Find(s).Some? ==>
              var q: int := Find(window).value;
              && Delivery(window[..q], if skipped == 0 then q else -q - skipped) == Delivered(s[..Find(s).value], size)
              && window[q + 2..] + incoming == s[Find(s).value + 2..]
  {
    var q := Find(window).value;
    FindInPrefix(window, incoming);
    FoundIsFirst(window, 0);
    assert BreakAt(s[d..], q) && BreakAt(s, d + q);
    FoundIsFirst(s, 0);
    if Find(s).Some? {
      FindInSuffix(s, d);
      assert s[d..d + q] == s[d..][..q] == window[..q];
      assert s[d + q + 2..] == s[d..][q + 2..] == window[q + 2..] + incoming;
    }
  }

  // -------------------------------------------------------------------------- several lines in turn

  /** `ds` is what a buffer of `size` bytes delivers of the first lines of `s`, which leaves `rest`. */
  ghost predicate Consumed(s: seq<byte>, ds: seq<Delivery>, size: nat, rest: seq<byte>)
    requires size >= 2
  {
    && |ds| <= |Lines(s)|
    && (forall i :: 0 <= i < |ds| ==> ds[i] == Delivered(Lines(s)[i], size))
    && rest == After(s, |ds|)
  }

  lemma ConsumeOne(s: seq<byte>, ds: seq<Delivery>, size: nat, rest: seq<byte>)
    requires size >= 2 && Consumed(s, ds, size, rest) && NulFree(s)
    ensures NulFree(rest)
    ensures Find(rest).Some? ==>
              && |ds| < |Lines(s)|
              && Consumed(s, ds + [Delivered(rest[..Find(rest).value], size)], size, rest[Find(rest).value + 2..])
    ensures Find(rest).None? ==> |ds| == |Lines(s)|
  {
    AfterIsSuffix(s, |ds|);
    AfterOneMore(s, |ds|);
    if Find(rest).Some? {
      var line := rest[..Find(rest).value];
      assert line == Lines(s)[|ds|];
      assert forall i :: 0 <= i < |ds| ==> (ds + [Delivered(line, size)])[i] == ds[i];
    }
  }

  lemma {:induction false} LinesOfRest(s: seq<byte>, k: nat)
    requires k <= |Lines(s)|
    ensures Lines(After(s, k)) == Lines(s)[k..]
  {
    if k > 0 {
      LinesOfRest(s[Find(s).value + 2..], k - 1);
    }
  }

  // ---------------------------------------------------------------------- what has come of a stream

  /** What has come of the stream `s` when `left` bytes of it are still to come. */
  function Come(s: seq<byte>, left: nat): seq<byte> {
    if left <= |s| then s[..|s| - left] else []
  }

  /** While the window holds no break, what has come of the stream holds no whole line. */
  lemma NoLineYet(s: seq<byte>, window: seq<byte>, incoming: seq<byte>, d: nat)
    requires d <= |s| && s[d..] == window + incoming && Find(window).None?
    requires Find(s).Some? ==> d <= Find(s).value
    ensures Find(Come(s, |incoming|)).None?
  {
    var n := |s| - |incoming|;
    assert s == s[..n] + s[n..];
    FindInPrefix(s[..n], s[n..]);
    if Find(s).Some? {
      FindInSuffix(s, d);
      FindInPrefix(window, incoming);
    }
  }

  /** The lines before the first that does not fit a buffer of `size` bytes. */
  function Fitting(lines: seq<seq<byte>>, size: nat): seq<seq<byte>> {
    if lines == [] || |lines[0]| + 2 > size then [] else [lines[0]] + Fitting(lines[1..], size)
  }

  lemma {:induction false} FittingIsLongest(lines: seq<seq<byte>>, size: nat)
    ensures var fitting := Fitting(lines, size);
            && fitting <= lines
            && (forall i :: 0 <= i < |fitting| ==> |fitting[i]| + 2 <= size)
            && (|fitting| < |lines| ==> |lines[|fitting|]| + 2 > size)
  {
    if lines != [] && |lines[0]| + 2 <= size {
      FittingIsLongest(lines[1..], size);
    }
  }

  /** The first break of a stream is that of any beginning of the stream that holds it. */
  lemma BreakOfPrefix(s: seq<byte>, n: nat)
    requires Find(s).Some? && Find(s).value + 2 <= n <= |s|
    ensures Find(s[..n]) == Find(s)
  {
    assert s == s[..n] + s[n..];
    FindInPrefix(s[..n], s[n..]);
  }

  lemma CutPrefix(s: seq<byte>, n: nat, k: nat)
    requires k <= n <= |s|
    ensures s[..n][..k] == s[..k] && s[..n][k..] == s[k..][..n - k]
  {
  }

  lemma LineOfPrefix(s: seq<byte>, n: nat)
    requires Find(s).Some? && Find(s).value + 2 <= n <= |s|
    ensures Lines(s[..n]) == [Lines(s)[0]] + Lines(s[Find(s).value + 2..][..n - Find(s).value - 2])
  {
    var p := Find(s).value;
    BreakOfPrefix(s, n);
    CutPrefix(s, n, p);
    CutPrefix(s, n, p + 2);
  }

  lemma FirstLineOf(s: seq<byte>)
    ensures Find(s).None? <==> Lines(s) == []
    ensures Find(s).Some? ==> |Lines(s)[0]| == Find(s).value
  {
  }

  /** More of a stream has the same lines, and perhaps more. */
  lemma {:induction false} MoreLines(s: seq<byte>, n: nat, m: nat)
    requires n <= m <= |s|
    ensures Lines(s[..n]) <= Lines(s[..m])
    decreases n
  {
    var t := s[..m];
    assert t[..n] == s[..n] && t == t[..n] + t[n..];
    FindInPrefix(t[..n], t[n..]);
    if Find(s[..n]).Some? {
      var p := Find(s[..n]).value;
      var rest := t[p + 2..];
      BreakOfPrefix(t, n);
      LineOfPrefix(t, n);
      MoreLines(rest, n - p - 2, |rest|);
      assert rest[..|rest|] == rest;
    }
  }
}
