/**
 The first receive of a request, recv_line: every chunk is stored at the start of the buffer, over
 the ones before it.
 */
module HttpRecvLine {
  import opened Bytes
  import opened CrlfLines
  import opened Sockets
  import opened HttpConnection

  /** The buffer after every chunk was stored at its start, one over the other. */
  function AtStart(buffer: seq<byte>, chunks: seq<seq<byte>>): (r: seq<byte>)
    requires forall i :: 0 <= i < |chunks| ==> |chunks[i]| <= |buffer|
    ensures |r| == |buffer|
  {
    if chunks == [] then buffer
    else
      var c := chunks[|chunks| - 1];
      c + AtStart(buffer, chunks[..|chunks| - 1])[|c|..]
  }

  /** What is searched for a line break after `k` chunks: as many bytes as were received in all. */
  function Searched(buffer: seq<byte>, chunks: seq<seq<byte>>, k: nat): seq<byte>
    requires k <= |chunks| && forall i :: 0 <= i < |chunks| ==> |chunks[i]| <= |buffer|
  {
    var n := |Concat(chunks[..k])|;
    if n <= |buffer| then AtStart(buffer, chunks[..k])[..n] else buffer
  }

  /** There was no break to be found after any but the last of the chunks. */
  ghost predicate NoneBefore(buffer: seq<byte>, chunks: seq<seq<byte>>, n: nat)
    requires forall i :: 0 <= i < |chunks| ==> |chunks[i]| <= |buffer|
  {
    forall k :: 0 < k < n && k <= |chunks| ==> Find(Searched(buffer, chunks, k)).None?
  }

  lemma SearchedPrefix(buffer: seq<byte>, chunks: seq<seq<byte>>, c: seq<byte>, k: nat)
    requires |c| <= |buffer| && k <= |chunks| && forall i :: 0 <= i < |chunks| ==> |chunks[i]| <= |buffer|
    ensures Searched(buffer, chunks + [c], k) == Searched(buffer, chunks, k)
  {
    assert (chunks + [c])[..k] == chunks[..k];
  }

  /** `chunks` came of the stream `s`, `incoming` is still to come, and `mem` is what they made of `buffer`. */
  ghost predicate Stored(buffer: seq<byte>, mem: seq<byte>, chunks: seq<seq<byte>>, s: seq<byte>, incoming: seq<byte>) {
    && |Concat(chunks)| <= |buffer|
    && (forall i :: 0 <= i < |chunks| ==> |chunks[i]| <= |buffer|)
    && mem == AtStart(buffer, chunks)
    && s == Concat(chunks) + incoming
  }

  /** What one more chunk does to the buffer and to the search, in which `found` is the result. */
  lemma OneChunkMore(buffer: seq<byte>, mem: seq<byte>, chunks: seq<seq<byte>>, s: seq<byte>, c: seq<byte>, incoming: seq<byte>)
    requires Stored(buffer, mem, chunks, s, c + incoming) && |Concat(chunks)| + |c| <= |buffer|
    requires NoneBefore(buffer, chunks, |chunks| + 1)
    ensures var (mem', more, n) := (c + mem[|c|..], chunks + [c], |Concat(chunks)| + |c|);
            && Stored(buffer, mem', more, s, incoming) && |Concat(more)| == n && |more| == |chunks| + 1
            && NoneBefore(buffer, more, |more|)
            && (Find(mem'[..n]).None? ==> NoneBefore(buffer, more, |more| + 1))
  {
    var more := chunks + [c];
    assert more[..|chunks|] == chunks && more[..|chunks| + 1] == more;
    assert Concat(chunks) + (c + incoming) == Concat(chunks) + c + incoming;
    forall k | 0 < k < |chunks| + 1
      ensures Find(Searched(buffer, more, k)).None?
    {
      SearchedPrefix(buffer, chunks, c, k);
    }
  }

  /**
   recv_line.  Every recv stores its chunk at the start of the buffer, while the search for a line
   break takes in as many bytes as were received in all; `conn.chunks` is what was received.
   */
  method RecvLine(conn: HttpConnection) returns (len: nat)
    requires conn.Valid()
    modifies conn`chunks, conn.buffer, conn.socket`incoming, conn.socket`failed
    ensures Stored(old(conn.buffer[..]), conn.buffer[..], conn.chunks, old(conn.socket.incoming), conn.socket.incoming)
    ensures |Concat(conn.chunks)| <= conn.bufferSize && NoneBefore(old(conn.buffer[..]), conn.chunks, |conn.chunks|)
    ensures len > 0 ==> len == |Concat(conn.chunks)| && conn.chunks != [] && Find(conn.buffer[..len]).Some?
    ensures len > 0 || |Concat(conn.chunks)| == conn.bufferSize ==> conn.socket.failed == old(conn.socket.failed)
    ensures len == 0 ==> NoneBefore(old(conn.buffer[..]), conn.chunks, |conn.chunks| + 1)
                         && (conn.socket.failed || |Concat(conn.chunks)| == conn.bufferSize)
  {
    conn.chunks := [];
    ghost var buffer, s := conn.buffer[..], conn.socket.incoming;
    var done := 0;
    while done < conn.bufferSize
      invariant done == |Concat(conn.chunks)| <= conn.bufferSize
      invariant conn.socket.failed == old(conn.socket.failed)
      invariant Stored(buffer, conn.buffer[..], conn.chunks, s, conn.socket.incoming)
      invariant NoneBefore(buffer, conn.chunks, |conn.chunks| + 1)
      decreases conn.bufferSize - done
    {
      var found;
      done, found := RecvAndSearch(conn, done, buffer, s);
      if found.None? {
        return 0;
      }
      if found.value {
        return done;
      }
    }
    len := 0;
  }

  /** One recv of recv_line, after `done0` bytes, and the search for a line break; None if it has failed. */
  method RecvAndSearch(conn: HttpConnection, done0: nat, ghost buffer: seq<byte>, ghost s: seq<byte>)
    returns (done: nat, found: Option<bool>)
    requires conn.Valid() && done0 == |Concat(conn.chunks)| < conn.bufferSize
    requires Stored(buffer, conn.buffer[..], conn.chunks, s, conn.socket.incoming)
    requires NoneBefore(buffer, conn.chunks, |conn.chunks| + 1)
    modifies conn`chunks, conn.buffer, conn.socket`incoming, conn.socket`failed
    ensures Stored(buffer, conn.buffer[..], conn.chunks, s, conn.socket.incoming)
    ensures done == |Concat(conn.chunks)| <= conn.bufferSize
    ensures found.None? ==> conn.socket.failed && conn.chunks == old(conn.chunks)
    ensures found.Some? ==>
              && done0 < done && conn.chunks != [] && conn.socket.failed == old(conn.socket.failed)
              && (found.value <==> Find(conn.buffer[..done]).Some?)
              && NoneBefore(buffer, conn.chunks, if found.value then |conn.chunks| else |conn.chunks| + 1)
  {
    ghost var mem, chunks := conn.buffer[..], conn.chunks;
    var n;
    ghost var c;
    n, c := RecvAtStart(conn, conn.bufferSize - done0);
    if n <= 0 {
      return done0, None;
    }
    OneChunkMore(buffer, mem, chunks, s, c, conn.socket.incoming);
    conn.chunks := chunks + [c];
    done := done0 + n;
    found := Some(Find(conn.buffer[..done]).Some?);
  }

  /** recv(socket, buffer, size, 0): the chunk `c` that comes is stored at the start of the buffer. */
  method RecvAtStart(conn: HttpConnection, size: nat) returns (n: int, ghost c: seq<byte>)
    requires conn.Valid() && size <= conn.bufferSize
    modifies conn.buffer, conn.socket`incoming, conn.socket`failed
    ensures n <= 0 ==>
              conn.socket.failed && conn.socket.incoming == old(conn.socket.incoming) && conn.buffer[..] == old(conn.buffer[..])
    ensures n > 0 ==>
              && n == |c| <= size && conn.socket.failed == old(conn.socket.failed)
              && old(conn.socket.incoming) == c + conn.socket.incoming
              && conn.buffer[..] == c + old(conn.buffer[..])[n..]
  {
    ghost var incoming := conn.socket.incoming;
    n := conn.socket.Recv(conn.buffer, 0, size);
    c := if n > 0 then incoming[..n] else [];
  }

  /** The first chunk received held a line break. */
  predicate FirstChunkHasLine(chunks: seq<seq<byte>>) {
    chunks != [] && Find(chunks[0]).Some?
  }

  /** In that case recv_line needs no other chunk, and the buffer begins with what was received. */
  lemma OneChunkIsEnough(buffer: seq<byte>, chunks: seq<seq<byte>>, n: nat)
    requires chunks != [] && (forall i :: 0 <= i < |chunks| ==> |chunks[i]| <= |buffer|) && Find(chunks[0]).Some?
    requires n == |chunks| || n == |chunks| + 1
    requires NoneBefore(buffer, chunks, n)
    ensures n == |chunks| == 1 && Concat(chunks) == chunks[0] && AtStart(buffer, chunks)[..|chunks[0]|] == chunks[0]
  {
    assert chunks[..1] == [chunks[0]] && chunks[..1][..0] == [];
    assert Concat(chunks[..1]) == [] + chunks[0];
    assert AtStart(buffer, chunks[..1]) == chunks[0] + buffer[|chunks[0]|..];
    assert Searched(buffer, chunks, 1) == chunks[0];
  }

  // ------------------------------------------------------------------- several chunks, one over the other

  /** No chunk from `k` on covers offset `j`. */
  ghost predicate Uncovered(chunks: seq<seq<byte>>, k: nat, j: nat) {
    forall l :: k <= l < |chunks| ==> |chunks[l]| <= j
  }

  /** What no chunk covers is what was there before. */
  lemma {:induction false} UncoveredByte(buffer: seq<byte>, chunks: seq<seq<byte>>, j: nat)
    requires j < |buffer| && forall i :: 0 <= i < |chunks| ==> |chunks[i]| <= |buffer|
    requires Uncovered(chunks, 0, j)
    ensures AtStart(buffer, chunks)[j] == buffer[j]
    decreases |chunks|
  {
    if chunks != [] {
      var before := chunks[..|chunks| - 1];
      assert Uncovered(before, 0, j);
      UncoveredByte(buffer, before, j);
    }
  }

  /** Everything else is from the last chunk that covers it. */
  lemma {:induction false} CoveredByte(buffer: seq<byte>, chunks: seq<seq<byte>>, k: nat, j: nat)
    requires j < |buffer| && forall i :: 0 <= i < |chunks| ==> |chunks[i]| <= |buffer|
    requires k < |chunks| && j < |chunks[k]| && Uncovered(chunks, k + 1, j)
    ensures AtStart(buffer, chunks)[j] == chunks[k][j]
    decreases |chunks|
  {
    if k < |chunks| - 1 {
      var before := chunks[..|chunks| - 1];
      assert Uncovered(before, k + 1, j);
      CoveredByte(buffer, before, k, j);
    }
  }

  lemma {:induction false} LastToCover(chunks: seq<seq<byte>>, j: nat, n: nat) returns (k: nat)
    requires n <= |chunks| && Uncovered(chunks, n, j) && !Uncovered(chunks, 0, j)
    ensures k < |chunks| && j < |chunks[k]| && Uncovered(chunks, k + 1, j)
    decreases n
  {
    if |chunks[n - 1]| > j {
      k := n - 1;
    } else {
      k := LastToCover(chunks, j, n - 1);
    }
  }

  /**
   Every byte of a chunk that no later chunk covers is the byte of the stream at that offset, and so
   is every byte that was in the buffer before and is covered by none.
   */
  ghost predicate NothingLost(buffer: seq<byte>, chunks: seq<seq<byte>>) {
    var s := Concat(chunks);
    && (forall k, j :: 0 <= k < |chunks| && 0 <= j < |chunks[k]| && j < |s| && Uncovered(chunks, k + 1, j) ==> chunks[k][j] == s[j])
    && (forall j :: 0 <= j < |s| && j < |buffer| && Uncovered(chunks, 0, j) ==> buffer[j] == s[j])
  }

  /** Exactly when recv_line leaves what was received in the buffer, in however many chunks it came. */
  lemma PutTogetherIffNothingLost(buffer: seq<byte>, chunks: seq<seq<byte>>)
    requires |Concat(chunks)| <= |buffer| && forall i :: 0 <= i < |chunks| ==> |chunks[i]| <= |buffer|
    ensures AtStart(buffer, chunks)[..|Concat(chunks)|] == Concat(chunks) <==> NothingLost(buffer, chunks)
  {
    var s, mem := Concat(chunks), AtStart(buffer, chunks);
    if NothingLost(buffer, chunks) {
      forall j | 0 <= j < |s|
        ensures mem[j] == s[j]
      {
        if Uncovered(chunks, 0, j) {
          UncoveredByte(buffer, chunks, j);
        } else {
          var k := LastToCover(chunks, j, |chunks|);
          CoveredByte(buffer, chunks, k, j);
        }
      }
    } else if mem[..|s|] == s {
      assert forall j :: 0 <= j < |s| ==> mem[j] == s[j] by {
        assert forall j :: 0 <= j < |s| ==> mem[..|s|][j] == mem[j];
      }
      forall k, j | 0 <= k < |chunks| && 0 <= j < |chunks[k]| && j < |s| && Uncovered(chunks, k + 1, j)
        ensures chunks[k][j] == s[j]
      {
        CoveredByte(buffer, chunks, k, j);
      }
      forall j | 0 <= j < |s| && Uncovered(chunks, 0, j)
        ensures buffer[j] == s[j]
      {
        UncoveredByte(buffer, chunks, j);
      }
      assert false;
    }
  }

  /** In particular, the last chunk has to be the beginning of the whole stream. */
  lemma LastChunkBeginsAll(buffer: seq<byte>, chunks: seq<seq<byte>>)
    requires chunks != [] && |Concat(chunks)| <= |buffer| && forall i :: 0 <= i < |chunks| ==> |chunks[i]| <= |buffer|
    requires AtStart(buffer, chunks)[..|Concat(chunks)|] == Concat(chunks)
    ensures chunks[|chunks| - 1] <= Concat(chunks)
  {
    var c := chunks[|chunks| - 1];
    assert c == AtStart(buffer, chunks)[..|c|] == AtStart(buffer, chunks)[..|Concat(chunks)|][..|c|];
  }

  /**
   A request line that comes in two chunks is in the buffer if and only if the second chunk begins
   like the whole, and the bytes after the longer of the two were in the buffer before.
   */
  lemma SplitLineIsOverwritten(buffer: seq<byte>, a: seq<byte>, b: seq<byte>)
    requires |a| + |b| <= |buffer|
    ensures AtStart(buffer, [a, b])[..|a| + |b|] == a + b
       <==> b <= a + b && buffer[Longer(a, b)..|a| + |b|] == (a + b)[Longer(a, b)..]
  {
    TwoChunks(buffer, a, b);
    Overlaid(buffer, a, b);
  }

  function Longer(a: seq<byte>, b: seq<byte>): nat {
    if |a| < |b| then |b| else |a|
  }

  lemma TwoChunks(buffer: seq<byte>, a: seq<byte>, b: seq<byte>)
    requires |a| <= |buffer| && |b| <= |buffer|
    ensures AtStart(buffer, [a, b]) == b + (a + buffer[|a|..])[|b|..]
  {
    var one := [a];
    assert one[..0] == [] && AtStart(buffer, one) == a + buffer[|a|..];
    assert [a, b][..1] == one;
  }

  /** Storing `a` and then `b` at the start gives `a + b` exactly if what is seen of each fits. */
  lemma Overlaid(buffer: seq<byte>, a: seq<byte>, b: seq<byte>)
    requires |a| + |b| <= |buffer|
    ensures (b + (a + buffer[|a|..])[|b|..])[..|a| + |b|] == a + b
       <==> b <= a + b && buffer[Longer(a, b)..|a| + |b|] == (a + b)[Longer(a, b)..]
  {
    var n, s, mem := Longer(a, b), a + b, b + (a + buffer[|a|..])[|b|..];
    SameSlices(mem, s, 0, |s|);
    SameSlices(b, s, 0, |b|);
    SameSlices(buffer, s, n, |s|);
    forall j | 0 <= j < |s|
      ensures mem[j] == if j < |b| then b[j] else if j < |a| then s[j] else buffer[j]
    {
      SeenAt(buffer, a, b, j);
    }
  }

  lemma SeenAt(buffer: seq<byte>, a: seq<byte>, b: seq<byte>, j: nat)
    requires |a| + |b| <= |buffer| && j < |a| + |b|
    ensures (b + (a + buffer[|a|..])[|b|..])[j] == if j < |b| then b[j] else if j < |a| then (a + b)[j] else buffer[j]
  {
  }

  lemma SameSlices(x: seq<byte>, y: seq<byte>, i: nat, k: nat)
    requires i <= k <= |x| && k <= |y|
    ensures x[i..k] == y[i..k] <==> forall j :: i <= j < k ==> x[j] == y[j]
  {
    if x[i..k] == y[i..k] {
      forall j | i <= j < k
        ensures x[j] == y[j]
      {
        assert x[i..k][j - i] == y[i..k][j - i];
      }
    }
  }
}
