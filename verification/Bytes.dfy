/** Bytes, as the firmware's buffers hold them, and the little optional-value datatype. */
module Bytes {
  type byte = b: int | 0 <= b < 256

  const NUL: byte := 0

  /** What C string functions can see all of. */
  predicate NulFree(s: seq<byte>) {
    forall i :: 0 <= i < |s| ==> s[i] != NUL
  }

  datatype Option<+T> = None | Some(value: T)

  /** All pieces one after the other. */
  function Concat(pieces: seq<seq<byte>>): seq<byte> {
    if pieces == [] then [] else Concat(pieces[..|pieces| - 1]) + pieces[|pieces| - 1]
  }

  lemma ConcatOneMore(pieces: seq<seq<byte>>, k: nat)
    requires k < |pieces|
    ensures Concat(pieces[..k + 1]) == Concat(pieces[..k]) + pieces[k]
  {
    assert pieces[..k + 1][..k] == pieces[..k];
  }

  lemma {:induction false} ConcatAppend(a: seq<seq<byte>>, b: seq<seq<byte>>)
    ensures Concat(a + b) == Concat(a) + Concat(b)
    decreases |b|
  {
    if b == [] {
      assert a + b == a;
    } else {
      var init, last := b[..|b| - 1], b[|b| - 1];
      ConcatAppend(a, init);
      ConcatOneMore(a + b, |a + b| - 1);
      ConcatOneMore(b, |b| - 1);
      assert (a + b)[..|a + b| - 1] == a + init && (a + b)[..|a + b|] == a + b && b[..|b|] == b;
      assert Concat(a) + Concat(init) + last == Concat(a) + (Concat(init) + last);
    }
  }

  /** Piece `k` lies where the pieces before it end. */
  lemma {:induction false} ConcatHolds(pieces: seq<seq<byte>>, k: nat)
    requires k < |pieces|
    ensures var at := |Concat(pieces[..k])|;
            at + |pieces[k]| <= |Concat(pieces)| && Concat(pieces)[at..at + |pieces[k]|] == pieces[k]
    decreases |pieces|
  {
    var last := |pieces| - 1;
    if k < last {
      var init := pieces[..last];
      ConcatHolds(init, k);
      assert init[..k] == pieces[..k];
      var at := |Concat(pieces[..k])|;
      assert Concat(pieces)[at..at + |pieces[k]|] == Concat(init)[at..at + |pieces[k]|];
    }
  }

  lemma SliceOfPrefix(s: seq<byte>, n: nat, i: nat, j: nat)
    requires i <= j <= n <= |s|
    ensures s[..n][i..j] == s[i..j]
  {
  }

  lemma SliceOfSuffix(s: seq<byte>, n: nat, i: nat, j: nat)
    requires i <= j && n + j <= |s|
    ensures s[n..][i..j] == s[n + i..n + j]
  {
  }

  lemma SliceOfSlice(s: seq<byte>, m: nat, n: nat, i: nat, j: nat)
    requires m <= n <= |s| && i <= j <= n - m
    ensures s[m..n][i..j] == s[m + i..m + j]
  {
    forall k | 0 <= k < j - i
      ensures s[m..n][i..j][k] == s[m + i..m + j][k]
    {
      assert s[m..n][i + k] == s[m + i + k];
    }
  }

  lemma SliceOfFront(a: seq<byte>, b: seq<byte>, i: nat, j: nat)
    requires i <= j <= |a|
    ensures (a + b)[i..j] == a[i..j]
  {
  }

  lemma SliceOfBack(a: seq<byte>, b: seq<byte>, i: nat, j: nat)
    requires i <= j <= |b|
    ensures (a + b)[|a| + i..|a| + j] == b[i..j]
  {
  }

  /** The bytes of an ASCII literal. */
  function Ascii(s: string): (bytes: seq<byte>)
    ensures |bytes| == |s|
    ensures forall i :: 0 <= i < |s| && s[i] as int < 128 ==> bytes[i] == s[i] as int
  {
    seq(|s|, i requires 0 <= i < |s| => s[i] as int % 256)
  }
}
