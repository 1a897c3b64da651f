/**
 DHCP options (section 2 of RFC 2132): the server's finder and writers, and the list of
 code/length/value triples that they stand for.

 The options window of a message is 308 bytes long.  The finder may look at the length byte of an
 option whose code is the last byte of the window, so it is given memory that goes on after it.
 */
module DhcpOptions {
  import opened Bytes
  import opened Words

  const END: byte := 255
  const WINDOW := 308

  datatype Opt = Opt(code: byte, value: seq<byte>)

  /** One option as the writers lay it out: the length goes through a uint8_t. */
  function OptBytes(o: Opt): seq<byte> {
    [o.code, |o.value| % 256] + o.value
  }

  function Encode(opts: seq<Opt>): seq<byte> {
    if opts == [] then [] else OptBytes(opts[0]) + Encode(opts[1..])
  }

  lemma {:induction false} EncodeSnoc(opts: seq<Opt>, o: Opt)
    ensures Encode(opts + [o]) == Encode(opts) + OptBytes(o)
  {
    if opts != [] {
      EncodeSnoc(opts[1..], o);
      assert (opts + [o])[1..] == opts[1..] + [o];
    }
  }

  lemma {:induction false} EncodeAppend(a: seq<Opt>, b: seq<Opt>)
    ensures Encode(a + b) == Encode(a) + Encode(b)
  {
    if a == [] {
      assert a + b == b;
    } else {
      EncodeAppend(a[1..], b);
      assert (a + b)[1..] == a[1..] + b;
    }
  }

  /** Where the finder's walk from offset `i` ends: at an option with code `cmd`, or nowhere. */
  function FoundFrom(mem: seq<byte>, cmd: byte, i: nat): (r: Option<nat>)
    requires |mem| > WINDOW
    ensures r.Some? ==> i <= r.value < WINDOW && mem[r.value] == cmd != END
    decreases WINDOW - i
  {
    if i >= WINDOW || mem[i] == END then None
    else if mem[i] == cmd then Some(i)
    else FoundFrom(mem, cmd, i + 2 + mem[i + 1])
  }

  /** opt_find, over the options that start at offset `base` of `buf`. */
  method Find(buf: array<byte>, base: nat, cmd: byte) returns (r: Option<nat>)
    requires base + WINDOW < buf.Length
    ensures r == FoundFrom(buf[base..], cmd, 0)
  {
    ghost var mem := buf[base..];
    var i := 0;
    while i < WINDOW && buf[base + i] != END
      invariant 0 <= i
      invariant FoundFrom(mem, cmd, 0) == FoundFrom(mem, cmd, i)
      decreases WINDOW - i
    {
      if buf[base + i] == cmd {
        return Some(i);
      }
      i := i + 2 + buf[base + i + 1];
    }
    r := None;
  }

  /** opt_write_n: lays one option down at `at` and returns the offset after it. */
  method WriteN(buf: array<byte>, at: nat, cmd: byte, data: seq<byte>) returns (next: nat)
    requires at + 2 + |data| <= buf.Length
    modifies buf
    ensures next == at + 2 + |data|
    ensures buf[..] == old(buf[..at]) + OptBytes(Opt(cmd, data)) + old(buf[next..])
  {
    buf[at] := cmd;
    buf[at + 1] := |data| % 256;
    next := at + 2;
    for k := 0 to |data|
      invariant next == at + 2 + k
      invariant buf[..next] == old(buf[..at]) + [cmd, |data| % 256] + data[..k]
      invariant buf[next..] == old(buf[next..])
    {
      buf[next] := data[k];
      next := next + 1;
    }
    assert data[..|data|] == data;
    assert buf[..] == buf[..next] + buf[next..];
  }

  /** opt_write_u8. */
  method WriteU8(buf: array<byte>, at: nat, cmd: byte, val: byte) returns (next: nat)
    requires at + 3 <= buf.Length
    modifies buf
    ensures next == at + 3
    ensures buf[..] == old(buf[..at]) + OptBytes(Opt(cmd, [val])) + old(buf[next..])
  {
    buf[at] := cmd;
    buf[at + 1] := 1;
    buf[at + 2] := val;
    next := at + 3;
  }

  /** A 32-bit word in network byte order. */
  function BigEndian(val: nat): seq<byte> {
    [val / 0x100_0000 % 256, val / 0x1_0000 % 256, val / 0x100 % 256, val % 256]
  }

  /** opt_write_u32: the word is sent with its most significant byte first. */
  method WriteU32(buf: array<byte>, at: nat, cmd: byte, val: nat) returns (next: nat)
    requires at + 6 <= buf.Length
    modifies buf
    ensures next == at + 6
    ensures buf[..] == old(buf[..at]) + OptBytes(Opt(cmd, BigEndian(val))) + old(buf[next..])
  {
    buf[at] := cmd;
    buf[at + 1] := 4;
    buf[at + 2] := val / 0x100_0000 % 256;
    buf[at + 3] := val / 0x1_0000 % 256;
    buf[at + 4] := val / 0x100 % 256;
    buf[at + 5] := val % 256;
    next := at + 6;
  }

  // -------------------------------------------------------------------------------- round trip

  /** The value of the first option of the list with code `cmd`. */
  function FirstValue(opts: seq<Opt>, cmd: byte): Option<seq<byte>> {
    if opts == [] then None
    else if opts[0].code == cmd then Some(opts[0].value)
    else FirstValue(opts[1..], cmd)
  }

  lemma {:induction false} FirstValueAt(opts: seq<Opt>, k: nat)
    requires k < |opts| && forall i :: 0 <= i < k ==> opts[i].code != opts[k].code
    ensures FirstValue(opts, opts[k].code) == Some(opts[k].value)
  {
    if k > 0 {
      assert opts[1..][k - 1] == opts[k];
      FirstValueAt(opts[1..], k - 1);
    }
  }

  /** What a reader gets: the bytes that the found option's length byte announces. */
  function Lookup(mem: seq<byte>, cmd: byte, i: nat): Option<seq<byte>>
    requires |mem| > WINDOW
  {
    match FoundFrom(mem, cmd, i)
    case None => None
    case Some(p) =>
      var end := p + 2 + mem[p + 1];
      if end <= |mem| then Some(mem[p + 2..end]) else None
  }

  predicate Writable(opts: seq<Opt>) {
    forall i :: 0 <= i < |opts| ==> opts[i].code != END && |opts[i].value| < 256
  }

  /** How an option at the head of `mem[at..]` reads. */
  lemma HeadOption(mem: seq<byte>, at: nat, o: Opt, rest: seq<byte>)
    requires at <= |mem| && mem[at..] == OptBytes(o) + rest && |o.value| < 256
    ensures at + 2 + |o.value| <= |mem|
    ensures mem[at] == o.code && mem[at + 1] == |o.value|
    ensures mem[at + 2..at + 2 + |o.value|] == o.value
    ensures mem[at + 2 + |o.value|..] == rest
  {
    var tail := mem[at..];
    assert mem[at] == tail[0] && mem[at + 1] == tail[1];
    assert mem[at + 2..at + 2 + |o.value|] == tail[2..2 + |o.value|];
    assert mem[at + 2 + |o.value|..] == tail[2 + |o.value|..];
  }

  /** The finder steps over an option with another code, reads one with its own, and stops at END. */
  lemma LookupStep(mem: seq<byte>, at: nat, cmd: byte)
    requires at < WINDOW < |mem| && cmd != END
    ensures var end := at + 2 + mem[at + 1];
            && (mem[at] == END ==> Lookup(mem, cmd, at) == None)
            && (mem[at] == cmd && end <= |mem| ==> Lookup(mem, cmd, at) == Some(mem[at + 2..end]))
            && (mem[at] != END && mem[at] != cmd ==> Lookup(mem, cmd, at) == Lookup(mem, cmd, end))
  {
    var end := at + 2 + mem[at + 1];
    if mem[at] != END && mem[at] != cmd {
      var r := FoundFrom(mem, cmd, end);
      assert FoundFrom(mem, cmd, at) == r;
    }
  }

  lemma LookupHead(mem: seq<byte>, at: nat, o: Opt, tail: seq<byte>, cmd: byte)
    requires at < WINDOW < |mem| && mem[at..] == OptBytes(o) + tail
    requires o.code != END && |o.value| < 256 && cmd != END
    ensures at + 2 + |o.value| <= |mem| && mem[at + 2 + |o.value|..] == tail
    ensures Lookup(mem, cmd, at) == if o.code == cmd then Some(o.value) else Lookup(mem, cmd, at + 2 + |o.value|)
  {
    HeadOption(mem, at, o, tail);
    LookupStep(mem, at, cmd);
  }

  lemma LookupAtEnd(mem: seq<byte>, at: nat, junk: seq<byte>, cmd: byte)
    requires at < WINDOW < |mem| && mem[at..] == [END] + junk && cmd != END
    ensures Lookup(mem, cmd, at) == None
  {
    assert mem[at] == mem[at..][0] == END;
    LookupStep(mem, at, cmd);
  }

  lemma EncodeHead(opts: seq<Opt>, tail: seq<byte>)
    requires opts != []
    ensures Encode(opts) + tail == OptBytes(opts[0]) + (Encode(opts[1..]) + tail)
  {
    assert Encode(opts) == OptBytes(opts[0]) + Encode(opts[1..]);
  }

  lemma {:induction false} LookupFrom(mem: seq<byte>, at: nat, opts: seq<Opt>, junk: seq<byte>, cmd: byte)
    requires Writable(opts) && cmd != END
    requires at + |Encode(opts)| < WINDOW < |mem|
    requires mem[at..] == Encode(opts) + ([END] + junk)
    ensures Lookup(mem, cmd, at) == FirstValue(opts, cmd)
    decreases |opts|
  {
    if opts == [] {
      LookupAtEnd(mem, at, junk, cmd);
    } else {
      var o, rest := opts[0], opts[1..];
      var tail := Encode(rest) + ([END] + junk);
      EncodeHead(opts, [END] + junk);
      LookupHead(mem, at, o, tail, cmd);
      if o.code != cmd {
        LookupFrom(mem, at + 2 + |o.value|, rest, junk, cmd);
      }
    }
  }

  /**
   Option round trip: whatever options are written into the window and closed with END, and
   whatever memory follows, the finder finds the first option with the wanted code, with exactly
   the value that was written, and finds nothing when there is none.
   */
  lemma FindsWhatWasWritten(opts: seq<Opt>, junk: seq<byte>, cmd: byte)
    requires Writable(opts) && cmd != END
    requires |Encode(opts)| < WINDOW < |Encode(opts) + ([END] + junk)|
    ensures Lookup(Encode(opts) + ([END] + junk), cmd, 0) == FirstValue(opts, cmd)
  {
    var mem := Encode(opts) + ([END] + junk);
    assert mem[0..] == mem;
    LookupFrom(mem, 0, opts, junk, cmd);
  }

  /** The result never depends on memory after the window. */
  lemma {:induction false} FindIgnoresMemoryBeyond(mem: seq<byte>, mem': seq<byte>, cmd: byte, i: nat)
    requires |mem| > WINDOW && |mem'| > WINDOW && mem[..WINDOW] == mem'[..WINDOW]
    ensures FoundFrom(mem, cmd, i) == FoundFrom(mem', cmd, i)
    decreases WINDOW - i
  {
    if i < WINDOW {
      assert mem[i] == mem[..WINDOW][i] == mem'[i];
      if mem[i] != END && mem[i] != cmd {
        if i + 1 < WINDOW {
          assert mem[i + 1] == mem[..WINDOW][i + 1] == mem'[i + 1];
          FindIgnoresMemoryBeyond(mem, mem', cmd, i + 2 + mem[i + 1]);
        }
      }
    }
  }

  /**
   The bound on values is exact: the length byte of a value of 256 bytes or more has wrapped, so a
   value survives being written exactly when it is shorter than that.
   */
  lemma LongValueIsCut(o: Opt, junk: seq<byte>)
    requires o.code != END
    requires |OptBytes(o) + ([END] + junk)| > WINDOW
    ensures Lookup(OptBytes(o) + ([END] + junk), o.code, 0) == Some(o.value) <==> |o.value| < 256
  {
    var mem := OptBytes(o) + ([END] + junk);
    assert mem[0] == o.code && mem[1] == |o.value| % 256;
    assert FoundFrom(mem, o.code, 0) == Some(0);
    if |o.value| < 256 {
      assert mem[2..2 + |o.value|] == o.value;
    } else {
      assert |mem[2..2 + mem[1]]| < 256;
    }
  }

  // ------------------------------------------------------------------------------ in literal bytes

  /** A message type and an address, as they are on the wire. */
  lemma OptionsOnTheWire(t: byte, a: byte, b: byte, c: byte, d: byte)
    ensures Encode([Opt(53, [t]), Opt(50, [a, b, c, d])]) + [END] == [53, 1, t, 50, 4, a, b, c, d, 255]
  {
    var first, last := Opt(53, [t]), Opt(50, [a, b, c, d]);
    assert [first, last][1..] == [last] && [last][1..] == [];
    assert Encode([last]) == OptBytes(last) + Encode([]);
    assert Encode([first, last]) == OptBytes(first) + Encode([last]);
  }

  /** A 32-bit value has its high byte first. */
  lemma WordOnTheWire(a: byte, b: byte, c: byte, d: byte)
    ensures BigEndian(0x100_0000 * a + 0x1_0000 * b + 0x100 * c + d) == [a, b, c, d]
  {
    var v := 0x100_0000 * a as int + 0x1_0000 * b as int + 0x100 * c as int + d as int;
    Words.FourBytes(v, a, b, c, d);
    LowByte(0x1_0000 * a + 0x100 * b + c, d);
    LowByte(0x100 * a + b, c);
    LowByte(a, b);
  }
}
