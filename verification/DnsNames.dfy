/**
 Domain names in DNS packets (sections 3.1 and 4.1.4 of RFC 1035): the server's walk over labels and
 compression pointers, and the names that it decodes.
 */
module DnsNames {
  import opened Bytes
  import opened FiniteSets

  const HEADER_SIZE := 12
  const COMPRESSED: byte := 0xC0

  type Label = seq<byte>

  function Target(buf: seq<byte>, i: nat): nat
    requires i + 1 < |buf|
  {
    buf[i] as int % 64 * 256 + buf[i + 1] as int
  }

  /** A pointer is its two bytes, high byte first, without the two bits that mark it. */
  lemma PointerTarget(buf: seq<byte>, i: nat, high: nat, low: byte)
    requires i + 1 < |buf| && high < 64 && buf[i] == 192 + high && buf[i + 1] == low
    ensures Target(buf, i) == 256 * high + low
  {
  }

  // ------------------------------------------------------------------------------ what the code reads

  /**
   The offset where following pointers from `i` ends, within `hops` of them; the code takes any byte
   with one of its two top bits set for a pointer.  None if there are more.
   */
  function Settle(buf: seq<byte>, i: nat, max: nat, hops: nat): Option<nat>
    requires max < |buf|
    decreases hops
  {
    if i >= max || buf[i] < 64 then Some(i)
    else if hops == 0 then None
    else Settle(buf, Target(buf, i), max, hops - 1)
  }

  /** Once the walk settles, more hops change nothing. */
  lemma {:induction false} MoreHops(buf: seq<byte>, i: nat, max: nat, hops: nat, more: nat)
    requires max < |buf| && hops <= more && Settle(buf, i, max, hops).Some?
    ensures Settle(buf, i, max, more) == Settle(buf, i, max, hops)
    decreases hops
  {
    if i < max && buf[i] >= 64 {
      MoreHops(buf, Target(buf, i), max, hops - 1, more - 1);
    }
  }

  /** The pointers from which following pointers ends within `hops` of them. */
  function Settling(buf: seq<byte>, max: nat, hops: nat): set<nat>
    requires max < |buf|
  {
    set i: nat | i < max && buf[i] >= 64 && Settle(buf, i, max, hops).Some?
  }

  /** If following pointers from `i` takes exactly `hops` of them, there are that many such pointers. */
  lemma {:induction false} EachHopIsAnother(buf: seq<byte>, i: nat, max: nat, hops: nat)
    requires max < |buf| && hops > 0
    requires Settle(buf, i, max, hops).Some? && Settle(buf, i, max, hops - 1).None?
    ensures |Settling(buf, max, hops)| >= hops
    decreases hops
  {
    var all := Settling(buf, max, hops);
    assert i in all;
    if hops > 1 {
      var fewer := Settling(buf, max, hops - 1);
      EachHopIsAnother(buf, Target(buf, i), max, hops - 1);
      assert i !in fewer;
      forall k | k in fewer
        ensures k in all
      {
        MoreHops(buf, k, max, hops - 1, hops);
      }
      SubsetSize(fewer + {i}, all);
    } else {
      SubsetSize({i}, all);
    }
  }

  /**
   Exactly when following pointers comes to an end: when it does within `max` of them, which is how
   many offsets there are to come to.
   */
  lemma EndsIffWithinMax(buf: seq<byte>, i: nat, max: nat)
    requires max < |buf|
    ensures (exists hops: nat :: Settle(buf, i, max, hops).Some?) <==> Settle(buf, i, max, max).Some?
  {
    if hops: nat :| Settle(buf, i, max, hops).Some? {
      EndsWithinMax(buf, i, max, hops);
    }
  }

  lemma {:induction false} EndsWithinMax(buf: seq<byte>, i: nat, max: nat, hops: nat)
    requires max < |buf| && Settle(buf, i, max, hops).Some?
    ensures Settle(buf, i, max, max) == Settle(buf, i, max, hops)
    decreases hops
  {
    if hops <= max {
      MoreHops(buf, i, max, hops, max);
    } else if Settle(buf, i, max, hops - 1).Some? {
      MoreHops(buf, i, max, hops - 1, hops);
      EndsWithinMax(buf, i, max, hops - 1);
    } else {
      EachHopIsAnother(buf, i, max, hops);
      BoundedSetSize(Settling(buf, max, hops), max);
      assert false;
    }
  }

  /** In particular never from a pointer to itself: on such a packet the code does not return. */
  lemma {:induction false} SelfPointerNeverSettles(buf: seq<byte>, i: nat, max: nat, hops: nat)
    requires i < max < |buf| && buf[i] >= 64 && Target(buf, i) == i
    ensures Settle(buf, i, max, hops).None?
  {
    if hops > 0 {
      SelfPointerNeverSettles(buf, i, max, hops - 1);
    }
  }

  datatype Found = Looping | End | Component(text: Label, next: nat)

  /** What get_encoded_domain_name_component gives from offset `off`. */
  function Next(buf: seq<byte>, off: nat, max: nat): (found: Found)
    requires max < |buf|
    ensures found.Component? ==> found.next <= max
  {
    match Settle(buf, off, max, max)
    case None => Looping
    case Some(i) =>
      if i >= max || buf[i] >= 64 || i + buf[i] >= max || buf[i] == 0 then End
      else Component(buf[i + 1..i + 1 + buf[i]], i + 1 + buf[i])
  }

  /** get_encoded_domain_name_component, whenever following pointers comes to an end. */
  method GetComponent(buf: seq<byte>, offset0: nat, max: nat) returns (component: Option<Label>, offset: nat)
    requires max < |buf| && Settle(buf, offset0, max, max).Some?
    ensures match Next(buf, offset0, max)
            case Component(text, next) => component == Some(text) && offset == next
            case _ => component == None && offset == offset0
  {
    offset := offset0;
    var i := offset;
    ghost var left: nat := max;
    while i < max
      invariant 0 <= i && Settle(buf, i, max, left).Some?
      invariant Settle(buf, offset0, max, max) == Settle(buf, i, max, left)
      decreases left
    {
      if buf[i] >= 64 {
        i := Target(buf, i);
        left := left - 1;
      } else {
        var len := buf[i];
        if i + len >= max || len == 0 {
          return None, offset;
        }
        i := i + 1;
        return Some(buf[i..i + len]), i + len;
      }
    }
    component := None;
  }

  /** The labels that repeated calls yield from `off`, if the calls come to an end within `fuel`. */
  function Walk(buf: seq<byte>, off: nat, max: nat, fuel: nat): Option<seq<Label>>
    requires max < |buf|
    decreases fuel
  {
    if fuel == 0 then None
    else
      match Next(buf, off, max)
      case Looping => None
      case End => Some([])
      case Component(text, next) =>
        match Walk(buf, next, max, fuel - 1)
        case None => None
        case Some(labels) => Some([text] + labels)
  }

  lemma {:induction false} MoreFuel(buf: seq<byte>, off: nat, max: nat, fuel: nat, more: nat)
    requires max < |buf| && fuel <= more && Walk(buf, off, max, fuel).Some?
    ensures Walk(buf, off, max, more) == Walk(buf, off, max, fuel)
    decreases fuel
  {
    var found := Next(buf, off, max);
    if found.Component? {
      MoreFuel(buf, found.next, max, fuel - 1, more - 1);
    }
  }

  /** The offsets of the packet from which repeated calls come to an end within `fuel` of them. */
  function Ending(buf: seq<byte>, max: nat, fuel: nat): set<nat>
    requires max < |buf|
  {
    set i: nat | i < max + 1 && Walk(buf, i, max, fuel).Some?
  }

  /** If it takes exactly `fuel` calls to come to an end from `off`, there are that many such offsets. */
  lemma {:induction false} EachCallIsAnother(buf: seq<byte>, off: nat, max: nat, fuel: nat)
    requires max < |buf| && fuel > 0 && off <= max
    requires Walk(buf, off, max, fuel).Some? && Walk(buf, off, max, fuel - 1).None?
    ensures |Ending(buf, max, fuel)| >= fuel
    decreases fuel
  {
    var all := Ending(buf, max, fuel);
    assert off in all;
    if fuel > 1 {
      var fewer := Ending(buf, max, fuel - 1);
      EachCallIsAnother(buf, Next(buf, off, max).next, max, fuel - 1);
      assert off !in fewer;
      forall k | k in fewer
        ensures k in all
      {
        MoreFuel(buf, k, max, fuel - 1, fuel);
      }
      SubsetSize(fewer + {off}, all);
    } else {
      SubsetSize({off}, all);
    }
  }

  lemma {:induction false} WalkEndsWithinMax(buf: seq<byte>, off: nat, max: nat, fuel: nat)
    requires max < |buf| && Walk(buf, off, max, fuel).Some?
    ensures Walk(buf, off, max, max + 1) == Walk(buf, off, max, fuel)
    decreases fuel
  {
    if off > max {
      MoreFuel(buf, off, max, 1, fuel);
      MoreFuel(buf, off, max, 1, max + 1);
    } else if fuel <= max + 1 {
      MoreFuel(buf, off, max, fuel, max + 1);
    } else if Walk(buf, off, max, fuel - 1).Some? {
      MoreFuel(buf, off, max, fuel - 1, fuel);
      WalkEndsWithinMax(buf, off, max, fuel - 1);
    } else {
      EachCallIsAnother(buf, off, max, fuel);
      BoundedSetSize(Ending(buf, max, fuel), max + 1);
      assert false;
    }
  }

  /** Exactly when repeated calls come to an end: when they do within `max + 1` calls. */
  lemma WalkEndsIffWithinMax(buf: seq<byte>, off: nat, max: nat)
    requires max < |buf|
    ensures (exists fuel: nat :: Walk(buf, off, max, fuel).Some?) <==> Walk(buf, off, max, max + 1).Some?
  {
    if fuel: nat :| Walk(buf, off, max, fuel).Some? {
      WalkEndsWithinMax(buf, off, max, fuel);
    }
  }

  // ------------------------------------------------------------------------------ what the RFC means

  /**
   The name `labels` is at offset `off`, in a run of labels that began at `seg`: labels of 1 to 63
   bytes, ended by a zero byte or by a pointer to a name that is before `seg`.
   */
  ghost predicate NameAt(buf: seq<byte>, off: nat, seg: nat, max: nat, labels: seq<Label>)
    requires max <= |buf|
    decreases seg, max - off
  {
    off < max &&
    if buf[off] == 0 then labels == []
    else if buf[off] < 64 then
      && labels != []
      && off + 1 + buf[off] <= max
      && buf[off + 1..off + 1 + buf[off]] == labels[0]
      && NameAt(buf, off + 1 + buf[off], seg, max, labels[1..])
    else
      && buf[off] >= 192
      && off + 1 < max
      && Target(buf, off) < seg
      && NameAt(buf, Target(buf, off), Target(buf, off), max, labels)
  }

  /** A pointer yields what its target yields. */
  lemma ThroughPointer(buf: seq<byte>, off: nat, max: nat, fuel: nat)
    requires off < max < |buf| && buf[off] >= 64 && Walk(buf, Target(buf, off), max, fuel).Some?
    ensures Walk(buf, off, max, fuel) == Walk(buf, Target(buf, off), max, fuel)
  {
    var target := Target(buf, off);
    EndsWithinMax(buf, off, max, max + 1);
    assert Settle(buf, off, max, max + 1) == Settle(buf, target, max, max);
    assert Next(buf, off, max) == Next(buf, target, max);
  }

  /**
   Decoding is correct and terminates: on every well-formed name the code's calls come to an end, and
   yield exactly the labels of the name.
   */
  lemma WalkDecodesName(buf: seq<byte>, off: nat, seg: nat, max: nat, labels: seq<Label>)
    requires max < |buf| && NameAt(buf, off, seg, max, labels)
    ensures Walk(buf, off, max, max + 1) == Some(labels)
  {
    var fuel := CallsForName(buf, off, seg, max, labels);
    WalkEndsWithinMax(buf, off, max, fuel);
  }

  lemma {:induction false} CallsForName(buf: seq<byte>, off: nat, seg: nat, max: nat, labels: seq<Label>) returns (fuel: nat)
    requires max < |buf| && NameAt(buf, off, seg, max, labels)
    ensures Walk(buf, off, max, fuel) == Some(labels)
    decreases seg, max - off
  {
    if buf[off] == 0 {
      AtEnd(buf, off, max);
      fuel := 1;
    } else if buf[off] < 64 {
      var next := off + 1 + buf[off];
      var f := CallsForName(buf, next, seg, max, labels[1..]);
      PastLabel(buf, off, max, f, labels);
      fuel := f + 1;
    } else {
      var target := Target(buf, off);
      fuel := CallsForName(buf, target, target, max, labels);
      ThroughPointer(buf, off, max, fuel);
    }
  }

  /** A zero byte ends the walk. */
  lemma AtEnd(buf: seq<byte>, off: nat, max: nat)
    requires off < max < |buf| && buf[off] == 0
    ensures Walk(buf, off, max, 1) == Some([])
  {
  }

  /** A label is followed by what comes after it. */
  lemma PastLabel(buf: seq<byte>, off: nat, max: nat, fuel: nat, labels: seq<Label>)
    requires off < max < |buf| && 0 < buf[off] < 64 && off + 1 + buf[off] <= max && labels != []
    requires buf[off + 1..off + 1 + buf[off]] == labels[0]
    requires Walk(buf, off + 1 + buf[off], max, fuel) == Some(labels[1..])
    ensures Walk(buf, off, max, fuel + 1) == Some(labels)
  {
    assert Next(buf, off, max) == Component(labels[0], off + 1 + buf[off]);
    assert [labels[0]] + labels[1..] == labels;
  }

  /** So a packet has at most one name at an offset. */
  lemma NameIsUnique(buf: seq<byte>, off: nat, seg: nat, seg': nat, max: nat, a: seq<Label>, b: seq<Label>)
    requires max < |buf| && NameAt(buf, off, seg, max, a) && NameAt(buf, off, seg', max, b)
    ensures a == b
  {
    WalkDecodesName(buf, off, seg, max, a);
    WalkDecodesName(buf, off, seg', max, b);
  }

  /** A pointer to a name that is before it, high byte first after the two marking bits, is that name too. */
  lemma PointerIsName(buf: seq<byte>, off: nat, max: nat, high: nat, low: byte, labels: seq<Label>)
    requires off + 2 <= max <= |buf| && high < 64 && buf[off] == 192 + high && buf[off + 1] == low
    requires 256 * high + low < off && NameAt(buf, 256 * high + low, 256 * high + low, max, labels)
    ensures NameAt(buf, off, off, max, labels)
  {
    PointerTarget(buf, off, high, low);
  }

  // -------------------------------------------------------------------------------- writing names

  predicate Encodable(labels: seq<Label>) {
    forall l :: l in labels ==> 0 < |l| < 64
  }

  function Wire(labels: seq<Label>): seq<byte>
    requires Encodable(labels)
  {
    if labels == [] then [0] else [|labels[0]|] + labels[0] + Wire(labels[1..])
  }

  /** A name without compression is a name, and the only one there. */
  lemma {:induction false} WireIsName(buf: seq<byte>, off: nat, max: nat, labels: seq<Label>)
    requires forall l :: l in labels ==> 1 <= |l| <= 63
    requires off + |Wire(labels)| <= max <= |buf|
    requires buf[off..off + |Wire(labels)|] == Wire(labels)
    ensures NameAt(buf, off, off, max, labels)
  {
    WireFrom(buf, off, off, max, labels);
  }

  lemma {:induction false} WireFrom(buf: seq<byte>, off: nat, seg: nat, max: nat, labels: seq<Label>)
    requires Encodable(labels) && off + |Wire(labels)| <= max <= |buf|
    requires buf[off..off + |Wire(labels)|] == Wire(labels)
    ensures NameAt(buf, off, seg, max, labels)
    decreases |labels|
  {
    if labels == [] {
      assert buf[off] == buf[off..off + 1][0];
    } else {
      assert labels[0] in labels;
      var n, rest := |labels[0]|, Wire(labels[1..]);
      assert Wire(labels) == [n] + labels[0] + rest;
      WireHead(buf, off, labels[0], rest);
      WireFrom(buf, off + 1 + n, seg, max, labels[1..]);
      assert NameAt(buf, off, seg, max, labels);
    }
  }

  lemma WireHead(buf: seq<byte>, off: nat, first: Label, rest: seq<byte>)
    requires |first| < 64 && off + 1 + |first| + |rest| <= |buf|
    requires buf[off..off + 1 + |first| + |rest|] == [|first|] + first + rest
    ensures buf[off] == |first| && buf[off + 1..off + 1 + |first|] == first
    ensures buf[off + 1 + |first|..off + 1 + |first| + |rest|] == rest
  {
    var n, m := |first|, |rest|;
    var w := buf[off..off + 1 + n + m];
    assert w[0] == n && w[1..1 + n] == first && w[1 + n..1 + n + m] == rest;
    assert forall k :: 0 <= k < 1 + n + m ==> w[k] == buf[off + k];
    assert buf[off + 1..off + 1 + n] == w[1..1 + n];
    assert buf[off + 1 + n..off + 1 + n + m] == w[1 + n..1 + n + m];
  }

  /** Bytes after the end of a name's part of the packet do not matter to it. */
  lemma {:induction false} NameInLongerPacket(buf: seq<byte>, buf': seq<byte>, off: nat, seg: nat, max: nat, max': nat, labels: seq<Label>)
    requires max <= |buf| && max <= max' <= |buf'| && buf'[..max] == buf[..max]
    requires NameAt(buf, off, seg, max, labels)
    ensures NameAt(buf', off, seg, max', labels)
    decreases seg, max - off
  {
    SameByte(buf, buf', max, off);
    if 0 < buf[off] < 64 {
      var next := off + 1 + buf[off];
      assert buf'[off + 1..next] == buf'[..max][off + 1..next];
      assert buf[off + 1..next] == buf[..max][off + 1..next];
      NameInLongerPacket(buf, buf', next, seg, max, max', labels[1..]);
    } else if buf[off] >= 64 {
      SameByte(buf, buf', max, off + 1);
      NameInLongerPacket(buf, buf', Target(buf, off), Target(buf, off), max, max', labels);
    }
  }

  lemma SameByte(buf: seq<byte>, buf': seq<byte>, max: nat, i: nat)
    requires i < max <= |buf| && max <= |buf'| && buf'[..max] == buf[..max]
    ensures buf'[i] == buf[i]
  {
    assert buf'[i] == buf'[..max][i] && buf[i] == buf[..max][i];
  }

  /** Type, class, time to live and length of an A record. */
  const RECORD: seq<byte> := [0, 1, 0, 1, 0, 0, 0, 1, 0, 4]

  /** The name of an answer: a pointer to the queried name, after the query. */
  method AppendPointer(packet: array<byte>, done: nat)
    requires done + 2 <= packet.Length
    modifies packet
    ensures packet[..done] == old(packet[..done])
    ensures packet[done] == COMPRESSED && packet[done + 1] == HEADER_SIZE
  {
    packet[done] := COMPRESSED;
    packet[done + 1] := HEADER_SIZE;
  }

  /** The rest of an answer: an A record. */
  method AppendRecord(packet: array<byte>, done: nat, ip: seq<byte>) returns (size: nat)
    requires |ip| == 4 && done + 16 <= packet.Length
    modifies packet
    ensures size == done + 16
    ensures packet[..done + 2] == old(packet[..done + 2])
    ensures packet[done + 2..size] == RECORD + ip
  {
    var record := RECORD + ip;
    forall k | 0 <= k < 14 {
      packet[done + 2 + k] := record[k];
    }
    size := done + 16;
    assert packet[done + 2..size] == record;
  }

  /** The pointer that is appended leads to the queried name. */
  lemma AnswerName(before: seq<byte>, after: seq<byte>, done: nat, labels: seq<Label>)
    requires HEADER_SIZE < done <= |before| && done + 16 <= |after| && after[..done] == before[..done]
    requires NameAt(before, HEADER_SIZE, HEADER_SIZE, done, labels)
    requires after[done] == COMPRESSED && after[done + 1] == HEADER_SIZE
    ensures NameAt(after, done, done, done + 16, labels)
  {
    assert Target(after, done) == HEADER_SIZE;
    NameInLongerPacket(before, after, HEADER_SIZE, HEADER_SIZE, done, done + 16, labels);
  }
}
