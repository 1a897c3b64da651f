/**
 Which address the DNS server gives for a name: its own if the name is that of this host, in the
 configured domain, and otherwise the secondary one.
 */
module DnsAnswers {
  import opened Bytes
  import opened CStrings
  import opened Words
  import opened DnsNames

  const DOT: byte := 46

  datatype Settings = Settings(primaryIp: nat, secondaryIp: nat, hostName: seq<byte>, domainName: Option<seq<byte>>,
                               ignoreNetworkSuffix: bool)
  {
    /** Host and domain name are C strings. */
    ghost predicate Valid() {
      NulFree(hostName) && (domainName.Some? ==> NulFree(domainName.value))
    }
  }

  // ---------------------------------------------------------------------------- the configured domain

  /** get_next_domain_name_component: the component at `pos`, and where the next one is. */
  function NextComponent(domain: Option<seq<byte>>, pos: nat): (r: Option<(seq<byte>, nat)>)
    requires domain.Some? ==> pos <= |domain.value|
    ensures r.Some? ==> domain.Some? && pos < r.value.1 <= |domain.value| && |r.value.0| <= |domain.value| - pos
    ensures r.Some? ==> domain.value[pos..pos + |r.value.0|] == r.value.0
  {
    if domain.None? then None
    else
      var d := domain.value;
      match StrChr(d, pos, DOT)
      case Some(p) => Some((d[pos..p], p + 1))
      case None => if pos < |d| then Some((d[pos..], |d|)) else None
  }

  /** The components that repeated calls give from `pos` on. */
  function Components(domain: Option<seq<byte>>, pos: nat): seq<seq<byte>>
    requires domain.Some? ==> pos <= |domain.value|
    decreases if domain.Some? then |domain.value| - pos else 0
  {
    match NextComponent(domain, pos)
    case None => []
    case Some((c, next)) => [c] + Components(domain, next)
  }

  function Dotted(components: seq<seq<byte>>): seq<byte> {
    if components == [] then []
    else if |components| == 1 then components[0]
    else components[0] + [46] + Dotted(components[1..])
  }

  lemma {:induction false} StrChrIsFirst(mem: seq<byte>, i: nat, c: byte)
    requires NulFree(mem)
    ensures match StrChr(mem, i, c)
            case Some(p) => i <= p < |mem| && mem[p] == c && forall j :: i <= j < p ==> mem[j] != c
            case None => forall j :: i <= j < |mem| ==> mem[j] != c
    decreases |mem| - i
  {
    if i < |mem| && mem[i] != c {
      StrChrIsFirst(mem, i + 1, c);
    }
  }

  predicate NoDot(c: seq<byte>) {
    forall j :: 0 <= j < |c| ==> c[j] != 46
  }

  /** How a list of components is the string `rest` split at its dots. */
  ghost predicate SplitOf(rest: seq<byte>, cs: seq<seq<byte>>) {
    && (forall k :: 0 <= k < |cs| ==> NoDot(cs[k]))
    && (cs == [] <==> rest == [])
    && (rest == Dotted(cs) || rest == Dotted(cs) + [46])
  }

  /** The components are the domain name split at its dots; a dot at the very end starts no component. */
  lemma {:induction false} ComponentsSplitAtDots(d: seq<byte>, pos: nat)
    requires NulFree(d) && pos <= |d|
    ensures SplitOf(d[pos..], Components(Some(d), pos))
    decreases |d| - pos
  {
    var p := StrChr(d, pos, DOT);
    if p.Some? {
      ComponentsSplitAtDots(d, p.value + 1);
      SplitAtDot(d, pos, p.value);
    } else {
      LastComponent(d, pos);
    }
  }

  lemma SplitAtDot(d: seq<byte>, pos: nat, p: nat)
    requires NulFree(d) && pos <= |d| && StrChr(d, pos, DOT) == Some(p)
    requires SplitOf(d[p + 1..], Components(Some(d), p + 1))
    ensures SplitOf(d[pos..], Components(Some(d), pos))
  {
    var c, cs, rest := d[pos..p], Components(Some(d), p + 1), d[p + 1..];
    ComponentsAtDot(d, pos, p);
    CutAtDot(d, pos, p);
    SplitAfterDot(c, cs, rest);
  }

  lemma ComponentsAtDot(d: seq<byte>, pos: nat, p: nat)
    requires pos <= |d| && StrChr(d, pos, DOT) == Some(p)
    ensures Components(Some(d), pos) == [d[pos..p]] + Components(Some(d), p + 1)
  {
  }

  lemma LastComponent(d: seq<byte>, pos: nat)
    requires NulFree(d) && pos <= |d| && StrChr(d, pos, DOT) == None
    ensures SplitOf(d[pos..], Components(Some(d), pos))
  {
    StrChrIsFirst(d, pos, DOT);
    if pos < |d| {
      assert Components(Some(d), |d|) == [];
      SplitAlone(d[pos..]);
      assert Components(Some(d), pos) == [d[pos..]] + [];
    }
  }

  lemma CutAtDot(d: seq<byte>, pos: nat, p: nat)
    requires NulFree(d) && StrChr(d, pos, DOT) == Some(p)
    ensures NoDot(d[pos..p]) && d[pos..] == d[pos..p] + [DOT] + d[p + 1..]
  {
    StrChrIsFirst(d, pos, DOT);
    assert forall j :: 0 <= j < p - pos ==> d[pos..p][j] == d[pos + j];
  }

  lemma SplitAlone(c: seq<byte>)
    requires c != [] && NoDot(c)
    ensures SplitOf(c, [c] + [])
  {
    assert Dotted([c]) == c;
  }

  lemma SplitAfterDot(c: seq<byte>, cs: seq<seq<byte>>, rest: seq<byte>)
    requires NoDot(c) && SplitOf(rest, cs)
    ensures SplitOf(c + [DOT] + rest, [c] + cs)
  {
    DotAfter(c, cs, rest);
  }

  lemma DotAfter(c: seq<byte>, cs: seq<seq<byte>>, rest: seq<byte>)
    requires rest == Dotted(cs) || rest == Dotted(cs) + [DOT]
    requires cs == [] <==> rest == []
    ensures c + [DOT] + rest == Dotted([c] + cs) || c + [DOT] + rest == Dotted([c] + cs) + [DOT]
  {
    assert ([c] + cs)[1..] == cs;
    if cs == [] {
      assert c + [DOT] + rest == c + [DOT];
    } else {
      assert Dotted([c] + cs) == c + [DOT] + Dotted(cs);
      assert c + [DOT] + (Dotted(cs) + [DOT]) == c + [DOT] + Dotted(cs) + [DOT];
    }
  }

  // -------------------------------------------------------------------------------------- the verdict

  /** The first label is the beginning of the host name, up to case; a NUL in it passes for the host name's end. */
  ghost predicate MatchesHost(name: Label, host: seq<byte>) {
    if |name| <= |host| then CaseEq(name, host[..|name|])
    else CaseEq(name[..|host|], host) && name[|host|] == 0
  }

  lemma {:induction false} StrNCaseEqFromHost(name: Label, host: seq<byte>, i: nat)
    requires NulFree(host) && i <= |name|
    ensures StrNCaseEqFrom(name, host, |name|, i)
       <==> if |name| <= |host| then forall j :: i <= j < |name| ==> Lower(name[j]) == Lower(host[j])
            else (i > |host| ==> StrNCaseEqFrom(name, host, |name|, i))
                 && (i <= |host| ==> (forall j :: i <= j < |host| ==> Lower(name[j]) == Lower(host[j])) && name[|host|] == 0)
    decreases |name| - i
  {
    if i < |name| && i <= |host| {
      StrNCaseEqFromHost(name, host, i + 1);
    }
  }

  lemma HostComparison(name: Label, host: seq<byte>)
    requires NulFree(host)
    ensures StrNCaseEq(name, host, |name|) <==> MatchesHost(name, host)
  {
    StrNCaseEqFromHost(name, host, 0);
  }

  /** The first `n` labels of a name are those of this host in (a prefix of) its domain. */
  ghost predicate MatchesUpTo(s: Settings, labels: seq<Label>, n: nat)
    requires n <= |labels|
  {
    var components := Components(s.domainName, 0);
    && 0 < n <= |components| + 1
    && MatchesHost(labels[0], s.hostName)
    && forall k :: 1 <= k < n ==> CaseEq(labels[k], components[k - 1])
  }

  /**
   The name is this host's: its first label begins the host name, and unless suffixes are ignored,
   its other labels are the first components of the domain, one by one and to the last label.
   */
  ghost predicate IsOurs(s: Settings, labels: seq<Label>) {
    && labels != []
    && MatchesHost(labels[0], s.hostName)
    && (s.ignoreNetworkSuffix || MatchesUpTo(s, labels, |labels|))
  }

  /** The address that the server gives for a name. */
  ghost function AddressFor(s: Settings, labels: seq<Label>): nat {
    if IsOurs(s, labels) then s.primaryIp else s.secondaryIp
  }

  /** A component of the domain name is compared without regard to what follows it. */
  lemma {:induction false} ComponentComparisonFrom(name: Label, domain: seq<byte>, pos: nat, n: nat, i: nat)
    requires NulFree(domain) && i <= n == |name| && pos + n <= |domain|
    ensures StrNCaseEqFrom(name, domain[pos..], n, i) <==> forall j :: i <= j < n ==> Lower(name[j]) == Lower(domain[pos + j])
    decreases n - i
  {
    if i < n {
      ComponentComparisonFrom(name, domain, pos, n, i + 1);
    }
  }

  lemma ComponentComparison(name: Label, domain: seq<byte>, pos: nat, component: seq<byte>)
    requires NulFree(domain) && pos + |component| <= |domain| && component == domain[pos..pos + |component|]
    requires |name| == |component|
    ensures StrNCaseEq(name, domain[pos..], |name|) <==> CaseEq(name, component)
  {
    ComponentComparisonFrom(name, domain, pos, |name|, 0);
    assert forall j :: 0 <= j < |component| ==> component[j] == domain[pos + j];
  }

  /** The loop holds component `k` of the domain name, which is at `compPos`; the next one is at `nextPos`. */
  ghost predicate AtComponent(s: Settings, k: nat, comp: Option<seq<byte>>, compPos: nat, nextPos: nat) {
    var components := Components(s.domainName, 0);
    && (s.domainName.Some? ==> nextPos <= |s.domainName.value|)
    && k <= |components|
    && if comp.None? then k == |components|
       else
         && s.domainName.Some? && compPos + |comp.value| <= |s.domainName.value|
         && comp.value == s.domainName.value[compPos..compPos + |comp.value|]
         && components[k..] == [comp.value] + Components(s.domainName, nextPos)
  }

  /** The component after component `k - 1`. */
  method Advance(s: Settings, ghost k: nat, pos: nat) returns (comp: Option<seq<byte>>, compPos: nat, nextPos: nat)
    requires s.domainName.Some? ==> pos <= |s.domainName.value|
    requires k <= |Components(s.domainName, 0)| && Components(s.domainName, 0)[k..] == Components(s.domainName, pos)
    ensures AtComponent(s, k, comp, compPos, nextPos)
  {
    compPos, nextPos := pos, pos;
    match NextComponent(s.domainName, pos)
    case None => comp := None;
    case Some((c, next)) => comp, nextPos := Some(c), next;
  }

  lemma NextAfter(s: Settings, k: nat, comp: Option<seq<byte>>, compPos: nat, nextPos: nat)
    requires AtComponent(s, k, comp, compPos, nextPos) && comp.Some?
    ensures var components := Components(s.domainName, 0);
            k < |components| && components[k] == comp.value && components[k + 1..] == Components(s.domainName, nextPos)
  {
    var components := Components(s.domainName, 0);
    assert components[k] == components[k..][0];
    assert components[k + 1..] == components[k..][1..];
  }

  /** From `offset` on, the labels after the first `i` are still to come, within `fuel` calls. */
  ghost predicate LabelsLeft(buf: seq<byte>, offset: nat, max: nat, fuel: nat, labels: seq<Label>, i: nat)
    requires max < |buf|
  {
    i <= |labels| && Walk(buf, offset, max, fuel) == Some(labels[i..])
  }

  /** One call gives label `i`, if there is one. */
  method TakeLabel(buf: seq<byte>, offset: nat, max: nat, ghost fuel: nat, ghost labels: seq<Label>, ghost i: nat)
    returns (component: Option<Label>, next: nat)
    requires max < |buf| && LabelsLeft(buf, offset, max, fuel, labels, i)
    ensures fuel > 0 && (component.None? <==> i == |labels|)
    ensures component.Some? ==> component.value == labels[i] && LabelsLeft(buf, next, max, fuel - 1, labels, i + 1)
  {
    component, next := GetComponent(buf, offset, max);
    assert component.Some? ==> Next(buf, offset, max) == Component(component.value, next);
    assert i < |labels| ==> labels[i..][0] == labels[i] && labels[i..][1..] == labels[i + 1..];
  }

  /** One more label matches if and only if it is the component that the loop holds. */
  lemma MatchesOneMore(s: Settings, labels: seq<Label>, i: nat, comp: Option<seq<byte>>, compPos: nat, nextPos: nat)
    requires s.Valid() && 0 < i < |labels|
    requires MatchesUpTo(s, labels, i) ==> AtComponent(s, i - 1, comp, compPos, nextPos)
    ensures MatchesUpTo(s, labels, i + 1)
       <==> MatchesUpTo(s, labels, i) && comp.Some? && |labels[i]| == |comp.value|
            && StrNCaseEq(labels[i], s.domainName.value[compPos..], |labels[i]|)
  {
    if MatchesUpTo(s, labels, i) && comp.Some? {
      NextAfter(s, i - 1, comp, compPos, nextPos);
      if |labels[i]| == |comp.value| {
        ComponentComparison(labels[i], s.domainName.value, compPos, comp.value);
      }
    }
  }

  /** The loop's flags and component after `i` labels. */
  datatype Progress = Progress(matches: bool, looseMatch: bool, comp: Option<seq<byte>>, compPos: nat, nextPos: nat) {
    ghost predicate After(s: Settings, labels: seq<Label>, i: nat) {
      && i <= |labels|
      && (looseMatch <==> i > 0 && MatchesHost(labels[0], s.hostName) && s.ignoreNetworkSuffix)
      && (matches <==> MatchesUpTo(s, labels, i))
      && (i == 0 || matches ==> AtComponent(s, if i == 0 then 0 else i - 1, comp, compPos, nextPos))
    }
  }

  /** The body of the loop, for label `i`. */
  method MatchLabel(s: Settings, p: Progress, i: nat, name: Label, ghost labels: seq<Label>) returns (q: Progress)
    requires s.Valid() && p.After(s, labels, i) && i < |labels| && name == labels[i]
    ensures q.After(s, labels, i + 1)
  {
    if i == 0 {
      HostComparison(name, s.hostName);
    } else {
      MatchesOneMore(s, labels, i, p.comp, p.compPos, p.nextPos);
    }
    if i == 0 && StrNCaseEq(name, s.hostName, |name|) {
      q := p.(matches := true);
      if s.ignoreNetworkSuffix {
        q := q.(looseMatch := true);
      }
    } else if i > 0 && p.matches && p.comp.Some? && |name| == |p.comp.value|
              && StrNCaseEq(name, s.domainName.value[p.compPos..], |name|) {
      NextAfter(s, i - 1, p.comp, p.compPos, p.nextPos);
      var comp, compPos, nextPos := Advance(s, i, p.nextPos);
      q := p.(matches := true, comp := comp, compPos := compPos, nextPos := nextPos);
    } else {
      q := p.(matches := false);
    }
  }

  /** Once no label is left, the flags say whether the name is this host's. */
  lemma Verdict(s: Settings, p: Progress, labels: seq<Label>)
    requires p.After(s, labels, |labels|)
    ensures p.matches || p.looseMatch <==> IsOurs(s, labels)
  {
  }

  /** The loop is at label `i`, which is read from `offset`. */
  ghost predicate AtLabel(s: Settings, p: Progress, i: nat, buf: seq<byte>, offset: nat, max: nat, fuel: nat, labels: seq<Label>)
    requires max < |buf|
  {
    LabelsLeft(buf, offset, max, fuel, labels, i) && p.After(s, labels, i)
  }

  /** What the flags and the component are before the loop. */
  method BeforeLabels(s: Settings, buf: seq<byte>, offset: nat, max: nat, ghost labels: seq<Label>) returns (p: Progress)
    requires max < |buf| && Walk(buf, offset, max, max + 1) == Some(labels)
    ensures AtLabel(s, p, 0, buf, offset, max, max + 1, labels)
  {
    var comp, compPos, nextPos := Advance(s, 0, 0);
    p := Progress(false, false, comp, compPos, nextPos);
    assert labels[0..] == labels;
  }

  /** One turn of the loop, from the call for label `i` on; if there is none, the verdict on the name. */
  method Turn(s: Settings, p: Progress, i: nat, buf: seq<byte>, offset: nat, max: nat, ghost fuel: nat, ghost labels: seq<Label>)
    returns (verdict: Option<bool>, q: Progress, next: nat)
    requires s.Valid() && max < |buf| && AtLabel(s, p, i, buf, offset, max, fuel, labels)
    ensures fuel > 0
    ensures verdict.Some? ==> verdict.value == IsOurs(s, labels)
    ensures verdict.None? ==> AtLabel(s, q, i + 1, buf, next, max, fuel - 1, labels)
  {
    var component;
    component, next := TakeLabel(buf, offset, max, fuel, labels, i);
    verdict, q := None, p;
    if component.None? {
      Verdict(s, p, labels);
      verdict := Some(p.matches || p.looseMatch);
    } else {
      q := MatchLabel(s, p, i, component.value, labels);
    }
  }

  /**
   get_address_for_encoded_domain: if the calls for labels come to an end at all, the answer is the
   primary address if the name is this host's, and the secondary address otherwise.
   */
  method AddressForDomain(s: Settings, buf: seq<byte>, offset0: nat, max: nat, ghost labels: seq<Label>) returns (ip: nat)
    requires s.Valid() && max < |buf| && Walk(buf, offset0, max, max + 1) == Some(labels)
    ensures ip == AddressFor(s, labels)
  {
    ghost var fuel: nat := max + 1;
    var p := BeforeLabels(s, buf, offset0, max, labels);
    var offset, i: nat := offset0, 0;
    while true
      invariant AtLabel(s, p, i, buf, offset, max, fuel, labels)
      decreases fuel
    {
      var verdict;
      verdict, p, offset := Turn(s, p, i, buf, offset, max, fuel, labels);
      if verdict.Some? {
        return if verdict.value then s.primaryIp else s.secondaryIp;
      }
      fuel, i := fuel - 1, i + 1;
    }
  }

  /**
   On a well-formed query name of labels without NULs, the primary address is given exactly when the
   first label is a prefix of the host name up to case, and either suffixes are ignored or the other
   labels are, one by one up to case, the first components of the domain name.
   */
  method AddressForName(s: Settings, buf: seq<byte>, max: nat, ghost labels: seq<Label>) returns (ip: nat)
    requires s.Valid() && max < |buf| && NameAt(buf, HEADER_SIZE, HEADER_SIZE, max, labels)
    requires forall l :: l in labels ==> NulFree(l)
    ensures var cs := Components(s.domainName, 0);
            ip == if && labels != []
                     && |labels[0]| <= |s.hostName| && CaseEq(labels[0], s.hostName[..|labels[0]|])
                     && (s.ignoreNetworkSuffix
                         || (|labels| - 1 <= |cs| && forall k :: 1 <= k < |labels| ==> CaseEq(labels[k], cs[k - 1])))
                  then s.primaryIp else s.secondaryIp
  {
    WalkDecodesName(buf, HEADER_SIZE, HEADER_SIZE, max, labels);
    ip := AddressForDomain(s, buf, HEADER_SIZE, max, labels);
    assert labels != [] ==> labels[0] in labels;
  }

  /** An address as it goes into a record: four bytes, in the order in which the processor stores them, the low one first. */
  function AddressBytes(ip: nat): (bytes: seq<byte>)
    ensures |bytes| == 4
  {
    [ip % 256, ip / 256 % 256, ip / 65536 % 256, ip / 16777216 % 256]
  }

  /** The lookup, in the packet in which a query is followed by something else than `before`. */
  method AddressInPacket(s: Settings, packet: array<byte>, done: nat, ghost before: seq<byte>, ghost labels: seq<Label>)
    returns (ip: nat)
    requires s.Valid() && done < |before| && done < packet.Length && packet[..done] == before[..done]
    requires NameAt(before, HEADER_SIZE, HEADER_SIZE, done, labels)
    ensures ip == AddressFor(s, labels)
  {
    QueryIsWalked(before, packet[..], done, labels);
    ip := AddressForDomain(s, packet[..], HEADER_SIZE, done, labels);
  }

  lemma QueryIsWalked(before: seq<byte>, after: seq<byte>, done: nat, labels: seq<Label>)
    requires done < |before| && done < |after| && after[..done] == before[..done]
    requires NameAt(before, HEADER_SIZE, HEADER_SIZE, done, labels)
    ensures Walk(after, HEADER_SIZE, done, done + 1) == Some(labels)
  {
    NameInLongerPacket(before, after, HEADER_SIZE, HEADER_SIZE, done, done, labels);
    WalkDecodesName(after, HEADER_SIZE, HEADER_SIZE, done, labels);
  }

  /** An address a.b.c.d is held as a word with `a` in its low byte, and goes into the record as a, b, c, d. */
  lemma AddressInOrder(a: byte, b: byte, c: byte, d: byte)
    ensures AddressBytes(a + 0x100 * b + 0x1_0000 * c + 0x100_0000 * d) == [a, b, c, d]
  {
    LowByte(b + 0x100 * c + 0x1_0000 * d, a);
    LowByte(c + 0x100 * d, b);
    LowByte(d, c);
  }

  /**
   dns_server_thread, for a query of `done` bytes: the pointer to the queried name is written after the
   query, then the address for that name is looked up in the packet, and the record is written.  On a
   well-formed query name, the answer belongs to that name and carries its address; `ip` is any four
   bytes, of which is said what it means if they are this address.
   */
  method Answer(s: Settings, packet: array<byte>, done: nat, ghost labels: seq<Label>, ghost ip: seq<byte>) returns (size: nat)
    requires s.Valid() && 12 < done && done + 16 <= packet.Length && |ip| == 4
    requires NameAt(packet[..], 12, 12, done, labels)
    modifies packet
    ensures size == done + 16
    ensures packet[..done] == old(packet[..done])
    ensures NameAt(packet[..], done, done, size, labels)
    ensures packet[done + 2..size] == [0, 1, 0, 1, 0, 0, 0, 1, 0, 4] + AddressBytes(AddressFor(s, labels))
    ensures AddressFor(s, labels) == ip[0] as int + 0x100 * ip[1] as int + 0x1_0000 * ip[2] as int + 0x100_0000 * ip[3] as int ==> packet[done + 12..size] == ip
  {
    ghost var before := packet[..];
    AppendPointer(packet, done);
    ghost var query := packet[..];
    var chosen := AddressInPacket(s, packet, done, before, labels);
    size := AppendRecord(packet, done, AddressBytes(chosen));
    AnswerBelongs(before, query, packet[..], done, labels);
    AddressLast(packet[..], done, chosen, ip);
  }

  /** The last four bytes of an answer are the address. */
  lemma AddressLast(packet: seq<byte>, done: nat, word: nat, ip: seq<byte>)
    requires |ip| == 4 && done + 16 <= |packet| && packet[done + 2..done + 16] == RECORD + AddressBytes(word)
    ensures word == ip[0] as int + 0x100 * ip[1] as int + 0x1_0000 * ip[2] as int + 0x100_0000 * ip[3] as int ==> packet[done + 12..done + 16] == ip
  {
    SliceOfSlice(packet, done + 2, done + 16, 10, 14);
    SliceOfBack(RECORD, AddressBytes(word), 0, 4);
    AddressInOrder(ip[0], ip[1], ip[2], ip[3]);
    assert ip == [ip[0], ip[1], ip[2], ip[3]];
  }

  lemma AnswerBelongs(before: seq<byte>, query: seq<byte>, after: seq<byte>, done: nat, labels: seq<Label>)
    requires |before| == |query| == |after| && HEADER_SIZE < done && done + 16 <= |after|
    requires NameAt(before, HEADER_SIZE, HEADER_SIZE, done, labels)
    requires query[..done] == before[..done] && query[done] == COMPRESSED && query[done + 1] == HEADER_SIZE
    requires after[..done + 2] == query[..done + 2]
    ensures after[..done] == before[..done] && NameAt(after, done, done, done + 16, labels)
  {
    SliceOfPrefix(after, done + 2, 0, done);
    SliceOfPrefix(query, done + 2, 0, done);
    assert after[done] == after[..done + 2][done] == query[done];
    assert after[done + 1] == after[..done + 2][done + 1] == query[done + 1];
    AnswerName(before, after, done, labels);
  }
}
