/**
 The DHCP server object: datagrams in, changes of the lease table in place, datagrams out.
 `Process` is proved to take exactly the `DhcpLeases.Step` that the datagram asks for, so every
 lemma about runs of steps is about this server.
 */
module DhcpServer {
  import opened Bytes
  import opened DhcpTicks
  import opened DhcpLeases
  import opened DhcpOptions

  const DHCPDISCOVER: byte := 1
  const DHCPOFFER: byte := 2
  const DHCPREQUEST: byte := 3
  const DHCPACK: byte := 5

  const OPT_SUBNET_MASK: byte := 1
  const OPT_ROUTER: byte := 3
  const OPT_DNS: byte := 6
  const OPT_DOMAIN_NAME: byte := 15
  const OPT_REQUESTED_IP: byte := 50
  const OPT_IP_LEASE_TIME: byte := 51
  const OPT_MSG_TYPE: byte := 53
  const OPT_SERVER_ID: byte := 54

  const BASE_IP := 16
  const LEASE_TIME_S := 24 * 60 * 60

  // Layout of dhcp_msg_t
  const YIADDR := 16
  const CHADDR := 28
  const OPTIONS := 240           // after the magic cookie
  const MSG_SIZE := OPTIONS + WINDOW
  const MIN_SIZE := OPTIONS + 3

  /** The finder and the reading of an address may look at up to five bytes after the message. */
  const MEMORY := MSG_SIZE + 5

  type Address = a: seq<byte> | |a| == 4 witness [0, 0, 0, 0]

  datatype Config = Config(ip: Address, nm: Address, domain: Option<seq<byte>>) {
    /** The configured domain name has a 32-byte field; anything a length byte can tell will do. */
    predicate Valid() {
      domain.Some? ==> |domain.value| < 256
    }
  }

  /** The message buffer once a datagram has been copied over whatever was in it. */
  function Received(packet: seq<byte>, stack: seq<byte>): (m: seq<byte>)
    requires |stack| == MEMORY
    ensures |m| == MEMORY
  {
    var n := if |packet| < MSG_SIZE then |packet| else MSG_SIZE;
    packet[..n] + stack[n..]
  }

  /** The slot whose address the requested-address option of a message names, if it is one of ours. */
  function SlotAskedFor(c: Config, m: seq<byte>): (slot: Option<nat>)
    requires |m| == MEMORY
    ensures slot.Some? ==> slot.value < MAX_IP
  {
    match FoundFrom(m[OPTIONS..], OPT_REQUESTED_IP, 0)
    case None => None
    case Some(p) =>
      var o := OPTIONS + p;
      var slot := (m[o + 5] - BASE_IP) % 256;
      if m[o + 2..o + 5] == c.ip[..3] && slot < MAX_IP then Some(slot) else None
  }

  /** What the message in the buffer asks of the lease table. */
  function EventIn(c: Config, m: seq<byte>, readings: seq<nat>, at: nat): (e: Event)
    requires |m| == MEMORY && Discover(FREE, readings).Valid()
    ensures e.Valid()
  {
    var mac: Mac := m[CHADDR..CHADDR + MAC_LEN];
    if m[OPTIONS + 2] == DHCPDISCOVER then Discover(mac, readings)
    else if m[OPTIONS + 2] == DHCPREQUEST then
      match SlotAskedFor(c, m)
      case None => Ignored(at)
      case Some(slot) => Request(mac, slot, at)
    else Ignored(at)
  }

  /** The message to the lease table that a datagram amounts to; one that is too short is ignored. */
  function EventOf(c: Config, packet: seq<byte>, stack: seq<byte>, readings: seq<nat>, at: nat): (e: Event)
    requires |stack| == MEMORY && Discover(FREE, readings).Valid()
    ensures e.Valid()
  {
    if |packet| < MIN_SIZE then Ignored(at) else EventIn(c, Received(packet, stack), readings, at)
  }

  lemma SameSlot(c: Config, m: seq<byte>, m': seq<byte>)
    requires |m| == |m'| == MEMORY && m[OPTIONS..] == m'[OPTIONS..]
    ensures SlotAskedFor(c, m) == SlotAskedFor(c, m')
  {
    var r := FoundFrom(m[OPTIONS..], OPT_REQUESTED_IP, 0);
    if r.Some? {
      var p := r.value;
      SliceOfSuffix(m, OPTIONS, p + 2, p + 5);
      SliceOfSuffix(m', OPTIONS, p + 2, p + 5);
      assert m[OPTIONS..][p + 5] == m[OPTIONS + p + 5] && m'[OPTIONS..][p + 5] == m'[OPTIONS + p + 5];
    }
  }

  /** Only the hardware address and the options matter. */
  lemma SameEvent(c: Config, m: seq<byte>, m': seq<byte>, readings: seq<nat>, at: nat)
    requires |m| == |m'| == MEMORY && m[CHADDR..] == m'[CHADDR..] && Discover(FREE, readings).Valid()
    ensures EventIn(c, m, readings, at) == EventIn(c, m', readings, at)
  {
    var off := OPTIONS - CHADDR;
    assert m[OPTIONS..] == m[CHADDR..][off..] == m'[OPTIONS..];
    assert m[CHADDR..CHADDR + MAC_LEN] == m[CHADDR..][..MAC_LEN] == m'[CHADDR..CHADDR + MAC_LEN];
    assert m[OPTIONS + 2] == m[OPTIONS..][2] == m'[OPTIONS + 2];
    SameSlot(c, m, m');
  }

  function AddressOptions(c: Config): seq<Opt> {
    [Opt(OPT_SERVER_ID, c.ip), Opt(OPT_SUBNET_MASK, c.nm), Opt(OPT_ROUTER, c.ip), Opt(OPT_DNS, c.ip)]
  }

  function DomainOptions(c: Config): seq<Opt> {
    if c.domain.Some? then [Opt(OPT_DOMAIN_NAME, c.domain.value)] else []
  }

  function ReplyOptions(c: Config, msgType: byte): seq<Opt> {
    [Opt(OPT_MSG_TYPE, [msgType])] + AddressOptions(c) + DomainOptions(c)
    + [Opt(OPT_IP_LEASE_TIME, BigEndian(LEASE_TIME_S))]
  }

  function AddressOf(c: Config, slot: nat): (a: Address)
    requires slot < MAX_IP
  {
    c.ip[..3] + [BASE_IP + slot]
  }

  /** The fixed part of a reply: the request's, with the opcode and the client's address filled in. */
  function ReplyHeader(c: Config, m: seq<byte>, slot: nat): seq<byte>
    requires |m| == MEMORY && slot < MAX_IP
  {
    [DHCPOFFER] + m[1..YIADDR] + AddressOf(c, slot) + m[YIADDR + 4..OPTIONS]
  }

  /** The datagram that carries a reply. */
  function Datagram(c: Config, m: seq<byte>, reply: Reply): Option<seq<byte>>
    requires |m| == MEMORY && (!reply.Silent? ==> reply.slot < MAX_IP)
  {
    if reply.Silent? then None
    else Some(ReplyHeader(c, m, reply.slot)
              + (Encode(ReplyOptions(c, if reply.Offer? then DHCPOFFER else DHCPACK)) + [END]))
  }

  /** Setting the last byte of the server's own address makes it the client's. */
  lemma HeaderInPlace(c: Config, m: seq<byte>, slot: nat)
    requires |m| == MEMORY && slot < MAX_IP
    ensures ([DHCPOFFER] + m[1..YIADDR] + c.ip + m[YIADDR + 4..])[YIADDR + 3 := BASE_IP + slot][..OPTIONS] == ReplyHeader(c, m, slot)
  {
    var front, back := [DHCPOFFER] + m[1..YIADDR], m[YIADDR + 4..];
    assert |front| == YIADDR;
    assert (front + c.ip + back)[YIADDR + 3 := BASE_IP + slot] == front + AddressOf(c, slot) + back;
    assert (front + AddressOf(c, slot) + back)[..OPTIONS] == front + AddressOf(c, slot) + back[..OPTIONS - YIADDR - 4];
    assert back[..OPTIONS - YIADDR - 4] == m[YIADDR + 4..OPTIONS];
  }

  class DhcpServer {
    const config: Config
    const lease: array<Lease>

    ghost predicate Valid() {
      config.Valid() && lease.Length == MAX_IP
    }

    /** dhcp_server_init */
    constructor (ip: Address, nm: Address, domain: Option<seq<byte>>)
      requires Config(ip, nm, domain).Valid()
      ensures Valid() && fresh(lease)
      ensures config == Config(ip, nm, domain) && lease[..] == EMPTY_TABLE
      ensures forall i :: 0 <= i < 8 ==> lease[i].mac == [0, 0, 0, 0, 0, 0]
    {
      config := Config(ip, nm, domain);
      lease := new Lease[MAX_IP](_ => Lease(FREE, 0));
    }

    /** The scan of the table for a DISCOVER; `readings[i]` is what the clock shows at slot `i`. */
    method Scan(mac: Mac, readings: seq<nat>) returns (yi: nat)
      requires Valid() && Discover(mac, readings).Valid()
      modifies lease
      ensures lease[..] == Swept(old(lease[..]), mac, readings)
      ensures yi == Choice(old(lease[..]), mac, readings)
    {
      ghost var t: Table := lease[..];
      yi := MAX_IP;
      for i := 0 to MAX_IP
        invariant i <= FirstHeld(t, mac, 0)
        invariant yi == MAX_IP ==> i <= FirstOpen(t, readings, 0) && lease[..] == t
        invariant yi < MAX_IP ==> yi == FirstOpen(t, readings, 0) < i && lease[..] == t[yi := t[yi].(mac := FREE)]
        invariant yi <= MAX_IP
      {
        if lease[i].mac == mac {
          assert t[i].mac == mac && FirstHeld(t, mac, 0) == i;
          yi := i;
          break;
        }
        assert lease[i] == t[i] || (yi < MAX_IP && yi != i);
        if yi == MAX_IP {
          if lease[i].mac == FREE {
            yi := i;
          }
          if TestsExpired(lease[i].expiry, Ticks(readings[i])) {
            lease[i] := lease[i].(mac := FREE);
            yi := i;
          }
        }
      }
    }

    /** The REQUEST for slot `yi` by `mac` when the clock shows `at`. */
    method Claim(mac: Mac, yi: nat, at: nat) returns (granted: bool)
      requires Valid() && yi < MAX_IP
      modifies lease
      ensures lease[..] == Step(old(lease[..]), Request(mac, yi, at)).0
      ensures granted <==> Step(old(lease[..]), Request(mac, yi, at)).1.Ack?
    {
      if lease[yi].mac == mac {
        // a renewal: only the expiry changes
      } else if lease[yi].mac == FREE {
        lease[yi] := lease[yi].(mac := mac);
      } else {
        return false;
      }
      lease[yi] := lease[yi].(expiry := ExpiryFrom(Ticks(at)));
      granted := true;
    }

    /** Appends one option to the reply that is being built in `msg`. */
    method Append(msg: array<byte>, opt: nat, ghost head: seq<byte>, ghost written: seq<Opt>, o: Opt) returns (next: nat)
      requires opt + 2 + |o.value| <= msg.Length && msg[..opt] == head + Encode(written)
      modifies msg
      ensures next == opt + 2 + |o.value|
      ensures msg[..next] == head + Encode(written + [o])
    {
      next := WriteN(msg, opt, o.code, o.value);
      EncodeSnoc(written, o);
      assert msg[..next] == head + Encode(written) + OptBytes(o);
    }

    method AppendAddresses(msg: array<byte>, at: nat, ghost head: seq<byte>, ghost written: seq<Opt>) returns (opt: nat)
      requires at + 24 <= msg.Length && msg[..at] == head + Encode(written)
      modifies msg
      ensures opt == at + 24
      ensures msg[..opt] == head + Encode(written + AddressOptions(config))
    {
      ghost var w, c := written, config;
      opt := Append(msg, at, head, w, Opt(OPT_SERVER_ID, config.ip));
      w := w + [Opt(OPT_SERVER_ID, c.ip)];
      opt := Append(msg, opt, head, w, Opt(OPT_SUBNET_MASK, config.nm));
      w := w + [Opt(OPT_SUBNET_MASK, c.nm)];
      opt := Append(msg, opt, head, w, Opt(OPT_ROUTER, config.ip));
      w := w + [Opt(OPT_ROUTER, c.ip)];
      opt := Append(msg, opt, head, w, Opt(OPT_DNS, config.ip));
      w := w + [Opt(OPT_DNS, c.ip)];
      assert w == written + AddressOptions(c);
    }

    method AppendLeaseTime(msg: array<byte>, at: nat, ghost head: seq<byte>, ghost written: seq<Opt>) returns (opt: nat)
      requires at + 6 <= msg.Length && msg[..at] == head + Encode(written)
      modifies msg
      ensures opt == at + 6
      ensures msg[..opt] == head + Encode(written + [Opt(OPT_IP_LEASE_TIME, BigEndian(LEASE_TIME_S))])
    {
      ghost var before, o := msg[..at], Opt(OPT_IP_LEASE_TIME, BigEndian(LEASE_TIME_S));
      EncodeSnoc(written, o);
      opt := WriteU32(msg, at, OPT_IP_LEASE_TIME, LEASE_TIME_S);
      assert msg[..opt] == before + OptBytes(o);
      assert head + Encode(written) + OptBytes(o) == head + (Encode(written) + OptBytes(o));
    }

    /** Writes the options of a reply over those of the request and returns the offset after END. */
    method WriteReply(msg: array<byte>, msgType: byte) returns (end: nat)
      requires Valid() && msg.Length == MEMORY
      modifies msg
      ensures end <= MSG_SIZE
      ensures msg[..end] == old(msg[..OPTIONS]) + (Encode(ReplyOptions(config, msgType)) + [END])
    {
      ghost var head, w := msg[..OPTIONS], [Opt(OPT_MSG_TYPE, [msgType])];
      var opt := WriteU8(msg, OPTIONS, OPT_MSG_TYPE, msgType);
      assert msg[..opt] == head + Encode(w);
      opt := AppendAddresses(msg, opt, head, w);
      w := w + AddressOptions(config);
      if config.domain.Some? {
        opt := Append(msg, opt, head, w, Opt(OPT_DOMAIN_NAME, config.domain.value));
      }
      assert w + [] == w;
      w := w + DomainOptions(config);
      opt := AppendLeaseTime(msg, opt, head, w);
      msg[opt] := END;
      end := opt + 1;
      assert msg[..end] == msg[..opt] + [END];
    }

    /** pbuf_copy_partial, and the two fields of the reply that are set before the request is looked at. */
    method Receive(packet: seq<byte>, stack: array<byte>)
      requires stack.Length == MEMORY
      modifies stack
      ensures var m := Received(packet, old(stack[..]));
              stack[..] == [DHCPOFFER] + m[1..YIADDR] + config.ip + m[YIADDR + 4..]
    {
      ghost var m := Received(packet, stack[..]);
      var n := if |packet| < MSG_SIZE then |packet| else MSG_SIZE;
      forall i | 0 <= i < n {
        stack[i] := packet[i];
      }
      assert stack[..] == m;
      stack[0] := DHCPOFFER;
      forall i | 0 <= i < 4 {
        stack[YIADDR + i] := config.ip[i];
      }
    }

    /** The slot that a REQUEST asks for, if it names one of this server's addresses. */
    method RequestedSlot(stack: array<byte>) returns (slot: Option<nat>)
      requires stack.Length == MEMORY
      ensures slot == SlotAskedFor(config, stack[..])
    {
      assert stack[OPTIONS..] == stack[..][OPTIONS..];
      var o := Find(stack, OPTIONS, OPT_REQUESTED_IP);
      if o.None? {
        return None;
      }
      var q := OPTIONS + o.value;
      if stack[q + 2..q + 5] != config.ip[..3] {
        return None;
      }
      var yi := (stack[q + 5] - BASE_IP) % 256;
      if yi >= MAX_IP {
        return None;
      }
      slot := Some(yi);
    }

    /** The switch on the message type: changes the table, and says what to reply. */
    method Decide(stack: array<byte>, readings: seq<nat>, at: nat) returns (reply: Reply)
      requires Valid() && stack.Length == MEMORY
      requires Discover(FREE, readings).Valid()
      modifies lease
      ensures (lease[..], reply) == Step(old(lease[..]), EventIn(config, stack[..], readings, at))
    {
      reply := Silent;
      ghost var m := stack[..];
      var mac: Mac := stack[CHADDR..CHADDR + MAC_LEN];
      assert mac == m[CHADDR..CHADDR + MAC_LEN];
      if stack[OPTIONS + 2] == DHCPDISCOVER {
        var yi := Scan(mac, readings);
        if yi < MAX_IP {
          reply := Offer(yi, mac);
        }
      } else if stack[OPTIONS + 2] == DHCPREQUEST {
        var slot := RequestedSlot(stack);
        if slot.Some? {
          var granted := Claim(mac, slot.value, at);
          if granted {
            reply := Ack(slot.value, mac);
          }
        }
      }
    }

    /**
     dhcp_server_process: `packet` is the datagram, `stack` the message buffer with whatever it
     held before, and `readings` and `at` the times at which the clock is read.
     */
    method Process(packet: seq<byte>, stack: array<byte>, readings: seq<nat>, at: nat) returns (sent: Option<seq<byte>>)
      requires Valid() && stack.Length == MEMORY
      requires Discover(FREE, readings).Valid()
      modifies stack, lease
      ensures var e := EventOf(config, packet, old(stack[..]), readings, at);
              && lease[..] == Step(old(lease[..]), e).0
              && sent == Datagram(config, Received(packet, old(stack[..])), Step(old(lease[..]), e).1)
    {
      sent := None;
      if |packet| < MIN_SIZE {
        return;
      }
      ghost var m := Received(packet, stack[..]);
      Receive(packet, stack);
      assert stack[..][CHADDR..] == m[CHADDR..];
      SameEvent(config, stack[..], m, readings, at);
      var reply := Decide(stack, readings, at);
      if reply.Silent? {
        return;
      }
      sent := Respond(stack, reply, m);
    }

    /** Makes the reply of the request `m` in the buffer that still holds most of it. */
    method Respond(stack: array<byte>, reply: Reply, ghost m: seq<byte>) returns (sent: Option<seq<byte>>)
      requires Valid() && stack.Length == MEMORY == |m| && !reply.Silent? && reply.slot < MAX_IP
      requires stack[..] == [DHCPOFFER] + m[1..YIADDR] + config.ip + m[YIADDR + 4..]
      modifies stack
      ensures sent == Datagram(config, m, reply)
    {
      HeaderInPlace(config, m, reply.slot);
      stack[YIADDR + 3] := BASE_IP + reply.slot;
      assert stack[..OPTIONS] == stack[..][..OPTIONS];
      var end := WriteReply(stack, if reply.Offer? then DHCPOFFER else DHCPACK);
      sent := Some(stack[..end]);
    }
  }

  // -------------------------------------------------------------------------------------- whole runs

  /** A datagram, and the times at which the server would read its clock for it. */
  datatype Arrival = Arrival(packet: seq<byte>, readings: seq<nat>, at: nat) {
    ghost predicate Valid() {
      Discover(FREE, readings).Valid()
    }

    function Earliest(): nat
      requires Valid()
    {
      if at < readings[0] then at else readings[0]
    }

    function Latest(): nat
      requires Valid()
    {
      if at < readings[MAX_IP - 1] then readings[MAX_IP - 1] else at
    }
  }

  /** The datagram `a`, received over `was`, is message `i` of the run, and `sent` is the answer to it. */
  ghost predicate Answered(c: Config, t: Table, a: Arrival, was: seq<byte>, events: seq<Event>, i: nat, sent: Option<seq<byte>>) {
    && i < |events| && (forall j :: 0 <= j < |events| ==> events[j].Valid())
    && |was| == MEMORY && Discover(FREE, a.readings).Valid()
    && events[i] == EventOf(c, a.packet, was, a.readings, a.at)
    && sent == Datagram(c, Received(a.packet, was), ReplyTo(t, events, i))
  }

  lemma AnsweredInLongerRun(c: Config, t: Table, a: Arrival, was: seq<byte>, events: seq<Event>, e: Event, i: nat, sent: Option<seq<byte>>)
    requires Answered(c, t, a, was, events, i, sent) && e.Valid()
    ensures Answered(c, t, a, was, events + [e], i, sent)
  {
    assert (events + [e])[..i] == events[..i];
  }

  /** A run of the server: every datagram is a message to the table, and gets what that message gets. */
  ghost predicate Served(c: Config, t: Table, arrivals: seq<Arrival>, stacks: seq<seq<byte>>, events: seq<Event>,
                         sent: seq<Option<seq<byte>>>) {
    && |sent| == |stacks| == |events| == |arrivals|
    && (forall i :: 0 <= i < |events| ==> events[i].Valid())
    && forall i :: 0 <= i < |arrivals| ==> Answered(c, t, arrivals[i], stacks[i], events, i, sent[i])
  }

  /**
   The server over a whole run of datagrams: whatever they hold, it goes through the steps of the
   lease table, one for each, and every reply is the one of that step.  So what is proved of runs of
   steps is true of the server and of the datagrams it sends.
   */
  method Serve(d: DhcpServer, stack: array<byte>, arrivals: seq<Arrival>)
    returns (sent: seq<Option<seq<byte>>>, ghost stacks: seq<seq<byte>>, ghost events: seq<Event>)
    requires d.Valid() && stack.Length == MEMORY
    requires forall i :: 0 <= i < |arrivals| ==> arrivals[i].Valid()
    modifies stack, d.lease
    ensures Served(d.config, old(d.lease[..]), arrivals, stacks, events, sent)
    ensures d.lease[..] == Final(old(d.lease[..]), events)
  {
    sent, stacks, events := [], [], [];
    ghost var t: Table := d.lease[..];
    for k := 0 to |arrivals|
      invariant |sent| == |stacks| == |events| == k && forall i :: 0 <= i < k ==> events[i].Valid()
      invariant d.lease[..] == Final(t, events)
      invariant forall i :: 0 <= i < k ==> Answered(d.config, t, arrivals[i], stacks[i], events, i, sent[i])
    {
      var a := arrivals[k];
      ghost var was, es := stack[..], events;
      ghost var e := EventOf(d.config, a.packet, was, a.readings, a.at);
      var reply := d.Process(a.packet, stack, a.readings, a.at);
      assert (es + [e])[..k] == es;
      assert Answered(d.config, t, a, was, es + [e], k, reply);
      forall i | 0 <= i < k
        ensures Answered(d.config, t, arrivals[i], stacks[i], es + [e], i, sent[i])
      {
        AnsweredInLongerRun(d.config, t, arrivals[i], stacks[i], es, e, i, sent[i]);
      }
      sent, stacks, events := sent + [reply], stacks + [was], es + [e];
    }
  }

  // ---------------------------------------------------------------------------- on the wire

  lemma ReplyOptionsFit(c: Config, msgType: byte)
    requires c.Valid()
    ensures Writable(ReplyOptions(c, msgType))
    ensures |Encode(ReplyOptions(c, msgType))| == 33 + (if c.domain.Some? then 2 + |c.domain.value| else 0)
  {
    var a, b, d := [Opt(OPT_MSG_TYPE, [msgType])], AddressOptions(c), DomainOptions(c);
    var e := [Opt(OPT_IP_LEASE_TIME, BigEndian(LEASE_TIME_S))];
    EncodeAppend(a, b);
    EncodeAppend(a + b, d);
    EncodeAppend(a + b + d, e);
    EncodeAppend(b[..2], b[2..]);
    assert b == b[..2] + b[2..];
    TwoOptions(b[0], b[1]);
    TwoOptions(b[2], b[3]);
  }

  lemma TwoOptions(x: Opt, y: Opt)
    ensures |Encode([x, y])| == 4 + |x.value| + |y.value|
  {
    var first, last := [x], [y];
    OneOption(x);
    OneOption(y);
    EncodeAppend(first, last);
    assert [x, y] == first + last;
  }

  lemma OneOption(x: Opt)
    ensures |Encode([x])| == 2 + |x.value|
  {
    var one := [x];
    assert one[1..] == [] && Encode(one[1..]) == [];
    assert Encode(one) == OptBytes(x) + Encode(one[1..]);
    assert |OptBytes(x)| == 2 + |x.value|;
  }

  lemma HeaderFields(c: Config, m: seq<byte>, slot: nat)
    requires |m| == MEMORY && slot < MAX_IP
    ensures var h := ReplyHeader(c, m, slot);
            && |h| == OPTIONS
            && h[YIADDR..YIADDR + 4] == AddressOf(c, slot)
            && h[4..8] == m[4..8]
            && h[CHADDR..CHADDR + MAC_LEN] == m[CHADDR..CHADDR + MAC_LEN]
  {
    var a, start, back := AddressOf(c, slot), [DHCPOFFER] + m[1..YIADDR], m[YIADDR + 4..OPTIONS];
    SliceOfFront(start + a, back, YIADDR, YIADDR + 4);
    SliceOfBack(start, a, 0, 4);
    SliceOfFront(start + a, back, 4, 8);
    SliceOfFront(start, a, 4, 8);
    SliceOfBack([DHCPOFFER], m[1..YIADDR], 3, 7);
    SliceOfSlice(m, 1, YIADDR, 3, 7);
    SliceOfBack(start + a, back, 8, 8 + MAC_LEN);
    SliceOfSlice(m, YIADDR + 4, OPTIONS, 8, 8 + MAC_LEN);
  }

  /**
   Every reply can be read back: for every domain name a length byte can describe, the datagram is
   within a message, and whatever memory follows it, the finder recovers the first value of every
   option the server put in, with the offered address in the header.
   */
  lemma ReplyIsReadable(c: Config, m: seq<byte>, reply: Reply, junk: seq<byte>, cmd: byte)
    requires c.Valid() && |m| == MEMORY && !reply.Silent? && reply.slot < MAX_IP && cmd != END
    requires |Datagram(c, m, reply).value + junk| > MSG_SIZE
    ensures var d := Datagram(c, m, reply).value;
            && |d| <= MSG_SIZE
            && d[YIADDR..YIADDR + 4] == AddressOf(c, reply.slot)
            && d[4..8] == m[4..8]
            && d[CHADDR..CHADDR + MAC_LEN] == m[CHADDR..CHADDR + MAC_LEN]
            && Lookup((d + junk)[OPTIONS..], cmd, 0)
               == FirstValue(ReplyOptions(c, if reply.Offer? then DHCPOFFER else DHCPACK), cmd)
  {
    var t := if reply.Offer? then DHCPOFFER else DHCPACK;
    ReplyOptionsFit(c, t);
    HeaderFields(c, m, reply.slot);
    var h, opts := ReplyHeader(c, m, reply.slot), ReplyOptions(c, t);
    var d := h + (Encode(opts) + [END]);
    assert d[YIADDR..YIADDR + 4] == h[YIADDR..YIADDR + 4];
    assert d[4..8] == h[4..8];
    assert d[CHADDR..CHADDR + MAC_LEN] == h[CHADDR..CHADDR + MAC_LEN];
    assert (d + junk)[OPTIONS..] == Encode(opts) + ([END] + junk);
    FindsWhatWasWritten(opts, junk, cmd);
  }

  /** No option of a reply hides another, so each of them is what the finder recovers for its code. */
  lemma NothingShadowed(c: Config, msgType: byte, k: nat)
    requires k < |ReplyOptions(c, msgType)|
    ensures var opts := ReplyOptions(c, msgType);
            FirstValue(opts, opts[k].code) == Some(opts[k].value)
  {
    var opts := ReplyOptions(c, msgType);
    forall i | 0 <= i < k
      ensures opts[i].code != opts[k].code
    {
      OptionsByPosition(c, msgType);
    }
    FirstValueAt(opts, k);
  }

  lemma OptionsByPosition(c: Config, msgType: byte)
    ensures var opts := ReplyOptions(c, msgType);
            && |opts| == (if c.domain.Some? then 7 else 6)
            && opts[0] == Opt(OPT_MSG_TYPE, [msgType])
            && opts[1] == Opt(OPT_SERVER_ID, c.ip)
            && opts[2] == Opt(OPT_SUBNET_MASK, c.nm)
            && opts[3] == Opt(OPT_ROUTER, c.ip)
            && opts[4] == Opt(OPT_DNS, c.ip)
            && (c.domain.Some? ==> opts[5] == Opt(OPT_DOMAIN_NAME, c.domain.value))
            && opts[|opts| - 1] == Opt(OPT_IP_LEASE_TIME, [0, 1, 81, 128])
  {
  }

  /**
   The handshake on the wire: a client that puts the address it was offered into the
   requested-address option of a DHCPREQUEST, among any other options, asks for exactly the slot
   that was offered, whatever the message buffer held before.
   */
  lemma OfferedAddressAsksForItsSlot(c: Config, slot: nat, packet: seq<byte>, opts: seq<Opt>, junk: seq<byte>,
                                     stack: seq<byte>, readings: seq<nat>, at: nat)
    requires slot < MAX_IP && |stack| == MEMORY
    requires OPTIONS <= |packet| <= MSG_SIZE && packet[OPTIONS..] == Encode(opts) + ([END] + junk)
    requires Writable(opts) && |opts| > 0 && opts[0] == Opt(OPT_MSG_TYPE, [DHCPREQUEST])
    requires FirstValue(opts, OPT_REQUESTED_IP) == Some(AddressOf(c, slot))
    requires Discover(FREE, readings).Valid()
    ensures EventOf(c, packet, stack, readings, at) == Request(packet[CHADDR..CHADDR + MAC_LEN], slot, at)
  {
    var m, rest := Received(packet, stack), stack[|packet|..];
    ReceivedParts(packet, stack);
    Regroup(Encode(opts), junk, rest);
    MessageAsksForSlot(c, slot, m, opts, junk + rest, readings, at);
  }

  lemma MessageAsksForSlot(c: Config, slot: nat, m: seq<byte>, opts: seq<Opt>, junk: seq<byte>, readings: seq<nat>, at: nat)
    requires slot < MAX_IP && |m| == MEMORY && m[OPTIONS..] == Encode(opts) + ([END] + junk)
    requires |Encode(opts)| < WINDOW
    requires Writable(opts) && |opts| > 0 && opts[0] == Opt(OPT_MSG_TYPE, [DHCPREQUEST])
    requires FirstValue(opts, OPT_REQUESTED_IP) == Some(AddressOf(c, slot))
    requires Discover(FREE, readings).Valid()
    ensures EventIn(c, m, readings, at) == Request(m[CHADDR..CHADDR + MAC_LEN], slot, at)
  {
    ReadsAsRequest(m[OPTIONS..], opts, junk);
    RequestedAddress(c, m, slot);
    assert m[OPTIONS + 2] == m[OPTIONS..][2];
  }

  lemma Regroup(front: seq<byte>, junk: seq<byte>, rest: seq<byte>)
    ensures front + ([END] + junk) + rest == front + ([END] + (junk + rest))
  {
  }

  lemma ReceivedParts(packet: seq<byte>, stack: seq<byte>)
    requires |stack| == MEMORY && OPTIONS <= |packet| <= MSG_SIZE
    ensures var m := Received(packet, stack);
            && m[CHADDR..CHADDR + MAC_LEN] == packet[CHADDR..CHADDR + MAC_LEN]
            && m[OPTIONS..] == packet[OPTIONS..] + stack[|packet|..]
  {
    assert Received(packet, stack) == packet + stack[|packet|..];
  }

  lemma ReadsAsRequest(mem: seq<byte>, opts: seq<Opt>, junk: seq<byte>)
    requires Writable(opts) && |opts| > 0 && opts[0] == Opt(OPT_MSG_TYPE, [DHCPREQUEST])
    requires |Encode(opts)| < WINDOW < |mem| && mem == Encode(opts) + ([END] + junk)
    ensures mem[2] == DHCPREQUEST
    ensures Lookup(mem, OPT_REQUESTED_IP, 0) == FirstValue(opts, OPT_REQUESTED_IP)
  {
    FindsWhatWasWritten(opts, junk, OPT_REQUESTED_IP);
    assert mem[0..] == mem == OptBytes(opts[0]) + (Encode(opts[1..]) + ([END] + junk));
    HeadOption(mem, 0, opts[0], Encode(opts[1..]) + ([END] + junk));
  }

  lemma RequestedAddress(c: Config, m: seq<byte>, slot: nat)
    requires slot < MAX_IP && |m| == MEMORY
    requires Lookup(m[OPTIONS..], OPT_REQUESTED_IP, 0) == Some(AddressOf(c, slot))
    ensures SlotAskedFor(c, m) == Some(slot)
  {
    var mem := m[OPTIONS..];
    var p := FoundFrom(mem, OPT_REQUESTED_IP, 0).value;
    var v := mem[p + 2..p + 2 + mem[p + 1]];
    assert v == AddressOf(c, slot) && |v| == 4;
    FourBytes(m, p + 2, v);
  }

  lemma FourBytes(m: seq<byte>, at: nat, v: seq<byte>)
    requires OPTIONS + at + 4 <= |m| && |v| == 4 && m[OPTIONS..][at..at + 4] == v
    ensures m[OPTIONS + at..OPTIONS + at + 3] == v[..3] && m[OPTIONS + at + 3] == v[3]
  {
    SliceOfSuffix(m, OPTIONS, at, at + 4);
    SliceOfPrefix(v, 4, 0, 3);
    assert m[OPTIONS + at..OPTIONS + at + 4] == v;
    assert forall i :: 0 <= i < 4 ==> m[OPTIONS + at + i] == v[i];
  }
}
