/**
 What the DHCP server promises of the datagrams that it sends, over whole runs of datagrams that it
 is sent: the properties of the lease table, stated of fields of datagrams alone.
 */
module DhcpWire {
  import opened Bytes
  import opened DhcpTicks
  import opened DhcpLeases
  import opened DhcpOptions
  import opened DhcpServer

  /** The client that a datagram is for. */
  function Client(d: seq<byte>): seq<byte>
    requires |d| > OPTIONS
  {
    d[CHADDR..CHADDR + MAC_LEN]
  }

  /** The address that a reply gives. */
  function Given(d: seq<byte>): seq<byte>
    requires |d| > OPTIONS
  {
    d[YIADDR..YIADDR + 4]
  }

  /** A reply of type `t` was sent. */
  predicate Sent(d: Option<seq<byte>>, t: byte) {
    d.Some? && |d.value| > OPTIONS + 2 && d.value[OPTIONS + 2] == t
  }

  /** A reply, byte by byte: its operation, the client's address, its type, and the rest as in the request `m`. */
  lemma ReplyOnTheWire(c: Config, m: seq<byte>, reply: Reply)
    requires |m| == MEMORY && !reply.Silent? && reply.slot < 8
    ensures var d := Datagram(c, m, reply).value;
            && |d| > 243
            && d[0] == 2 && d[1..16] == m[1..16]
            && d[16..20] == [c.ip[0], c.ip[1], c.ip[2], 16 + reply.slot]
            && d[20..240] == m[20..240]
            && d[240] == 53 && d[241] == 1 && d[242] == if reply.Offer? then 2 else 5
  {
    var t := if reply.Offer? then DHCPOFFER else DHCPACK;
    var opts, start, a, back := ReplyOptions(c, t), [DHCPOFFER] + m[1..16], AddressOf(c, reply.slot), m[20..240];
    var h, tail := start + a + back, Encode(opts) + [END];
    var d := h + tail;
    assert Datagram(c, m, reply).value == d;
    assert a == [c.ip[0], c.ip[1], c.ip[2], 16 + reply.slot];
    SliceOfFront(h, tail, 1, 16);
    SliceOfFront(start + a, back, 1, 16);
    SliceOfFront(start, a, 1, 16);
    SliceOfBack([DHCPOFFER], m[1..16], 0, 15);
    SliceOfFront(h, tail, 16, 20);
    SliceOfFront(start + a, back, 16, 20);
    SliceOfBack(start, a, 0, 4);
    SliceOfFront(h, tail, 20, 240);
    SliceOfBack(start + a, back, 0, 220);
    OptionsByPosition(c, t);
    assert Encode(opts) == OptBytes(opts[0]) + Encode(opts[1..]);
    assert d[240] == tail[0] && d[241] == tail[1] && d[242] == tail[2];
  }

  /** What the options of a reply say, by their codes. */
  lemma ReplyOptionsOnTheWire(c: Config, m: seq<byte>, reply: Reply, junk: seq<byte>)
    requires c.Valid() && |m| == MEMORY && !reply.Silent? && reply.slot < 8
    requires |Datagram(c, m, reply).value + junk| > 548
    ensures |Datagram(c, m, reply).value| <= 548
    ensures var mem := (Datagram(c, m, reply).value + junk)[240..];
            && Lookup(mem, 53, 0) == Some([if reply.Offer? then 2 else 5])
            && Lookup(mem, 54, 0) == Some(c.ip)
            && Lookup(mem, 1, 0) == Some(c.nm)
            && Lookup(mem, 3, 0) == Some(c.ip)
            && Lookup(mem, 6, 0) == Some(c.ip)
            && Lookup(mem, 15, 0) == c.domain
            && Lookup(mem, 51, 0) == Some([0, 1, 81, 128])    // 86,400 seconds
  {
    var t := if reply.Offer? then DHCPOFFER else DHCPACK;
    OptionValues(c, t);
    ReplyIsReadable(c, m, reply, junk, 53);
    ReplyIsReadable(c, m, reply, junk, 54);
    ReplyIsReadable(c, m, reply, junk, 1);
    ReplyIsReadable(c, m, reply, junk, 3);
    ReplyIsReadable(c, m, reply, junk, 6);
    ReplyIsReadable(c, m, reply, junk, 15);
    ReplyIsReadable(c, m, reply, junk, 51);
  }

  lemma OptionValues(c: Config, t: byte)
    ensures var opts := ReplyOptions(c, t);
            && FirstValue(opts, 53) == Some([t]) && FirstValue(opts, 54) == Some(c.ip) && FirstValue(opts, 1) == Some(c.nm)
            && FirstValue(opts, 3) == Some(c.ip) && FirstValue(opts, 6) == Some(c.ip) && FirstValue(opts, 15) == c.domain
            && FirstValue(opts, 51) == Some([0, 1, 81, 128])
  {
    var opts := ReplyOptions(c, t);
    OptionsByPosition(c, t);
    forall k | 0 <= k < |opts|
      ensures FirstValue(opts, opts[k].code) == Some(opts[k].value)
    {
      NothingShadowed(c, t, k);
    }
    if c.domain.None? {
      NotAmong(opts, 15);
    }
  }

  lemma {:induction false} NotAmong(opts: seq<Opt>, cmd: byte)
    requires forall i :: 0 <= i < |opts| ==> opts[i].code != cmd
    ensures FirstValue(opts, cmd) == None
  {
    if opts != [] {
      NotAmong(opts[1..], cmd);
    }
  }

  lemma DatagramFields(c: Config, m: seq<byte>, reply: Reply)
    requires |m| == MEMORY && !reply.Silent? && reply.slot < MAX_IP
    ensures var d := Datagram(c, m, reply);
            && Sent(d, if reply.Offer? then DHCPOFFER else DHCPACK)
            && Client(d.value) == m[CHADDR..CHADDR + MAC_LEN]
            && Given(d.value) == AddressOf(c, reply.slot)
  {
    var t := if reply.Offer? then DHCPOFFER else DHCPACK;
    var h, opts := ReplyHeader(c, m, reply.slot), ReplyOptions(c, t);
    HeaderFields(c, m, reply.slot);
    TypeComesFirst(c, t);
    var d := h + (Encode(opts) + [END]);
    assert d[OPTIONS + 2] == (Encode(opts) + [END])[2];
    assert d[CHADDR..CHADDR + MAC_LEN] == h[CHADDR..CHADDR + MAC_LEN];
    assert d[YIADDR..YIADDR + 4] == h[YIADDR..YIADDR + 4];
  }

  lemma TypeComesFirst(c: Config, t: byte)
    ensures |Encode(ReplyOptions(c, t))| > 2 && Encode(ReplyOptions(c, t))[2] == t
  {
    var opts := ReplyOptions(c, t);
    OptionsByPosition(c, t);
    assert Encode(opts) == OptBytes(opts[0]) + Encode(opts[1..]);
  }

  /** Different slots have different addresses. */
  lemma AddressTellsSlot(c: Config, slot: nat, slot': nat)
    requires slot < MAX_IP && slot' < MAX_IP && AddressOf(c, slot) == AddressOf(c, slot')
    ensures slot == slot'
  {
    assert AddressOf(c, slot)[3] == BASE_IP + slot && AddressOf(c, slot')[3] == BASE_IP + slot';
  }

  /** The four bytes of the address that the server gives with slot `k`. */
  function SlotAddress(c: Config, k: nat): seq<byte>
    requires k < 8
  {
    [c.ip[0], c.ip[1], c.ip[2], 16 + k]
  }

  /** The message buffer: the datagram, as much of it as fits, over what was there before. */
  lemma InMemory(packet: seq<byte>, stack: seq<byte>)
    requires |stack| == MEMORY
    ensures Received(packet, stack) == if |packet| <= 548 then packet + stack[|packet|..] else packet[..548] + stack[548..]
  {
  }

  /** Where the requested-address option of a message is, after the magic cookie. */
  function RequestedAt(m: seq<byte>): Option<nat>
    requires |m| == MEMORY
  {
    FoundFrom(m[240..], 50, 0)
  }

  /** The address that the message asks for is that of slot `k`. */
  predicate AsksForSlot(c: Config, m: seq<byte>, k: nat)
    requires |m| == MEMORY && k < 8
  {
    var p := RequestedAt(m);
    p.Some? && m[240..][p.value + 2..p.value + 6] == SlotAddress(c, k)
  }

  lemma SlotIffAskedFor(c: Config, m: seq<byte>, k: nat)
    requires |m| == MEMORY && k < 8
    ensures SlotAskedFor(c, m) == Some(k) <==> AsksForSlot(c, m, k)
  {
    var found := RequestedAt(m);
    if found.Some? {
      var p := found.value;
      SliceOfSuffix(m, 240, p + 2, p + 6);
      var four := m[240 + p + 2..240 + p + 6];
      SliceOfSlice(m, 240 + p + 2, 240 + p + 6, 0, 3);
      assert four[3] == m[240 + p + 5];
      SameFour(four, c.ip, 16 + k);
    }
  }

  lemma SameFour(four: seq<byte>, ip: seq<byte>, last: byte)
    requires |four| == 4 && |ip| == 4
    ensures four == [ip[0], ip[1], ip[2], last] <==> four[0..3] == ip[..3] && four[3] == last
  {
    var three := ip[..3];
    assert three == [ip[0], ip[1], ip[2]];
    assert four == four[0..3] + [four[3]] && [ip[0], ip[1], ip[2], last] == three + [last];
    if four == [ip[0], ip[1], ip[2], last] {
      assert four[0..3] == three;
    }
  }

  /**
   What a datagram means: one of less than 243 bytes nothing; else its 243rd byte says, 1 for a
   DISCOVER and 3 for a REQUEST, if this names an address of the server's; and any other nothing.
   The client's hardware address is in the six bytes from the 29th on.
   */
  lemma MeaningOfDatagram(c: Config, packet: seq<byte>, stack: seq<byte>, readings: seq<nat>, at: nat)
    requires |stack| == MEMORY && Discover(FREE, readings).Valid()
    ensures var (e, m) := (EventOf(c, packet, stack, readings, at), Received(packet, stack));
            && (|packet| < 243 ==> e == Ignored(at))
            && (|packet| >= 243 && packet[242] == 1 ==> e == Discover(packet[28..34], readings))
            && (|packet| >= 243 && packet[242] == 3 ==>
                  forall k :: 0 <= k < 8 ==> (e == Request(packet[28..34], k, at) <==> AsksForSlot(c, m, k)))
            && (e.Ignored? <==>
                  || |packet| < 243
                  || (packet[242] != 1 && (packet[242] != 3 || forall k :: 0 <= k < 8 ==> !AsksForSlot(c, m, k))))
  {
    var m := Received(packet, stack);
    InMemory(packet, stack);
    if |packet| >= 243 {
      assert m[242] == packet[242] && m[28..34] == packet[28..34];
      forall k | 0 <= k < 8
        ensures SlotAskedFor(c, m) == Some(k) <==> AsksForSlot(c, m, k)
      {
        SlotIffAskedFor(c, m, k);
      }
    }
  }

  /** A datagram whose options begin with the message type DISCOVER is one. */
  lemma DiscoverOnTheWire(c: Config, packet: seq<byte>, opts: seq<Opt>, junk: seq<byte>, stack: seq<byte>, readings: seq<nat>, at: nat)
    requires |stack| == MEMORY && Discover(FREE, readings).Valid()
    requires 243 <= |packet| && packet[240..] == Encode(opts) + junk && opts != [] && opts[0] == Opt(53, [1])
    ensures EventOf(c, packet, stack, readings, at) == Discover(packet[28..34], readings)
  {
    MeaningOfDatagram(c, packet, stack, readings, at);
    assert packet[242] == packet[240..][2];
    assert Encode(opts) == OptBytes(opts[0]) + Encode(opts[1..]);
  }

  /** What is sent tells what the table replied, and to whom. */
  lemma SentTellsReply(c: Config, t: Table, a: Arrival, was: seq<byte>, events: seq<Event>, i: nat, sent: Option<seq<byte>>)
    requires Answered(c, t, a, was, events, i, sent)
    ensures sent.None? <==> ReplyTo(t, events, i).Silent?
    ensures sent.Some? ==>
              var (e, reply) := (events[i], ReplyTo(t, events, i));
              && reply.slot < MAX_IP
              && |sent.value| > OPTIONS + 2
              && (if reply.Offer? then Sent(sent, DHCPOFFER) && e.Discover?
                  else Sent(sent, DHCPACK) && e.Request? && e.slot == reply.slot && e.at == a.at)
              && Client(sent.value) == reply.mac == e.mac
              && Given(sent.value) == AddressOf(c, reply.slot)
  {
    var reply := ReplyTo(t, events, i);
    if !reply.Silent? {
      DatagramFields(c, Received(a.packet, was), reply);
    }
  }

  /** Datagrams are handled one at a time. */
  ghost predicate InOrder(arrivals: seq<Arrival>) {
    && (forall i :: 0 <= i < |arrivals| ==> arrivals[i].Valid())
    && forall i, j :: 0 <= i < j < |arrivals| ==> arrivals[i].Latest() <= arrivals[j].Earliest()
  }

  lemma EventTimes(c: Config, t: Table, a: Arrival, was: seq<byte>, events: seq<Event>, i: nat, sent: Option<seq<byte>>)
    requires Answered(c, t, a, was, events, i, sent) && a.Valid()
    ensures a.Earliest() <= events[i].Begin() && events[i].End() <= a.Latest()
  {
  }

  lemma RunIsChronological(c: Config, t: Table, arrivals: seq<Arrival>, stacks: seq<seq<byte>>, events: seq<Event>,
                           sent: seq<Option<seq<byte>>>)
    requires Served(c, t, arrivals, stacks, events, sent) && InOrder(arrivals)
    ensures Chronological(events)
  {
    forall i, j | 0 <= i < j < |events|
      ensures events[i].End() <= events[j].Begin()
    {
      EventTimes(c, t, arrivals[i], stacks[i], events, i, sent[i]);
      EventTimes(c, t, arrivals[j], stacks[j], events, j, sent[j]);
    }
  }

  /**
   Exclusivity on the wire.  Once a DHCPACK has given an address to a client, no reply to a datagram
   that is handled before the lease's end gives that address to another one.
   */
  lemma NoOtherClientIsGivenIt(c: Config, t: Table, arrivals: seq<Arrival>, stacks: seq<seq<byte>>, events: seq<Event>,
                               sent: seq<Option<seq<byte>>>, i: nat, j: nat)
    requires Served(c, t, arrivals, stacks, events, sent) && InOrder(arrivals) && i < j < |sent|
    requires Sent(sent[i], DHCPACK) && Client(sent[i].value) != [0, 0, 0, 0, 0, 0]
    requires arrivals[j].Latest() <= LeaseEnd(arrivals[i].at)
    requires sent[j].Some? && |sent[j].value| > OPTIONS && Given(sent[j].value) == Given(sent[i].value)
    ensures Client(sent[j].value) == Client(sent[i].value)
  {
    RunIsChronological(c, t, arrivals, stacks, events, sent);
    SentTellsReply(c, t, arrivals[i], stacks[i], events, i, sent[i]);
    SentTellsReply(c, t, arrivals[j], stacks[j], events, j, sent[j]);
    EventTimes(c, t, arrivals[j], stacks[j], events, j, sent[j]);
    AddressTellsSlot(c, ReplyTo(t, events, i).slot, ReplyTo(t, events, j).slot);
    LeaseIsExclusive(t, events, i, j);
  }

  /** The datagram is a DHCPREQUEST of `client` that asks for `address`, among any other options. */
  ghost predicate AsksFor(packet: seq<byte>, client: seq<byte>, address: seq<byte>, opts: seq<Opt>, junk: seq<byte>) {
    && OPTIONS < |packet| <= MSG_SIZE
    && Client(packet) == client
    && packet[OPTIONS..] == Encode(opts) + ([END] + junk)
    && Writable(opts) && |opts| > 0 && opts[0] == Opt(OPT_MSG_TYPE, [DHCPREQUEST])
    && FirstValue(opts, OPT_REQUESTED_IP) == Some(address)
  }

  /**
   The handshake on the wire.  If a DHCPOFFER has given a client an address and the client asks for
   it in a later DHCPREQUEST, a DHCPACK gives it the address, unless a DHCPACK in between gave it to
   another client.
   */
  lemma OfferIsAcknowledged(c: Config, t: Table, arrivals: seq<Arrival>, stacks: seq<seq<byte>>, events: seq<Event>,
                            sent: seq<Option<seq<byte>>>, i: nat, j: nat, opts: seq<Opt>, junk: seq<byte>)
    requires Served(c, t, arrivals, stacks, events, sent) && InOrder(arrivals) && i < j < |sent|
    requires Sent(sent[i], DHCPOFFER)
    requires AsksFor(arrivals[j].packet, Client(sent[i].value), Given(sent[i].value), opts, junk)
    requires forall k :: i < k < j && Sent(sent[k], DHCPACK) && Given(sent[k].value) == Given(sent[i].value) ==>
               Client(sent[k].value) == Client(sent[i].value)
    ensures Sent(sent[j], DHCPACK)
    ensures Given(sent[j].value) == Given(sent[i].value) && Client(sent[j].value) == Client(sent[i].value)
  {
    RunIsChronological(c, t, arrivals, stacks, events, sent);
    SentTellsReply(c, t, arrivals[i], stacks[i], events, i, sent[i]);
    var slot, a := ReplyTo(t, events, i).slot, arrivals[j];
    OfferedAddressAsksForItsSlot(c, slot, a.packet, opts, junk, stacks[j], a.readings, a.at);
    assert events[j].Request? && events[j].mac == events[i].mac && events[j].slot == slot;
    forall k | i < k < j && IsRivalRequest(events[k], events[j].mac, slot)
      ensures !ReplyTo(t, events, k).Ack?
    {
      SentTellsReply(c, t, arrivals[k], stacks[k], events, k, sent[k]);
    }
    OfferIsHonoured(t, events, i, j);
    SentTellsReply(c, t, a, stacks[j], events, j, sent[j]);
  }

  /**
   A DISCOVER gets a DHCPOFFER if and only if not all eight addresses belong to other clients whose
   leases test as live, and then it is one of the eight, for the client that asked.
   */
  lemma DiscoverIsAnswered(c: Config, t: Table, arrivals: seq<Arrival>, stacks: seq<seq<byte>>, events: seq<Event>,
                           sent: seq<Option<seq<byte>>>, i: nat)
    requires Served(c, t, arrivals, stacks, events, sent) && i < |sent|
    requires |arrivals[i].packet| >= 243 && arrivals[i].packet[242] == 1
    ensures var (table, client, readings) := (Final(t, events[..i]), arrivals[i].packet[28..34], arrivals[i].readings);
            && |readings| == 8
            && (Sent(sent[i], 2) <==>
                  !forall k :: 0 <= k < 8 ==>
                     (table[k].mac != client && table[k].mac != [0, 0, 0, 0, 0, 0] && !TestsExpired(table[k].expiry, Ticks(readings[k]))))
            && (sent[i].Some? ==> Sent(sent[i], 2) && Client(sent[i].value) == client
                                  && exists k :: 0 <= k < 8 && Given(sent[i].value) == SlotAddress(c, k))
  {
    var a := arrivals[i];
    MeaningOfDatagram(c, a.packet, stacks[i], a.readings, a.at);
    SentTellsReply(c, t, a, stacks[i], events, i, sent[i]);
    RefusedOnlyWhenFull(Final(t, events[..i]), a.packet[28..34], a.readings);
    if sent[i].Some? {
      assert Given(sent[i].value) == SlotAddress(c, ReplyTo(t, events, i).slot);
    }
  }

  /** A REQUEST for slot `k` gets a DHCPACK if and only if the slot is free or the client's own; anything ignored gets no reply. */
  lemma RequestIsAnswered(c: Config, t: Table, arrivals: seq<Arrival>, stacks: seq<seq<byte>>, events: seq<Event>,
                          sent: seq<Option<seq<byte>>>, i: nat, k: nat)
    requires Served(c, t, arrivals, stacks, events, sent) && i < |sent| && k < 8
    requires |arrivals[i].packet| >= 243 && arrivals[i].packet[242] == 3
    requires AsksForSlot(c, Received(arrivals[i].packet, stacks[i]), k)
    ensures var (owner, client) := (Final(t, events[..i])[k].mac, arrivals[i].packet[28..34]);
            && (Sent(sent[i], 5) <==> owner == [0, 0, 0, 0, 0, 0] || owner == client)
            && (sent[i].Some? ==> Sent(sent[i], 5) && Client(sent[i].value) == client && Given(sent[i].value) == SlotAddress(c, k))
  {
    var a := arrivals[i];
    MeaningOfDatagram(c, a.packet, stacks[i], a.readings, a.at);
    SentTellsReply(c, t, a, stacks[i], events, i, sent[i]);
  }
}
