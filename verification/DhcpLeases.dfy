/**
 The lease table of the DHCP server as a state machine: eight slots, changed only by DISCOVER and
 REQUEST messages.  `Step` says declaratively what one message does; DhcpServer proves that the
 in-place scan of the table does exactly that.  The lemmas are about whole runs of messages from
 any number of clients, over unbounded real time.
 */
module DhcpLeases {
  import opened Bytes
  import opened DhcpTicks

  const MAX_IP := 8
  const MAC_LEN := 6

  type Mac = m: seq<byte> | |m| == MAC_LEN witness [0, 0, 0, 0, 0, 0]

  /** The all-zero address marks a free slot. */
  const FREE: Mac := [0, 0, 0, 0, 0, 0]

  datatype Lease = Lease(mac: Mac, expiry: uint16)

  type Table = t: seq<Lease> | |t| == MAX_IP witness seq(MAX_IP, _ => Lease(FREE, 0))

  const EMPTY_TABLE: Table := seq(MAX_IP, _ => Lease(FREE, 0))

  /**
   A message that reaches the lease table, with the real times at which the server reads its
   clock: once for every slot while it scans for DISCOVER, once for REQUEST.  Every other datagram is
   ignored.
   */
  datatype Event =
    | Discover(mac: Mac, readings: seq<nat>)
    | Request(mac: Mac, slot: nat, at: nat)
    | Ignored(at: nat)
  {
    ghost predicate Valid() {
      match this
      case Discover(_, readings) =>
        |readings| == MAX_IP && forall i, j :: 0 <= i < j < MAX_IP ==> readings[i] <= readings[j]
      case Request(_, slot, _) => slot < MAX_IP
      case Ignored(_) => true
    }

    function Begin(): nat
      requires Valid()
    {
      if Discover? then readings[0] else at
    }

    function End(): nat
      requires Valid()
    {
      if Discover? then readings[MAX_IP - 1] else at
    }

    /** When this message's verdict on slot `s` is made. */
    function LooksAt(s: nat): (now: nat)
      requires Valid() && s < MAX_IP
      ensures Begin() <= now <= End()
    {
      if Discover? then readings[s] else at
    }
  }

  datatype Reply = Offer(slot: nat, mac: Mac) | Ack(slot: nat, mac: Mac) | Silent

  /** Slot `i` can be handed to a newcomer at time `now`: it is free, or its lease tests as over. */
  predicate Open(l: Lease, now: nat) {
    l.mac == FREE || TestsExpired(l.expiry, Ticks(now))
  }

  /** The first slot at or after `i` that belongs to `mac`; MAX_IP if there is none. */
  function FirstHeld(t: Table, mac: Mac, i: nat): (r: nat)
    requires i <= MAX_IP
    ensures i <= r <= MAX_IP
    ensures forall j :: i <= j < r ==> t[j].mac != mac
    ensures r < MAX_IP ==> t[r].mac == mac
    decreases MAX_IP - i
  {
    if i == MAX_IP || t[i].mac == mac then i else FirstHeld(t, mac, i + 1)
  }

  /** The first slot at or after `i` that is open when the scan reaches it; MAX_IP if there is none. */
  function FirstOpen(t: Table, readings: seq<nat>, i: nat): (r: nat)
    requires i <= MAX_IP == |readings|
    ensures i <= r <= MAX_IP
    ensures forall j :: i <= j < r ==> !Open(t[j], readings[j])
    ensures r < MAX_IP ==> Open(t[r], readings[r])
    decreases MAX_IP - i
  {
    if i == MAX_IP || Open(t[i], readings[i]) then i else FirstOpen(t, readings, i + 1)
  }

  /** The slot a DISCOVER is answered with: the client's own if it has one, else the first open one. */
  function Choice(t: Table, mac: Mac, readings: seq<nat>): (r: nat)
    requires |readings| == MAX_IP
    ensures r <= MAX_IP
  {
    var held := FirstHeld(t, mac, 0);
    if held < MAX_IP then held else FirstOpen(t, readings, 0)
  }

  /** The table after a DISCOVER: an open slot met before the client's own one ends up free. */
  function Swept(t: Table, mac: Mac, readings: seq<nat>): Table
    requires |readings| == MAX_IP
  {
    var open := FirstOpen(t, readings, 0);
    if open < FirstHeld(t, mac, 0) then t[open := t[open].(mac := FREE)] else t
  }

  predicate Grants(t: Table, mac: Mac, slot: nat)
    requires slot < MAX_IP
  {
    t[slot].mac == mac || t[slot].mac == FREE
  }

  /** What one message does to the table, and the reply it gets. */
  function Step(t: Table, e: Event): (Table, Reply)
    requires e.Valid()
  {
    match e
    case Discover(mac, readings) =>
      var slot := Choice(t, mac, readings);
      (Swept(t, mac, readings), if slot == MAX_IP then Silent else Offer(slot, mac))
    case Request(mac, slot, at) =>
      if Grants(t, mac, slot) then (t[slot := Lease(mac, ExpiryFrom(Ticks(at)))], Ack(slot, mac))
      else (t, Silent)
    case Ignored(_) => (t, Silent)
  }

  // ------------------------------------------------------------------------------------- runs

  /** Messages are handled one at a time, and real time does not run backwards. */
  ghost predicate Chronological(es: seq<Event>) {
    && (forall i :: 0 <= i < |es| ==> es[i].Valid())
    && (forall i, j :: 0 <= i < j < |es| ==> es[i].End() <= es[j].Begin())
  }

  /** The table after a run. */
  function Final(t: Table, es: seq<Event>): Table
    requires forall i :: 0 <= i < |es| ==> es[i].Valid()
  {
    if es == [] then t else Step(Final(t, es[..|es| - 1]), es[|es| - 1]).0
  }

  /** The reply that message `k` of a run gets. */
  function ReplyTo(t: Table, es: seq<Event>, k: nat): Reply
    requires k < |es| && forall i :: 0 <= i < |es| ==> es[i].Valid()
  {
    Step(Final(t, es[..k]), es[k]).1
  }

  lemma FinalOfPrefix(t: Table, es: seq<Event>, k: nat)
    requires k < |es| && forall i :: 0 <= i < |es| ==> es[i].Valid()
    ensures Final(t, es[..k + 1]) == Step(Final(t, es[..k]), es[k]).0
  {
    assert es[..k + 1][..k] == es[..k];
  }

  /** Slot `s` belongs to `mac` under a lease renewed no earlier than `since`, and no later than `until`. */
  ghost predicate Holds(t: Table, s: nat, mac: Mac, since: nat, until: nat) {
    && s < MAX_IP
    && t[s].mac == mac
    && exists renewed: nat :: since <= renewed <= until && t[s].expiry == ExpiryFrom(Ticks(renewed))
  }

  /** A held lease still tests as live up to the end of one renewed at `since`. */
  lemma HeldIsLive(t: Table, s: nat, mac: Mac, since: nat, until: nat, now: nat)
    requires Holds(t, s, mac, since, until) && mac != FREE
    requires until <= now <= LeaseEnd(since)
    ensures !Open(t[s], now)
  {
    var renewed: nat :| since <= renewed <= until && t[s].expiry == ExpiryFrom(Ticks(renewed));
    LaterRenewalEndsLater(since, renewed);
    LiveThenReclaimable(renewed, now - renewed);
    assert renewed + (now - renewed) == now;
  }

  /** One message before the lease's end leaves a held slot with its holder, and grants it to nobody else. */
  lemma StepKeepsHolder(t: Table, e: Event, s: nat, mac: Mac, since: nat, until: nat)
    requires e.Valid() && Holds(t, s, mac, since, until) && mac != FREE
    requires until <= e.Begin() && e.LooksAt(s) <= LeaseEnd(since)
    ensures Holds(Step(t, e).0, s, mac, since, e.End())
    ensures Step(t, e).1.Silent? || Step(t, e).1.slot != s || Step(t, e).1.mac == mac
  {
    var renewed: nat :| since <= renewed <= until && t[s].expiry == ExpiryFrom(Ticks(renewed));
    if e.Discover? {
      HeldIsLive(t, s, mac, since, until, e.readings[s]);
      assert FirstOpen(t, e.readings, 0) != s;
      assert Step(t, e).0[s] == t[s];
    } else if e.Request? && e.slot == s && Grants(t, e.mac, s) {
      assert Step(t, e).0[s].expiry == ExpiryFrom(Ticks(e.at));
    } else {
      assert Step(t, e).0[s] == t[s];
    }
  }

  /** An acknowledged REQUEST starts a lease. */
  lemma GrantStartsLease(t: Table, e: Event)
    requires e.Request? && e.Valid() && Step(t, e).1.Ack?
    ensures Holds(Step(t, e).0, e.slot, e.mac, e.at, e.End())
  {
    assert Step(t, e).0[e.slot].expiry == ExpiryFrom(Ticks(e.at));
  }

  /** Through a run whose message `i` granted a slot, the slot stays held to the lease's end. */
  lemma {:induction false} RunKeepsHolder(t: Table, es: seq<Event>, i: nat, k: nat)
    requires Chronological(es) && i < k <= |es|
    requires es[i].Request? && es[i].mac != FREE && ReplyTo(t, es, i).Ack?
    requires forall j :: i < j < k ==> es[j].LooksAt(es[i].slot) <= LeaseEnd(es[i].at)
    ensures Holds(Final(t, es[..k]), es[i].slot, es[i].mac, es[i].at, es[k - 1].End())
  {
    var before, last := Final(t, es[..k - 1]), es[k - 1];
    assert Final(t, es[..k]) == Step(before, last).0 by {
      FinalOfPrefix(t, es, k - 1);
    }
    if k == i + 1 {
      GrantStartsLease(before, last);
    } else {
      RunKeepsHolder(t, es, i, k - 1);
      StepKeepsHolder(before, last, es[i].slot, es[i].mac, es[i].at, es[k - 2].End());
    }
  }

  /**
   Lease exclusivity over whole runs.  In any run from any table, once message `i` has an address
   acknowledged to a client, no message that looks at that address before the lease's end, at least
   LEASE_MS later, makes the server offer or acknowledge it to anyone else.
   */
  lemma LeaseIsExclusive(t: Table, es: seq<Event>, i: nat, j: nat)
    requires Chronological(es) && i < j < |es|
    requires es[i].Request? && es[i].mac != FREE && ReplyTo(t, es, i).Ack?
    requires es[j].LooksAt(es[i].slot) <= LeaseEnd(es[i].at)
    ensures var reply := ReplyTo(t, es, j);
            reply.Silent? || reply.slot != es[i].slot || reply.mac == es[i].mac
  {
    forall k | i < k < j
      ensures es[k].LooksAt(es[i].slot) <= LeaseEnd(es[i].at)
    {
      assert es[k].End() <= es[j].Begin();
    }
    RunKeepsHolder(t, es, i, j);
    StepKeepsHolder(Final(t, es[..j]), es[j], es[i].slot, es[i].mac, es[i].at, es[j - 1].End());
  }

  /** The exclusion of the zero address is needed: a slot acknowledged to it still counts as free. */
  lemma ZeroAddressIsNotExclusive(t: Table, other: Mac, s: nat, at: nat)
    requires s < MAX_IP && Grants(t, FREE, s)
    ensures var es := [Request(FREE, s, at), Request(other, s, at)];
            ReplyTo(t, es, 0) == Ack(s, FREE) && ReplyTo(t, es, 1) == Ack(s, other)
  {
    var es := [Request(FREE, s, at), Request(other, s, at)];
    assert es[..1] == [es[0]] && es[..1][..0] == [] == es[..0];
  }

  /**
   The bound is exact: from the end of the lease on, for 2^31 ms, a DISCOVER from a newcomer is
   answered with the holder's address if the other slots are not open.
   */
  lemma LapsedLeaseIsReoffered(t: Table, s: nat, renewed: nat, mac: Mac, readings: seq<nat>)
    requires Discover(mac, readings).Valid() && s < MAX_IP
    requires t[s].expiry == ExpiryFrom(Ticks(renewed))
    requires LeaseEnd(renewed) < readings[s] <= LeaseEnd(renewed) + HALF_WORD
    requires forall i :: 0 <= i < MAX_IP ==> t[i].mac != mac
    requires forall i :: 0 <= i < MAX_IP && i != s ==> !Open(t[i], readings[i])
    ensures Step(t, Discover(mac, readings)) == (t[s := t[s].(mac := FREE)], Offer(s, mac))
  {
    LiveThenReclaimable(renewed, readings[s] - renewed);
    assert renewed + (readings[s] - renewed) == readings[s];
    assert Open(t[s], readings[s]);
  }

  // -------------------------------------------------------------------------- single DISCOVERs

  /** A DISCOVER goes unanswered exactly when every slot is another client's and tests as live. */
  lemma RefusedOnlyWhenFull(t: Table, mac: Mac, readings: seq<nat>)
    requires Discover(mac, readings).Valid()
    ensures Step(t, Discover(mac, readings)).1.Silent?
       <==> (forall i :: 0 <= i < MAX_IP ==>
               (t[i].mac != mac && t[i].mac != FREE && !TestsExpired(t[i].expiry, Ticks(readings[i]))))
  {
    var held, open := FirstHeld(t, mac, 0), FirstOpen(t, readings, 0);
    assert held < MAX_IP ==> t[held].mac == mac;
    assert open < MAX_IP ==> Open(t[open], readings[open]);
    assert held == open == MAX_IP ==> forall i :: 0 <= i < MAX_IP ==> !Open(t[i], readings[i]) && t[i].mac != mac;
  }

  /**
   What a DISCOVER can do to the table: at most one lease is cleared, never one that tests as live
   and never one of the requester's; and the slot it offers is the requester's own or a free one.
   */
  lemma DiscoverClearsAtMostOne(t: Table, mac: Mac, readings: seq<nat>)
    requires Discover(mac, readings).Valid()
    ensures var (t', reply) := Step(t, Discover(mac, readings));
            && (forall i :: 0 <= i < MAX_IP && t'[i] != t[i] ==>
                  && t'[i] == Lease(FREE, t[i].expiry)
                  && t[i].mac != mac
                  && TestsExpired(t[i].expiry, Ticks(readings[i])))
            && (forall i, j :: 0 <= i < j < MAX_IP ==> t'[i] == t[i] || t'[j] == t[j])
            && (reply.Offer? ==> Grants(t', mac, reply.slot))
            && (reply.Offer? && t'[reply.slot].mac != mac ==> forall i :: 0 <= i < MAX_IP ==> t[i].mac != mac)
  {
  }

  // ------------------------------------------------------------------------ the offer handshake

  /** Message `e` is another client's REQUEST for slot `s`. */
  predicate IsRivalRequest(e: Event, mac: Mac, s: nat) {
    e.Request? && e.slot == s && e.mac != mac
  }

  lemma {:induction false} GrantSurvives(t: Table, es: seq<Event>, i: nat, k: nat, mac: Mac, s: nat)
    requires Chronological(es) && i <= k <= |es| && s < MAX_IP
    requires Grants(Final(t, es[..i]), mac, s)
    requires forall j :: i <= j < k && IsRivalRequest(es[j], mac, s) ==> !ReplyTo(t, es, j).Ack?
    ensures Grants(Final(t, es[..k]), mac, s)
  {
    if i < k {
      GrantSurvives(t, es, i, k - 1, mac, s);
      FinalOfPrefix(t, es, k - 1);
      GrantSurvivesStep(Final(t, es[..k - 1]), es[k - 1], mac, s);
    }
  }

  lemma GrantSurvivesStep(t: Table, e: Event, mac: Mac, s: nat)
    requires e.Valid() && s < MAX_IP && Grants(t, mac, s)
    requires IsRivalRequest(e, mac, s) ==> !Step(t, e).1.Ack?
    ensures Grants(Step(t, e).0, mac, s)
  {
    if e.Discover? {
      DiscoverClearsAtMostOne(t, e.mac, e.readings);
    }
  }

  /**
   The offer/request handshake under interleaving: if message `i` offers an address to a client and
   message `j` is that client's REQUEST for it, the request is acknowledged, however many other
   messages were handled in between, provided no other client had a REQUEST for the address
   acknowledged in between.
   */
  lemma OfferIsHonoured(t: Table, es: seq<Event>, i: nat, j: nat)
    requires Chronological(es) && i < j < |es|
    requires es[i].Discover? && ReplyTo(t, es, i).Offer?
    requires es[j].Request? && es[j].mac == es[i].mac && es[j].slot == ReplyTo(t, es, i).slot
    requires forall k :: i < k < j && IsRivalRequest(es[k], es[j].mac, es[j].slot) ==> !ReplyTo(t, es, k).Ack?
    ensures ReplyTo(t, es, j) == Ack(es[j].slot, es[j].mac)
  {
    FinalOfPrefix(t, es, i);
    DiscoverClearsAtMostOne(Final(t, es[..i]), es[i].mac, es[i].readings);
    GrantSurvives(t, es, i + 1, j, es[j].mac, es[j].slot);
  }

  // -------------------------------------------------------------- clients that follow the protocol

  /** The address most recently offered to `mac` in a run. */
  function LatestOffer(t: Table, es: seq<Event>, mac: Mac): Option<nat>
    requires forall i :: 0 <= i < |es| ==> es[i].Valid()
  {
    if es == [] then None
    else
      var last := |es| - 1;
      var reply := ReplyTo(t, es, last);
      if reply.Offer? && reply.mac == mac then Some(reply.slot) else LatestOffer(t, es[..last], mac)
  }

  /** No message comes from the zero address, and every REQUEST asks for the sender's latest offer. */
  ghost predicate FollowsOffers(t: Table, es: seq<Event>)
    requires forall i :: 0 <= i < |es| ==> es[i].Valid()
  {
    forall k :: 0 <= k < |es| ==>
      && (es[k].Discover? || es[k].Request? ==> es[k].mac != FREE)
      && (es[k].Request? ==> LatestOffer(t, es[..k], es[k].mac) == Some(es[k].slot))
  }

  /** After every run of clients that follow their offers, a slot is held only by the client whose latest offer it was. */
  lemma {:induction false} HeldAsOffered(es: seq<Event>, s: nat)
    requires s < MAX_IP && forall k :: 0 <= k < |es| ==> es[k].Valid()
    requires FollowsOffers(EMPTY_TABLE, es)
    ensures var mac := Final(EMPTY_TABLE, es)[s].mac;
            mac != FREE ==> LatestOffer(EMPTY_TABLE, es, mac) == Some(s)
    decreases |es|
  {
    if es != [] {
      var before, e := es[..|es| - 1], es[|es| - 1];
      forall k | 0 <= k < |before|
        ensures before[..k] == es[..k]
      {
      }
      HeldAsOffered(before, s);
      var t := Final(EMPTY_TABLE, before);
      if e.Discover? {
        DiscoverClearsAtMostOne(t, e.mac, e.readings);
        if Choice(t, e.mac, e.readings) < MAX_IP && t[s].mac == e.mac {
          HeldAsOffered(before, Choice(t, e.mac, e.readings));
        }
      }
    }
  }

  /**
   One lease per protocol-following client: if clients only ask for the address they were last
   offered, then after every run from the empty table no client holds two slots.
   */
  lemma OneLeasePerClient(es: seq<Event>, i: nat, j: nat)
    requires forall k :: 0 <= k < |es| ==> es[k].Valid()
    requires FollowsOffers(EMPTY_TABLE, es)
    requires i < j < MAX_IP && Final(EMPTY_TABLE, es)[i].mac != FREE
    ensures Final(EMPTY_TABLE, es)[i].mac != Final(EMPTY_TABLE, es)[j].mac
  {
    HeldAsOffered(es, i);
    HeldAsOffered(es, j);
  }

  // ------------------------------------------------------------------- clients that do not

  /** No client holds two slots. */
  ghost predicate OneSlotEach(t: Table) {
    forall i, j :: 0 <= i < j < MAX_IP && t[i].mac != FREE ==> t[i].mac != t[j].mac
  }

  /** Message `e` is a REQUEST for a free slot by a client that holds another one. */
  predicate TakesSecond(t: Table, e: Event)
    requires e.Valid()
  {
    e.Request? && e.mac != FREE && t[e.slot].mac == FREE && exists i :: 0 <= i < MAX_IP && t[i].mac == e.mac
  }

  /**
   Exactly one kind of message gives a client a second slot: its REQUEST for a free slot while it
   holds another, whichever it was offered.
   */
  lemma SecondSlotIffTaken(t: Table, e: Event)
    requires e.Valid() && OneSlotEach(t)
    ensures OneSlotEach(Step(t, e).0) <==> !TakesSecond(t, e)
  {
    if e.Discover? {
      DiscoverClearsAtMostOne(t, e.mac, e.readings);
    } else if e.Request? && Grants(t, e.mac, e.slot) {
      OwnersAfterGrant(t, e);
    }
  }

  lemma OwnersAfterGrant(t: Table, e: Event)
    requires e.Valid() && OneSlotEach(t) && e.Request? && Grants(t, e.mac, e.slot)
    ensures OneSlotEach(Step(t, e).0) <==> !TakesSecond(t, e)
  {
    var t' := Step(t, e).0;
    assert forall i :: 0 <= i < MAX_IP ==> t'[i].mac == if i == e.slot then e.mac else t[i].mac;
    if TakesSecond(t, e) {
      var i :| 0 <= i < MAX_IP && t[i].mac == e.mac;
      assert t'[i].mac == t'[e.slot].mac;
    }
  }

  /** In no message of a run does a client take a second slot. */
  ghost predicate NoneTaken(t: Table, es: seq<Event>)
    requires forall i :: 0 <= i < |es| ==> es[i].Valid()
  {
    forall k :: 0 <= k < |es| ==> !TakesSecond(Final(t, es[..k]), es[k])
  }

  lemma {:induction false} NoneTakenKeepsOne(es: seq<Event>, k: nat)
    requires k <= |es| && forall i :: 0 <= i < |es| ==> es[i].Valid()
    requires NoneTaken(EMPTY_TABLE, es)
    ensures OneSlotEach(Final(EMPTY_TABLE, es[..k]))
  {
    if k > 0 {
      NoneTakenKeepsOne(es, k - 1);
      FinalOfPrefix(EMPTY_TABLE, es, k - 1);
      SecondSlotIffTaken(Final(EMPTY_TABLE, es[..k - 1]), es[k - 1]);
    }
  }

  /** In every run from the empty table: no client ever holds two slots if and only if none takes a second one so. */
  lemma OneSlotEachIffNoneTaken(es: seq<Event>)
    requires forall k :: 0 <= k < |es| ==> es[k].Valid()
    ensures (forall k :: 0 <= k <= |es| ==> OneSlotEach(Final(EMPTY_TABLE, es[..k]))) <==> NoneTaken(EMPTY_TABLE, es)
  {
    if NoneTaken(EMPTY_TABLE, es) {
      forall k | 0 <= k <= |es|
        ensures OneSlotEach(Final(EMPTY_TABLE, es[..k]))
      {
        NoneTakenKeepsOne(es, k);
      }
    } else {
      var k :| 0 <= k < |es| && TakesSecond(Final(EMPTY_TABLE, es[..k]), es[k]);
      if OneSlotEach(Final(EMPTY_TABLE, es[..k])) {
        FinalOfPrefix(EMPTY_TABLE, es, k);
        SecondSlotIffTaken(Final(EMPTY_TABLE, es[..k]), es[k]);
        assert !OneSlotEach(Final(EMPTY_TABLE, es[..k + 1]));
      }
    }
  }

  /** It can happen: a client that does not keep to its offers takes two addresses. */
  lemma GreedyClientHoldsTwo(mac: Mac, at: nat)
    ensures var t := Final(EMPTY_TABLE, [Request(mac, 0, at), Request(mac, 1, at)]);
            t[0].mac == mac && t[1].mac == mac
  {
    var es := [Request(mac, 0, at), Request(mac, 1, at)];
    assert es[..1] == [es[0]] && es[..1][..0] == [];
    assert Final(EMPTY_TABLE, es[..1]) == Step(EMPTY_TABLE, es[0]).0;
  }
}
