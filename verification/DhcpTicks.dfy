/**
 The lease clock of the DHCP server.

 Real time is an unbounded number of milliseconds.  The firmware sees it through a 32-bit
 millisecond counter, keeps only the top 16 bits of a lease's end, and decides whether the
 lease is over by the sign of a 32-bit difference.
 */
module DhcpTicks {
  import opened Words

  const HALF_WORD := 0x8000_0000
  const BLOCK := 0x1_0000
  const LEASE_MS := 24 * 60 * 60 * 1000

  type uint16 = x: int | 0 <= x < BLOCK
  type uint32 = x: int | 0 <= x < WORD

  /** What cyw43_hal_ticks_ms() returns at real time `now`. */
  function Ticks(now: nat): uint32 {
    now % WORD
  }

  /** The 16-bit expiry stored when a lease is acknowledged at tick value `ticks`. */
  function ExpiryFrom(ticks: uint32): uint16 {
    ((ticks + LEASE_MS) % WORD) / BLOCK
  }

  /** A 32-bit word read as a two's complement number. */
  function Signed(x: uint32): int {
    if x < HALF_WORD then x else x - WORD
  }

  /** The server's test for a lease that is over. */
  predicate TestsExpired(expiry: uint16, ticks: uint32) {
    Signed((expiry * BLOCK + 0xffff - ticks) % WORD) < 0
  }

  /** How much longer than LEASE_MS the truncated expiry lets a lease acknowledged at `t` live. */
  function Slack(t: nat): uint16 {
    0xffff - (t + LEASE_MS) % BLOCK
  }

  /** The last moment of a lease acknowledged at `t`. */
  function LeaseEnd(t: nat): (end: nat)
    ensures t + 86_400_000 <= end <= t + 86_400_000 + 0xffff
  {
    t + LEASE_MS + Slack(t)
  }

  /** Truncation moves every lease's end to the end of a block, so a later renewal never ends sooner. */
  lemma LaterRenewalEndsLater(t: nat, u: nat)
    requires t <= u
    ensures LeaseEnd(t) <= LeaseEnd(u)
  {
    var x, y := t + LEASE_MS, u + LEASE_MS;
    assert LeaseEnd(t) == x / BLOCK * BLOCK + 0xffff;
    assert LeaseEnd(u) == y / BLOCK * BLOCK + 0xffff;
    assert x / BLOCK <= y / BLOCK;
  }

  lemma WholeBlocks(x: int, q: int)
    ensures (x + q * BLOCK) % BLOCK == x % BLOCK
  {
  }

  /** Filling the low 16 bits moves the end of a lease up to the end of its 65,536 ms block. */
  lemma FilledExpiry(t: nat)
    ensures (ExpiryFrom(Ticks(t)) * BLOCK + 0xffff - (t + LEASE_MS + Slack(t))) % WORD == 0
  {
    var x := Ticks(t) + LEASE_MS;
    var y := x % WORD;
    var k, l := t / WORD, x / WORD;
    assert t == k * WORD + Ticks(t);
    assert x == l * WORD + y;
    assert t + LEASE_MS == (k + l) * WORD + y;
    WholeBlocks(y, (k + l) * BLOCK);
    assert (t + LEASE_MS) % BLOCK == y % BLOCK;
    assert ExpiryFrom(Ticks(t)) * BLOCK + 0xffff == y + Slack(t);
    WholeWords(0, -(k + l));
  }

  /**
   The exact reclaim window, for every clock phase and every elapsed time: a lease last
   acknowledged at `t` tests as expired after `e` milliseconds exactly when `e` lies in the
   first half of some 2^32 ms cycle that begins right after LEASE_MS + Slack(t).
   */
  lemma ReclaimWindow(t: nat, e: nat)
    ensures TestsExpired(ExpiryFrom(Ticks(t)), Ticks(t + e))
       <==> (e - LEASE_MS - Slack(t) - 1) % WORD < HALF_WORD
  {
    var d := LEASE_MS + Slack(t) - e;
    var w := ExpiryFrom(Ticks(t)) * BLOCK + 0xffff;
    FilledExpiry(t);
    var q := (w - (t + LEASE_MS + Slack(t))) / WORD;
    var k := (t + e) / WORD;
    assert w == t + LEASE_MS + Slack(t) + q * WORD;
    assert t + e == k * WORD + Ticks(t + e);
    assert w - Ticks(t + e) == d + (q + k) * WORD;
    WholeWords(d, q + k);
    // -d - 1 and d leave complementary remainders
    var a := d / WORD;
    assert d == a * WORD + d % WORD;
    WholeWords(WORD - 1 - d % WORD, -a - 1);
    assert e - LEASE_MS - Slack(t) - 1 == WORD - 1 - d % WORD + (-a - 1) * WORD;
  }

  /** Up to LEASE_MS + Slack(t) the lease is safe; for the next 2^31 ms it can be reclaimed. */
  lemma LiveThenReclaimable(t: nat, e: nat)
    ensures e <= 86_400_000 ==> !TestsExpired(ExpiryFrom(Ticks(t)), Ticks(t + e))
    ensures e <= LEASE_MS + Slack(t) ==> !TestsExpired(ExpiryFrom(Ticks(t)), Ticks(t + e))
    ensures LEASE_MS + Slack(t) < e <= LEASE_MS + Slack(t) + HALF_WORD
        ==> TestsExpired(ExpiryFrom(Ticks(t)), Ticks(t + e))
  {
    ReclaimWindow(t, e);
    var x := e - LEASE_MS - Slack(t) - 1;
    if x < 0 {
      WholeWords(x + WORD, -1);
    }
  }

  /**
   The test is not monotone: for the 2^31 ms that follow the reclaim window an abandoned lease
   tests as live again, and so on with period 2^32 ms.
   */
  lemma LapsedLeaseLooksLiveAgain(t: nat, e: nat)
    requires LEASE_MS + Slack(t) + HALF_WORD < e <= LEASE_MS + Slack(t) + WORD
    ensures !TestsExpired(ExpiryFrom(Ticks(t)), Ticks(t + e))
    ensures TestsExpired(ExpiryFrom(Ticks(t)), Ticks(t + e + HALF_WORD))
  {
    var x := e - LEASE_MS - Slack(t) - 1;
    assert HALF_WORD <= x < WORD;
    ReclaimWindow(t, e);
    ReclaimWindow(t, e + HALF_WORD);
    WholeWords(x + HALF_WORD - WORD, 1);
  }
}
