/**
 The shutter schedule of one timer task: exposures and pauses measured from a wake time that is
 advanced by exact amounts, so that late wake-ups do not add up.

 Real time is a natural number of ticks; the task sees it modulo 2^32.
 */
module TimerSchedule {
  import opened Words

  const INT_LIMIT := 0x8000_0000

  /** A write to the shutter pin: the tick at which it was due, and when it really happened. */
  datatype PinWrite = PinWrite(level: bool, due: nat, at: nat)

  function Max(a: nat, b: nat): nat {
    if a < b then b else a
  }

  /** Real time of the deadline before pin write `j`: writes alternate between exposure and pause. */
  function Deadline(start: nat, exposure: nat, pause: nat, j: nat): nat {
    start + j / 2 * (exposure + pause) + j % 2 * exposure
  }

  /** Real time of pin write `j`, if each wake-up is late by `latency[j]` or runs into the next deadline. */
  function HappensAt(start: nat, exposure: nat, pause: nat, latency: seq<nat>, j: nat): nat
    requires j < |latency|
  {
    if j == 0 then start + latency[0]
    else Max(HappensAt(start, exposure, pause, latency, j - 1), Deadline(start, exposure, pause, j)) + latency[j]
  }

  lemma NextDeadline(start: nat, exposure: nat, pause: nat, j: nat)
    ensures Deadline(start, exposure, pause, j + 1)
         == Deadline(start, exposure, pause, j) + Gap(exposure, pause, j)
  {
    if j % 2 == 0 {
      assert (j + 1) / 2 == j / 2 && (j + 1) % 2 == 1;
    } else {
      assert (j + 1) / 2 == j / 2 + 1 && (j + 1) % 2 == 0;
      assert (j / 2 + 1) * (exposure + pause) == j / 2 * (exposure + pause) + (exposure + pause);
    }
  }

  /**
   vTaskDelayUntil, in the real time of the model: advances the wake time by exactly `increment`, and
   returns when that time has come, or at once if it is past; `latency` is how late the task runs then.
   */
  method DelayUntil(lastWake: nat, increment: nat, now: nat, deadline: nat, latency: nat) returns (wake: nat, later: nat)
    requires lastWake == deadline % WORD
    ensures wake == (deadline + increment) % WORD
    ensures later == Max(now, deadline + increment) + latency
  {
    wake := (lastWake + increment) % WORD;
    assert deadline + increment == lastWake + increment + deadline / WORD * WORD;
    WholeWords(lastWake + increment, deadline / WORD);
    later := Max(now, deadline + increment) + latency;
  }

  /** The ticks from the deadline before write `j` to the next one. */
  function Gap(exposure: nat, pause: nat, j: nat): nat {
    if j % 2 == 0 then exposure else pause
  }

  /** Write `j` of the pin: on and off in turn, at its deadline modulo 2^32. */
  ghost predicate OnSchedule(w: PinWrite, start: nat, exposure: nat, pause: nat, latency: seq<nat>, j: nat)
    requires j < |latency|
  {
    w == PinWrite(j % 2 == 0, Deadline(start, exposure, pause, j) % WORD, HappensAt(start, exposure, pause, latency, j))
  }

  /** After these writes the task is at the deadline before the next one. */
  ghost predicate Before(writes: seq<PinWrite>, lastWake: nat, now: nat, deadline: nat,
                         start: nat, exposure: nat, pause: nat, latency: seq<nat>) {
    var j := |writes|;
    && j < |latency|
    && deadline == Deadline(start, exposure, pause, j) && lastWake == deadline % WORD
    && now == HappensAt(start, exposure, pause, latency, j)
    && forall k :: 0 <= k < j ==> OnSchedule(writes[k], start, exposure, pause, latency, k)
  }

  /**
   timer_task, from its first reading of the tick count at `start` on: whatever the latencies, it
   makes max(1, n) exposures, and exposure k ends at start + (k - 1) * (exposure + pause) + exposure.
   */
  method TimerTask(pictures: nat, exposure: nat, pause: nat, start: nat, latency: seq<nat>) returns (writes: seq<PinWrite>)
    requires pictures < INT_LIMIT && 0 < exposure && 0 < pause
    requires |latency| == 2 * Max(1, pictures)
    ensures |writes| == 2 * Max(1, pictures)
    ensures forall j :: 0 <= j < |writes| ==> OnSchedule(writes[j], start, exposure, pause, latency, j)
    // in other words: exposure k is writes 2k - 2 and 2k - 1
    ensures forall j :: 0 <= j < |writes| ==> writes[j].level == (j % 2 == 0)
    ensures forall j :: 0 <= j < |writes| ==>
              writes[j].due == (start + j / 2 * (exposure + pause) + if j % 2 == 0 then 0 else exposure) % 0x1_0000_0000
  {
    writes := [];
    var lastWake: nat, now: nat, deadline := start % WORD, start + latency[0], start;
    var i := 1;
    while i < pictures
      invariant 1 <= i <= Max(1, pictures) && |writes| == 2 * (i - 1)
      invariant Before(writes, lastWake, now, deadline, start, exposure, pause, latency)
    {
      writes, lastWake, now, deadline := Hold(true, exposure, writes, lastWake, now, deadline, start, exposure, pause, latency);
      writes, lastWake, now, deadline := Hold(false, pause, writes, lastWake, now, deadline, start, exposure, pause, latency);
      i := i + 1;
    }
    // the last exposure is not followed by a pause
    writes, lastWake, now, deadline := Hold(true, exposure, writes, lastWake, now, deadline, start, exposure, pause, latency);
    writes := writes + [PinWrite(false, lastWake, now)];
  }

  /** cyw43_arch_gpio_put and the vTaskDelayUntil after it. */
  method Hold(level: bool, increment: nat, writes0: seq<PinWrite>, lastWake0: nat, now0: nat, deadline0: nat,
              start: nat, exposure: nat, pause: nat, latency: seq<nat>)
    returns (writes: seq<PinWrite>, lastWake: nat, now: nat, deadline: nat)
    requires |writes0| + 1 < |latency| && level == (|writes0| % 2 == 0) && increment == Gap(exposure, pause, |writes0|)
    requires Before(writes0, lastWake0, now0, deadline0, start, exposure, pause, latency)
    ensures |writes| == |writes0| + 1
    ensures Before(writes, lastWake, now, deadline, start, exposure, pause, latency)
  {
    writes := writes0 + [PinWrite(level, lastWake0, now0)];
    NextDeadline(start, exposure, pause, |writes0|);
    lastWake, now := DelayUntil(lastWake0, increment, now0, deadline0, latency[|writes|]);
    deadline := deadline0 + increment;
  }

  /** Each of the first `n` writes is late by its own latency and by nothing else. */
  ghost predicate LateByOwnLatency(start: nat, exposure: nat, pause: nat, latency: seq<nat>, n: nat)
    requires n <= |latency|
  {
    forall j :: 0 <= j < n ==> HappensAt(start, exposure, pause, latency, j) == Deadline(start, exposure, pause, j) + latency[j]
  }

  /**
   No drift, and exactly when: each write is late by its own latency only, however many exposures
   came before it, if and only if no wake-up before the last of them is later than the next deadline.
   */
  lemma {:induction false} LatenessDoesNotAddUp(start: nat, exposure: nat, pause: nat, latency: seq<nat>, n: nat)
    requires n <= |latency|
    ensures LateByOwnLatency(start, exposure, pause, latency, n)
       <==> forall j :: 0 <= j < n - 1 ==> latency[j] <= Gap(exposure, pause, j)
  {
    if n > 1 {
      LatenessDoesNotAddUp(start, exposure, pause, latency, n - 1);
      NextDeadline(start, exposure, pause, n - 2);
      assert LateByOwnLatency(start, exposure, pause, latency, n)
        <==> LateByOwnLatency(start, exposure, pause, latency, n - 1)
             && HappensAt(start, exposure, pause, latency, n - 1) == Deadline(start, exposure, pause, n - 1) + latency[n - 1];
    }
  }
}
