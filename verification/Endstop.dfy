/**
  End stop sampling on the micro-controller (src/endstop.c) and the host's reconstruction of the
  time of contact (klippy/mcu.py).

  A ghost log records every read of the pin with its unbounded clock, so that what the host reports
  can be compared with what the pin did.
 */
module Endstop {
  import opened Clock32
  import ClockSync

  /** One read of the pin: when, and whether it showed the awaited level. */
  datatype Sample = Sample(clock: int, matched: bool)

  /** The clock of the `k`-th read after the first, `step` ticks apart. */
  function At(start: int, step: int, k: nat): int { start + k * step }

  lemma AtNext(start: int, step: int, k: nat)
    ensures At(start, step, 0) == start && At(start, step, k + 1) == At(start, step, k) + step
  {
    assert (k + 1) * step == k * step + step;
  }

  /** The reads of a contact: the one that noticed it, then `k` more, `step` ticks apart. */
  function Contact(start: int, step: int, k: nat): (s: seq<Sample>)
    ensures |s| == k + 1 && s[0] == Sample(start, true)
    ensures forall j :: 1 <= j <= k ==> s[j] == Sample(At(start, step, j - 1), true)
  {
    if k == 0 then [Sample(start, true)]
    else Contact(start, step, k - 1) + [Sample(At(start, step, k - 1), true)]
  }

  class Endstop {
    var waketime: Ticks
    var oversampling: bool
    var restTime: Ticks
    var sampleTime: Ticks
    var nextwake: Ticks
    var pinHigh: bool
    var homing: bool
    var sampleCount: nat
    var triggerCount: nat
    var triggerReason: nat
    // Unbounded time of the next event, all reads so far, and the reads before the current contact.
    ghost var time: int
    ghost var log: seq<Sample>
    ghost var earlier: seq<Sample>
    ghost var start: int

    /** Waiting for the next timer event. */
    ghost predicate Waiting()
      reads this
    {
      && homing && 1 <= triggerCount <= sampleCount < 256 && waketime == Wrap(time)
      && if oversampling then
           var k := sampleCount - triggerCount;
           && InContact(k) && time == At(start, sampleTime, k)
         else
           triggerCount == sampleCount && (log != [] ==> !log[|log| - 1].matched)
    }

    /** The log ends in a contact that began at `start` and has been read `k` times since. */
    ghost predicate InContact(k: nat)
      reads this
    {
      && log == earlier + Contact(start, sampleTime, k)
      && (earlier != [] ==> !earlier[|earlier| - 1].matched)
      && nextwake == Wrap(start + restTime)
    }

    constructor ()
    {
      homing, oversampling := false, false;
    }

    /** Start homing, or stop it when no samples are asked for. */
    method Home(clock: Ticks, ghost time: int, sampleTicks: Ticks, sampleCount: nat, restTicks: Ticks,
                pinValue: bool, triggerReason: nat)
      requires clock == Wrap(time) && sampleCount < 256
      modifies this
      ensures if sampleCount == 0 then !homing
              else Waiting() && !oversampling && this.time == time && log == []
                   && this.sampleCount == sampleCount && sampleTime == sampleTicks && restTime == restTicks
                   && pinHigh == pinValue && this.triggerReason == triggerReason
    {
      hide Wrap;
      waketime, sampleTime, this.sampleCount := clock, sampleTicks, sampleCount;
      if sampleCount == 0 {
        homing := false;
        return;
      }
      restTime, oversampling, triggerCount := restTicks, false, sampleCount;
      homing, pinHigh, this.triggerReason := true, pinValue, triggerReason;
      this.time, log := time, [];
    }

    /** The timer event; `first` and `second` are the levels that reads of the pin return. */
    method Event(first: bool, second: bool) returns (triggered: bool)
      requires Waiting()
      modifies `waketime, `oversampling, `nextwake, `triggerCount, `time, `log, `earlier, `start
      ensures if triggered then InContact(sampleCount) else Waiting()
      ensures log == old(log) + (if old(oversampling) || first != pinHigh then [Sample(old(time), first == pinHigh)]
                                 else [Sample(old(time), true), Sample(old(time), second == pinHigh)])
      ensures !triggered && !oversampling ==> time == (if old(oversampling) then start else old(time)) + restTime
      ensures old(oversampling) ==> start == old(start) && earlier == old(earlier)
    {
      if oversampling {
        triggered := OversampleEvent(first);
      } else {
        triggered := FirstEvent(first, second);
      }
    }

    method FirstEvent(val: bool, again: bool) returns (triggered: bool)
      requires Waiting() && !oversampling
      modifies `waketime, `oversampling, `nextwake, `triggerCount, `time, `log, `earlier, `start
      ensures if triggered then InContact(sampleCount) else Waiting()
      ensures log == old(log) + (if val != pinHigh then [Sample(old(time), false)]
                                 else [Sample(old(time), true), Sample(old(time), again == pinHigh)])
      ensures !triggered && !oversampling ==> time == old(time) + restTime
    {
      hide Wrap, At;
      AtNext(time, sampleTime, 0);
      var next := Wrap(waketime + restTime);
      WrapSum(time, restTime);
      if val != pinHigh {
        log := log + [Sample(time, false)];
        waketime, time := next, time + restTime;
        return false;
      }
      earlier, start := log, time;
      log := log + [Sample(time, true)];
      assert log == earlier + Contact(start, sampleTime, 0);
      nextwake := next;
      oversampling := true;
      triggered := OversampleEvent(again);
    }

    method OversampleEvent(val: bool) returns (triggered: bool)
      requires Waiting() && oversampling
      modifies `waketime, `oversampling, `triggerCount, `time, `log
      ensures if triggered then InContact(sampleCount) else Waiting()
      ensures log == old(log) + [Sample(old(time), val == pinHigh)]
      ensures !triggered && !oversampling ==> time == start + restTime
    {
      hide Wrap, At;
      ghost var k := sampleCount - triggerCount;
      AtNext(start, sampleTime, k);
      if val != pinHigh {
        log := log + [Sample(time, false)];
        oversampling := false;
        waketime, time := nextwake, start + restTime;
        triggerCount := sampleCount;
        return false;
      }
      log := log + [Sample(time, true)];
      assert log == earlier + Contact(start, sampleTime, k + 1);
      var count := triggerCount - 1;
      if count == 0 {
        return true;
      }
      triggerCount := count;
      WrapSum(time, sampleTime);
      waketime, time := Wrap(waketime + sampleTime), time + sampleTime;
      return false;
    }
  }

  const REASON_ENDSTOP_HIT := 1
  const REASON_COMMS_TIMEOUT := 4

  datatype HomeResult = CommsTimeout | NotHit | HitAt(clock: int)

  /** What the host makes of a finished homing move. */
  method HomeWait(host: ClockSync.HostClock, res: nat, nextClock: Ticks, restTicks: Ticks, ghost t: int)
    returns (r: HomeResult)
    requires nextClock == Wrap(t)
    ensures if res >= REASON_COMMS_TIMEOUT then r == CommsTimeout
            else if res != REASON_ENDSTOP_HIT then r == NotHit
            else r.HitAt? && (-TWO31 <= t - host.lastClock < TWO31 ==> r.clock == t - restTicks)
  {
    if res >= REASON_COMMS_TIMEOUT {
      return CommsTimeout;
    }
    if res != REASON_ENDSTOP_HIT {
      return NotHit;
    }
    var c := host.Clock32ToClock64(nextClock, t);
    return HitAt(c - restTicks);
  }

  /**
    Home until the end stop triggers or the given reads run out.  The clock that the host reports is
    that of the first read of the contact that triggered: the last `sampleCount` reads after it all
    matched, evenly spaced, and the read before it, if any, did not.
   */
  method HomeMove(e: Endstop, host: ClockSync.HostClock, pins: seq<(bool, bool)>)
    returns (triggered: bool, r: HomeResult)
    requires e.Waiting() && e.log == [] && !e.oversampling
    modifies e
    ensures if triggered then e.InContact(e.sampleCount) && r.HitAt? && 0 < |e.log| <= 2 * |pins|
            else e.Waiting() && r == NotHit && |pins| <= |e.log| <= 2 * |pins|
    ensures triggered && -TWO31 <= e.start + e.restTime - host.lastClock < TWO31 ==> r == HitAt(e.start)
  {
    triggered := false;
    var i := 0;
    while i < |pins| && !triggered
      invariant i <= |pins| && i <= |e.log| <= 2 * i
      invariant if triggered then e.InContact(e.sampleCount) && i > 0 else e.Waiting()
      decreases |pins| - i
    {
      triggered := e.Event(pins[i].0, pins[i].1);
      i := i + 1;
    }
    r := NotHit;
    if triggered {
      r := HomeWait(host, REASON_ENDSTOP_HIT, e.nextwake, e.restTime, e.start + e.restTime);
    }
  }
}
