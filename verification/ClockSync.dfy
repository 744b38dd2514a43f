/**
  Extending the 32-bit counter: the micro-controller's high word (src/basecmd.c), the host's running
  64-bit clock (klippy/clocksync.py) and the conversions of single readings
  (klippy/chelper/msgblock.c).
 */
module ClockSync {
  import opened Clock32

  const TWO64: int := 0x1_0000_0000_0000_0000

  /** The last time before or at `now` that a counter starting at `base` can tell from its low word. */
  function Extended(base: int, now: int): int { base + (now - base) % TWO32 }

  /** Extension from `base` finds the true time exactly when less than one wrap has passed. */
  lemma ExtendedExact(base: int, now: int)
    ensures Extended(base, now) == now <==> 0 <= now - base < TWO32
  {}

  lemma ExtendedByWrap(base: int, now: int)
    ensures Extended(base, now) == base + Wrap(Wrap(now) - Wrap(base))
  {
    WrapDiff(now, base);
  }

  // ---------- micro-controller ----------

  /** The time that the micro-controller remembers after a statistics update at `now`. */
  function Remembered(recorded: int, interval: Ticks, now: int): int {
    if (now - recorded) % TWO32 >= interval then Extended(recorded, now) else recorded
  }

  function RememberedAll(interval: Ticks, ts: seq<int>): int
    requires ts != []
  {
    if |ts| == 1 then ts[0]
    else Remembered(RememberedAll(interval, ts[..|ts| - 1]), interval, ts[|ts| - 1])
  }

  /** The last update that was due, told by true times: those at least an interval after the one before. */
  function LastDue(interval: Ticks, ts: seq<int>): int
    requires ts != []
  {
    if |ts| == 1 then ts[0]
    else var before, now := LastDue(interval, ts[..|ts| - 1]), ts[|ts| - 1];
      if now - before >= interval then now else before
  }

  /** Every update comes less than one wrap after the last one that was due. */
  ghost predicate Timely(interval: Ticks, ts: seq<int>)
    requires ts != []
  {
    |ts| == 1 || (Timely(interval, ts[..|ts| - 1]) && ts[|ts| - 1] - LastDue(interval, ts[..|ts| - 1]) < TWO32)
  }

  /** At every update the extended counter is the true time. */
  ghost predicate Exact(interval: Ticks, ts: seq<int>)
    requires ts != []
  {
    |ts| == 1 || (Exact(interval, ts[..|ts| - 1])
                  && Extended(RememberedAll(interval, ts[..|ts| - 1]), ts[|ts| - 1]) == ts[|ts| - 1])
  }

  ghost predicate Ascending(ts: seq<int>) { forall i, j :: 0 <= i < j < |ts| ==> ts[i] <= ts[j] }

  /** Over any run of updates the counter is right exactly when the updates are timely. */
  lemma {:induction false} UptimeExact(interval: Ticks, ts: seq<int>)
    requires ts != [] && Ascending(ts)
    ensures LastDue(interval, ts) in ts
    ensures Exact(interval, ts) <==> Timely(interval, ts)
    ensures Exact(interval, ts) ==> RememberedAll(interval, ts) == LastDue(interval, ts)
  {
    if |ts| > 1 {
      var front, now := ts[..|ts| - 1], ts[|ts| - 1];
      UptimeExact(interval, front);
      assert LastDue(interval, front) <= now;
      ExtendedExact(RememberedAll(interval, front), now);
    }
  }

  predicate Roomy(interval: Ticks, ts: seq<int>, i: nat)
    requires 0 < i < |ts|
  {
    ts[i] - ts[i - 1] < TWO32 && ts[i] - ts[i - 1] + interval <= TWO32
  }

  /** Updates that leave room for the statistics interval before a wrap are timely. */
  lemma {:induction false} SpacedIsTimely(interval: Ticks, ts: seq<int>)
    requires ts != [] && Ascending(ts)
    requires forall i :: 0 < i < |ts| ==> Roomy(interval, ts, i)
    ensures Timely(interval, ts)
    ensures var gap := ts[|ts| - 1] - LastDue(interval, ts); gap == 0 || gap < interval
  {
    if |ts| > 1 {
      var front, now := ts[..|ts| - 1], ts[|ts| - 1];
      forall i | 0 < i < |front| ensures Roomy(interval, front, i) { assert Roomy(interval, ts, i); }
      SpacedIsTimely(interval, front);
      assert Roomy(interval, ts, |ts| - 1);
    }
  }

  /** Updates less than one wrap apart are not enough: an update that is not due forgets a wrap. */
  lemma GapOfOneWrapLost()
    ensures var ts := [0, 1, TWO32];
            ts[2] - ts[1] < TWO32 && !Exact(5, ts)
  {
    assert [0, 1, TWO32][..2] == [0, 1] && [0, 1][..1] == [0];
    assert RememberedAll(5, [0]) == 0;
    assert RememberedAll(5, [0, 1]) == 0;
  }

  class Uptime {
    var statsSendTime: Ticks
    var statsSendTimeHigh: Ticks
    const statsInterval: Ticks
    // The unbounded time that the two words stand for.
    ghost var recorded: int

    ghost predicate Valid()
      reads this
    {
      && recorded >= 0 && statsSendTime == Wrap(recorded) && statsSendTimeHigh == Wrap(recorded / TWO32)
    }

    constructor (statsInterval: Ticks)
      ensures Valid() && recorded == 0 && this.statsInterval == statsInterval
    {
      statsSendTime, statsSendTimeHigh, this.statsInterval, recorded := 0, 0, statsInterval, 0;
    }

    /** The uptime reported at time `now`. */
    method GetUptime(cur: Ticks, ghost now: int) returns (high: Ticks, clock: Ticks)
      requires Valid() && cur == Wrap(now)
      ensures high * TWO32 + clock == Extended(recorded, now) % TWO64
    {
      high := Wrap(statsSendTimeHigh + if cur < statsSendTime then 1 else 0);
      clock := cur;
      HighWord(recorded, now);
    }

    /** Called from the main loop; remembers the time when the statistics interval has passed. */
    method StatsUpdate(cur: Ticks, ghost now: int) returns (sent: bool)
      requires Valid() && cur == Wrap(now)
      modifies this
      ensures Valid()
      ensures sent <==> (now - old(recorded)) % TWO32 >= statsInterval
      ensures recorded == Remembered(old(recorded), statsInterval, now)
    {
      WrapDiff(now, recorded);
      sent := Wrap(cur - statsSendTime) >= statsInterval;
      if sent {
        if cur < statsSendTime {
          statsSendTimeHigh := Wrap(statsSendTimeHigh + 1);
        }
        statsSendTime := cur;
        HighWord(recorded, now);
        recorded := Extended(recorded, now);
      }
    }
  }

  /** The high word after an extension: one more when the low word has wrapped. */
  lemma HighWord(base: int, now: int)
    requires base >= 0
    ensures var e := Extended(base, now);
            var high := Wrap(Wrap(base / TWO32) + if Wrap(now) < Wrap(base) then 1 else 0);
            e >= 0 && Wrap(e) == Wrap(now) && high == Wrap(e / TWO32) && high * TWO32 + Wrap(now) == e % TWO64
  {
    var e, d := Extended(base, now), (now - base) % TWO32;
    var h, l := base / TWO32, base % TWO32;
    WrapSum(base, d);
    var k := (now - base) / TWO32;
    assert e == now - TWO32 * k;
    WrapUnique(e, Wrap(now), now / TWO32 - k);
    var carry := if Wrap(now) < l then 1 else 0;
    assert e == TWO32 * h + l + d;
    assert l + d == Wrap(now) || l + d == Wrap(now) + TWO32;
    assert e == TWO32 * (h + carry) + Wrap(now);
    assert e / TWO32 == h + carry;
    WrapSum(h, carry);
    TwoWords(h + carry, Wrap(now));
  }

  /** A high and a low word, modulo 2^64. */
  lemma TwoWords(high: int, low: Ticks)
    ensures (TWO32 * high + low) % TWO64 == Wrap(high) * TWO32 + low
  {
    assert TWO32 * high + low == TWO64 * (high / TWO32) + (TWO32 * (high % TWO32) + low);
  }

  // ---------- host ----------

  /** `clock_from_clock32` of the C code, in 64-bit arithmetic. */
  function ClockFromClock32(lastClock: int, clock32: Ticks): int {
    (lastClock + SignedDiff(clock32, Wrap(lastClock))) % TWO64
  }

  /** The reading nearest to a clock is the true time exactly when that is less than half a wrap away. */
  lemma NearestReading(last: int, clock32: Ticks, t: int)
    requires clock32 == Wrap(t)
    ensures var d := Wrap(clock32 - last);
            SignedDiff(clock32, Wrap(last)) == if d >= TWO31 then d - TWO32 else d
    ensures -TWO32 < t - last < TWO32 ==>
      (last + SignedDiff(clock32, Wrap(last)) == t <==> -TWO31 <= t - last < TWO31)
  {
    WrapDiff(t, last);
    WrapSum(t, 0 - last);
    if -TWO32 < t - last < 0 { assert (t - last) % TWO32 == t - last + TWO32; }
  }

  class HostClock {
    var lastClock: int

    /** Load the initial clock from an uptime report. */
    constructor (high: Ticks, clock: Ticks)
      ensures lastClock == high * TWO32 + clock
    {
      lastClock := high * TWO32 + clock;
    }

    /** A periodic reading of the low word moves the running clock forward. */
    method HandleClock(clock: Ticks, ghost now: int)
      requires clock == Wrap(now)
      modifies this
      ensures lastClock == Extended(old(lastClock), now)
    {
      ExtendedByWrap(lastClock, now);
      WrapDiff(clock, lastClock);
      var clockDelta := Wrap(clock - lastClock);
      lastClock := lastClock + clockDelta;
    }

    /** Any reading taken near the running clock, in the past or the future. */
    method Clock32ToClock64(clock32: Ticks, ghost t: int) returns (c: int)
      requires clock32 == Wrap(t)
      ensures c % TWO64 == ClockFromClock32(lastClock, clock32)
      ensures -TWO32 < t - lastClock < TWO32 ==> (c == t <==> -TWO31 <= t - lastClock < TWO31)
    {
      hide Wrap;
      var clockDiff := Wrap(clock32 - lastClock);
      NearestReading(lastClock, clock32, t);
      if clockDiff >= TWO31 {
        clockDiff := clockDiff - TWO32;
      }
      c := lastClock + clockDiff;
    }
  }

  /** The micro-controller since its start: what it remembers after any run of updates. */
  method Keep(interval: Ticks, readings: seq<Ticks>, ghost ts: seq<int>) returns (u: Uptime)
    requires |ts| == |readings| + 1 && ts[0] == 0
    requires forall i :: 0 <= i < |readings| ==> readings[i] == Wrap(ts[i + 1])
    ensures fresh(u) && u.Valid() && u.statsInterval == interval && u.recorded == RememberedAll(interval, ts)
  {
    u := new Uptime(interval);
    assert ts[..1] == [0];
    for i := 0 to |readings|
      invariant fresh(u) && u.Valid() && u.statsInterval == interval
      invariant u.recorded == RememberedAll(interval, ts[..i + 1])
    {
      assert ts[..i + 2][..i + 1] == ts[..i + 1];
      var _ := u.StatsUpdate(readings[i], ts[i + 1]);
    }
    assert ts[..|ts|] == ts;
  }

  /**
    The host connects: after timely updates it starts from the true time, if less than one wrap has passed
    since the last update that was due.
   */
  method Connect(interval: Ticks, readings: seq<Ticks>, ghost ts: seq<int>, cur: Ticks, ghost now: int)
    returns (h: HostClock)
    requires |ts| == |readings| + 1 && ts[0] == 0 && Ascending(ts) && Timely(interval, ts)
    requires forall i :: 0 <= i < |readings| ==> readings[i] == Wrap(ts[i + 1])
    requires cur == Wrap(now) && ts[|ts| - 1] <= now < TWO64
    ensures fresh(h) && (h.lastClock == now <==> now - LastDue(interval, ts) < TWO32)
  {
    var u := Keep(interval, readings, ts);
    UptimeExact(interval, ts);
    var high, clock := u.GetUptime(cur, now);
    h := new HostClock(high, clock);
    ghost var due := LastDue(interval, ts);
    ExtendedExact(due, now);
    ExtendedBelow(due, now);
  }

  lemma ExtendedBelow(base: int, now: int)
    requires 0 <= base <= now < TWO64
    ensures 0 <= Extended(base, now) <= now && Extended(base, now) % TWO64 == Extended(base, now)
  {}

  /** A session: uptime at `times[0]`, then periodic readings, each less than one wrap after the last. */
  method Track(high: Ticks, clock: Ticks, readings: seq<Ticks>, ghost times: seq<int>) returns (h: HostClock)
    requires |times| == |readings| + 1 && high * TWO32 + clock == times[0]
    requires forall i :: 0 <= i < |readings| ==> readings[i] == Wrap(times[i + 1])
    requires forall i :: 0 <= i < |readings| ==> 0 <= times[i + 1] - times[i] < TWO32
    ensures h.lastClock == times[|times| - 1]
  {
    h := new HostClock(high, clock);
    for i := 0 to |readings|
      invariant fresh(h) && h.lastClock == times[i]
    {
      h.HandleClock(readings[i], times[i + 1]);
      ExtendedExact(times[i], times[i + 1]);
    }
  }
}
