/**
  Digital outputs with software PWM and their safety timeout (src/gpiocmds.c).

  Ghost times are unbounded: `time` is the current time, `wakeAt`, `endAt` and `due` are the times
  behind the 32-bit values of the timer, of `endTime` and of the queued updates.
 */
module DigitalOut {
  import opened Clock32

  datatype Update = Update(waketime: Ticks, onDuration: Ticks)

  datatype Func = Load | Toggle

  /** The shutdowns "Missed scheduling of next digital out event", "Scheduled digital out event will exceed
      max_duration", "Can not set soft pwm cycle ticks while updates pending" and "update_digital_out not valid
      with active queue". */
  datatype Reason = Missed | ExceedsMax | UpdatesPending | ActiveQueue

  datatype Outcome = Done | Reschedule | Shutdown(reason: Reason)

  /** What the host can send; a queued update names its time. */
  datatype Command = Wait | Queue(at: int, onTicks: Ticks) | SetCycle(ticks: Ticks) | Set(value: bool)

  datatype Step = Step(now: int, command: Command)

  /** Commands in order of time, their updates in order too, all within half the counter range. */
  ghost predicate Timely(run: seq<Step>, start: int) {
    && (forall k :: 0 <= k < |run| ==> Clock(run, start, k) <= run[k].now < Clock(run, start, k) + TWO31)
    && (forall k :: 0 <= k < |run| && run[k].command.Queue? ==>
          run[k].now <= run[k].command.at < run[k].now + TWO31)
    && (forall j, k :: 0 <= j < k < |run| && run[j].command.Queue? && run[k].command.Queue? ==>
          run[j].command.at <= run[k].command.at)
    && (forall k :: 0 <= k < |run| && run[k].command.SetCycle? ==> run[k].command.ticks < TWO31)
  }

  ghost function Clock(run: seq<Step>, start: int, k: nat): int
    requires k <= |run|
  {
    if k == 0 then start else run[k - 1].now
  }

  /** What an output shows: a level, or a train of pulses of `on` ticks, one in every `period`. */
  datatype Setting = Steady(level: bool) | Cycling(on: int, period: int)

  /** The setting that an update asks for. */
  function SettingOf(onTicks: Ticks, cycle: Ticks): Setting {
    if 0 < onTicks < cycle then Cycling(onTicks, cycle) else Steady(onTicks != 0)
  }

  /** The level during the tick that begins at `t`, of a setting that began at `start`. */
  function Level(s: Setting, start: int, t: int): bool {
    match s
    case Steady(level) => level
    case Cycling(on, period) => period > 0 && (t - start) % period < on
  }

  /** A setting, and the time after which it shows. */
  datatype Assignment = Assignment(from: int, setting: Setting)

  ghost function CycleBy(cycle: Ticks, s: Step): Ticks {
    if s.command.SetCycle? then s.command.ticks else cycle
  }

  /** The cycle time after a run. */
  ghost function CycleAfter(cycle: Ticks, run: seq<Step>): Ticks {
    if run == [] then cycle else CycleBy(CycleAfter(cycle, run[..|run| - 1]), run[|run| - 1])
  }

  /** A queued update shows once its time is over, a direct setting at once. */
  ghost function AssignedBy(cycle: Ticks, s: Step): seq<Assignment> {
    match s.command
    case Queue(at, onTicks) => [Assignment(at, SettingOf(onTicks, cycle))]
    case Set(value) => [Assignment(s.now - 1, Steady(value))]
    case _ => []
  }

  /** All settings that a run asks for, in order. */
  ghost function Assignments(cycle: Ticks, run: seq<Step>): seq<Assignment> {
    if run == [] then []
    else Assignments(cycle, run[..|run| - 1]) + AssignedBy(CycleAfter(cycle, run[..|run| - 1]), run[|run| - 1])
  }

  /** The last of the settings that shows at time `t`. */
  ghost function InEffect(list: seq<Assignment>, t: int): Assignment
    requires list != []
  {
    if |list| == 1 || list[|list| - 1].from < t then list[|list| - 1] else InEffect(list[..|list| - 1], t)
  }

  lemma TimelyStep(run: seq<Step>, start: int, k: nat)
    requires Timely(run, start) && k < |run|
    ensures Clock(run, start, k) <= run[k].now < Clock(run, start, k) + TWO31 && Clock(run, start, k + 1) == run[k].now
    ensures run[k].command.SetCycle? ==> run[k].command.ticks < TWO31
    ensures run[k].command.Queue? ==> run[k].now <= run[k].command.at < run[k].now + TWO31
    ensures run[k].command.Queue? ==>
      forall l :: k < l < |run| && run[l].command.Queue? ==> run[k].command.at <= run[l].command.at
  {}

  lemma NothingAsked(cycle: Ticks, run: seq<Step>)
    ensures Assignments(cycle, run[..0]) == [] && CycleAfter(cycle, run[..0]) == cycle
  {}

  lemma AssignmentsMore(start: seq<Assignment>, cycle: Ticks, run: seq<Step>, k: nat)
    requires k < |run|
    ensures CycleAfter(cycle, run[..k + 1]) == CycleBy(CycleAfter(cycle, run[..k]), run[k])
    ensures start + Assignments(cycle, run[..k + 1]) ==
            start + Assignments(cycle, run[..k]) + AssignedBy(CycleAfter(cycle, run[..k]), run[k])
  {
    hide AssignedBy;
    assert run[..k + 1][..k] == run[..k];
  }

  lemma {:induction false} InEffectAt(list: seq<Assignment>, t: int, c: nat)
    requires c < |list| && (c > 0 ==> list[c].from < t) && forall j :: c < j < |list| ==> t <= list[j].from
    ensures InEffect(list, t) == list[c]
    decreases |list|
  {
    if c < |list| - 1 { InEffectAt(list[..|list| - 1], t, c); }
  }

  /** Within the cycle that began at `risen` the phase counts from there. */
  lemma Phase(start: int, risen: int, period: int, t: int)
    requires period > 0 && (risen - start) % period == 0 && risen <= t < risen + period
    ensures (t - start) % period == t - risen
  {
    var k := (risen - start) / period;
    assert t - start == period * k + (t - risen);
    PhaseUnique(t - start, t - risen, k, period);
  }

  /** In every cycle the output is on for its share of the cycle, from the start of the cycle on. */
  lemma Waveform(onTicks: Ticks, cycle: Ticks, start: int, k: int, phase: int)
    requires 0 <= phase < cycle
    ensures Level(SettingOf(onTicks, cycle), start, start + cycle * k + phase) == (phase < onTicks)
  {
    PhaseUnique(cycle * k + phase, phase, k, cycle);
  }

  lemma PhaseUnique(x: int, r: int, k: int, p: int)
    requires p > 0 && 0 <= r < p && x == p * k + r
    ensures x % p == r
  {
    var d := x / p - k;
    assert p * d == r - x % p;
  }

  lemma PhaseNext(start: int, risen: int, period: int)
    requires period > 0 && (risen - start) % period == 0
    ensures (risen + period - start) % period == 0
  {
    var k := (risen - start) / period;
    assert risen + period - start == period * (k + 1) + 0;
    PhaseUnique(risen + period - start, 0, k + 1, period);
  }

  lemma Before(x: int, y: int)
    requires -TWO31 <= x - y < TWO31
    ensures IsBefore(Wrap(x), Wrap(y)) <==> x < y
  {
    NearIsExact(x, y);
  }

  /** The times of the queued updates: ordered, each less than half the counter range after the one before. */
  ghost predicate Ordered(queue: seq<Update>, due: seq<int>)
    ensures Ordered(queue, due) ==> |queue| == |due|
  {
    && |queue| == |due|
    && (forall k :: 0 <= k < |due| ==> queue[k].waketime == Wrap(due[k]))
    && (forall k :: 0 < k < |due| ==> due[k - 1] <= due[k] < due[k - 1] + TWO31)
  }

  lemma OrderedTail(queue: seq<Update>, due: seq<int>)
    requires Ordered(queue, due) && queue != []
    ensures Ordered(queue[1..], due[1..])
  {}

  lemma OrderedGap(queue: seq<Update>, due: seq<int>)
    requires Ordered(queue, due)
    ensures |queue| > 1 ==> due[0] <= due[1] < due[0] + TWO31
    ensures |queue| == |due|
  {}

  lemma {:induction false} OrderedSpan(queue: seq<Update>, due: seq<int>)
    requires Ordered(queue, due) && queue != []
    ensures due[0] <= due[|due| - 1]
  {
    if |due| > 1 {
      OrderedTail(queue, due);
      OrderedSpan(queue[1..], due[1..]);
    }
  }

  lemma {:induction false} OrderedFrom(queue: seq<Update>, due: seq<int>, i: nat)
    requires Ordered(queue, due) && i < |due|
    ensures due[0] <= due[i]
    decreases i
  {
    if i > 0 { OrderedFrom(queue, due, i - 1); }
  }

  lemma OrderedSnoc(queue: seq<Update>, due: seq<int>, u: Update, at: int)
    requires Ordered(queue, due) && u.waketime == Wrap(at)
    requires queue != [] ==> due[|due| - 1] <= at < due[|due| - 1] + TWO31
    ensures Ordered(queue + [u], due + [at])
  {}

  ghost predicate IsTail<T(!new)>(a: seq<T>, b: seq<T>) {
    |a| <= |b| && a == b[|b| - |a|..]
  }

  /** What a wait changes. */
  datatype Snapshot = Snapshot(queue: seq<Update>, due: seq<int>, check: bool, end: int, load: int, shown: Setting)

  /** The queue and the setting are what the last of the settings asked for leave at time `now`. */
  ghost predicate TracksBy(w: Snapshot, cycle: Ticks, now: int, list: seq<Assignment>)
    ensures TracksBy(w, cycle, now, list) ==> |w.queue| == |w.due| < |list|
  {
    && |w.queue| == |w.due| < |list|
    && (forall i :: 0 <= i < |w.queue| ==> now <= w.due[i] && Awaits(w, cycle, list, i))
    && var c := |list| - |w.queue| - 1;
       list[c].setting == w.shown && (w.shown.Cycling? ==> list[c].from == w.load) && (c > 0 ==> list[c].from < now)
  }

  ghost predicate Awaits(w: Snapshot, cycle: Ticks, list: seq<Assignment>, i: nat)
    requires i < |w.queue| == |w.due| < |list|
  {
    list[|list| - |w.queue| + i] == Assignment(w.due[i], SettingOf(w.queue[i].onDuration, cycle))
  }

  /** What a run has to show: the cycle time and the setting at its start, and what it promises. */
  datatype Goal = Goal(cycle: Ticks, list: seq<Assignment>, punctual: bool, visible: bool)

  /** Loading the first `n` updates keeps track of the settings. */
  lemma TailTracks(was: Snapshot, now: Snapshot, n: nat, cycle: Ticks, from: int, t: int, list: seq<Assignment>)
    requires TracksBy(was, cycle, from, list) && from <= t && n <= |was.queue| == |was.due|
    requires now.queue == was.queue[n..] && now.due == was.due[n..]
    requires forall i :: 0 <= i < |now.due| ==> t <= now.due[i]
    requires if n == 0 then now.load == was.load && now.shown == was.shown
             else now.load == was.due[n - 1] < t && now.shown == SettingOf(was.queue[n - 1].onDuration, cycle)
    ensures TracksBy(now, cycle, t, list)
  {
    hide SettingOf;
    forall i | 0 <= i < |now.queue| ensures t <= now.due[i] && Awaits(now, cycle, list, i) {
      assert Awaits(was, cycle, list, n + i);
    }
    if n > 0 { assert Awaits(was, cycle, list, n - 1); }
  }

  class DigitalOut {
    const defaultOn: bool
    const maxDuration: Ticks
    var waketime: Ticks
    var func: Func
    var scheduled: bool
    var onDuration: Ticks
    var offDuration: Ticks
    var endTime: Ticks
    var cycleTime: Ticks
    var pin: bool
    var on: bool
    var toggling: bool
    var checkEnd: bool
    var queue: seq<Update>

    ghost var due: seq<int>
    ghost var time: int
    ghost var wakeAt: int
    ghost var endAt: int
    ghost var lastLoad: int
    // The setting loaded last, and the start of its current cycle.
    ghost var shown: Setting
    ghost var risen: int

    /** The output is not at the level a shutdown would give it. */
    predicate Active()
      reads `toggling, `pin
    {
      toggling || pin != defaultOn
    }

    ghost predicate Pulsing()
      reads `onDuration, `offDuration
    {
      0 < onDuration && 0 < offDuration && onDuration + offDuration < TWO31
    }

    ghost predicate Valid()
      reads this
      ensures Valid() ==> |queue| == |due| && maxDuration < TWO31 && cycleTime < TWO31
    {
      Kept() && Shows()
    }

    /** The pin shows its setting: its last edge is over, and the next is scheduled unless the setting ends first. */
    ghost predicate Shows()
      reads this
    {
      match shown
      case Steady(level) => !toggling && pin == level
      case Cycling(on, period) =>
        && toggling && 0 < on < period < TWO31 && lastLoad <= risen && (risen - lastLoad) % period == 0
        && LastEdge() <= time
        && if func == Toggle then wakeAt == ComingEdge() && onDuration == on && offDuration == period - on
           else endAt <= ComingEdge()
    }

    ghost function LastEdge(): int
      reads `pin, `risen, `shown
    {
      if pin || shown.Steady? then risen else risen + shown.on
    }

    ghost function ComingEdge(): int
      reads `pin, `risen, `shown
    {
      if shown.Steady? then risen else if pin then risen + shown.on else risen + shown.period
    }

    /** No edge falls on this very moment. */
    ghost predicate BetweenEdges()
      reads this
    {
      shown.Cycling? ==> LastEdge() < time
    }

    /** The pin has the level of its setting. */
    lemma ShowsLevel()
      requires Valid() && BetweenEdges()
      ensures pin == Level(shown, lastLoad, time - 1)
    {
      hide Wrap, Ordered;
      if shown.Cycling? { Phase(lastLoad, risen, shown.period, time - 1); }
    }

    /** The invariant of the timing. */
    ghost predicate Kept()
      reads `waketime, `func, `scheduled, `onDuration, `offDuration, `endTime, `cycleTime, `pin, `on, `toggling
      reads `checkEnd, `queue, `due, `time, `wakeAt, `endAt, `lastLoad
      ensures Kept() ==> |queue| == |due| && maxDuration < TWO31 && cycleTime < TWO31
    {
      && Settled() && (queue != [] ==> checkEnd && endAt == due[0])
      && (queue == [] && checkEnd ==> endAt == lastLoad + maxDuration)
    }

    /** The invariant, apart from the link of the first queued update. */
    ghost predicate Settled()
      reads `waketime, `func, `scheduled, `onDuration, `offDuration, `endTime, `cycleTime, `pin, `on, `toggling
      reads `checkEnd, `queue, `due, `time, `wakeAt, `endAt, `lastLoad
    {
      && maxDuration < TWO31 && cycleTime < TWO31 && pin == on && lastLoad <= time
      && Ordered(queue, due)
      && (scheduled ==> time <= wakeAt < time + TWO31 && waketime == Wrap(wakeAt))
      && (scheduled <==> toggling || checkEnd)
      && (checkEnd ==> endTime == Wrap(endAt) && wakeAt <= endAt < time + TWO31)
      && (scheduled && func == Load ==> checkEnd && wakeAt == endAt)
      && (scheduled && func == Toggle ==> toggling && Pulsing() && (checkEnd ==> wakeAt < endAt))
      && (Active() && maxDuration > 0 ==> checkEnd && endAt <= lastLoad + maxDuration)
    }

    /** The host gives an output with a timeout its default value at the start. */
    constructor (value: bool, defaultOn: bool, maxDuration: Ticks)
      requires maxDuration < TWO31 && (maxDuration > 0 ==> value == defaultOn)
      ensures Valid() && this.defaultOn == defaultOn && this.maxDuration == maxDuration
      ensures pin == value && queue == [] && !scheduled && shown == Steady(value)
    {
      this.defaultOn, this.maxDuration := defaultOn, maxDuration;
      waketime, func, scheduled, onDuration, offDuration, endTime, cycleTime := 0, Load, false, 0, 0, 0, 0;
      pin, on, toggling, checkEnd, queue := value, value, false, false, [];
      due, time, wakeAt, endAt, lastLoad := [], 0, 0, 0, 0;
      shown, risen := Steady(value), 0;
    }

    /** A pulse edge; the last one before the end hands over to the load event. */
    method ToggleEvent() returns (r: Outcome)
      requires Valid() && scheduled && func == Toggle
      modifies `pin, `on, `func, `waketime, `wakeAt, `time, `risen
      ensures Valid() && r == Reschedule && time == old(wakeAt) && pin == !old(pin)
      ensures wakeAt > time && (func == Load <==> checkEnd && wakeAt == endAt)
      ensures func == Toggle ==> wakeAt == time + (if pin then onDuration else offDuration)
      ensures func == Load ==> endAt <= time + (if pin then onDuration else offDuration)
    {
      hide Kept;
      ScheduledFacts();
      Flip();
      PhaseNext(lastLoad, risen, shown.period);
      if pin {
        risen := risen + shown.period;
      }
      return Reschedule;
    }

    method Flip()
      requires Kept() && scheduled && func == Toggle
      modifies `pin, `on, `func, `waketime, `wakeAt, `time
      ensures Kept() && time == old(wakeAt) && pin == !old(pin)
      ensures wakeAt > time && (func == Load <==> checkEnd && wakeAt == endAt)
      ensures func == Toggle ==> wakeAt == time + (if pin then onDuration else offDuration)
      ensures func == Load ==> endAt <= time + (if pin then onDuration else offDuration)
    {
      hide Wrap, IsBefore, Ordered;
      time := wakeAt;
      pin := !pin;
      on := !on;
      NextEdge(if on then onDuration else offDuration);
    }

    /** Schedule the next edge, or the load event when the setting ends before it. */
    method NextEdge(step: Ticks)
      requires Kept() && scheduled && func == Toggle && time == wakeAt && 0 < step < TWO31
      modifies `func, `waketime, `wakeAt
      ensures Kept() && wakeAt > time && (func == Load <==> checkEnd && wakeAt == endAt)
      ensures if func == Toggle then wakeAt == time + step else endAt <= time + step
    {
      hide Wrap, IsBefore, Ordered;
      var wake := Wrap(waketime + step);
      WrapSum(wakeAt, step);
      if checkEnd {
        Before(wakeAt + step, endAt);
        if !IsBefore(wake, endTime) {
          func := Load;
          waketime, wakeAt := endTime, endAt;
          return;
        }
      }
      waketime, wakeAt := wake, wakeAt + step;
    }

    /** The end of the setting `u` loaded now: its timeout, or the next update, which must not be later. */
    method FindEnd(level: bool, toggle: bool) returns (ok: bool, check: bool, end: Ticks, ghost at: int)
      requires maxDuration < TWO31 && waketime == Wrap(wakeAt) && Ordered(queue, due)
      requires queue != [] ==> wakeAt <= due[0] < wakeAt + TWO31
      ensures var limited := maxDuration > 0 && (toggle || level != defaultOn);
              && ok == !(limited && queue != [] && wakeAt + maxDuration < due[0])
              && (ok ==> check == (limited || queue != []))
              && (ok && queue != [] ==> at == due[0])
              && (ok && limited ==> at <= wakeAt + maxDuration)
              && (ok && limited && queue == [] ==> at == wakeAt + maxDuration)
      ensures ok && check ==> end == Wrap(at) && wakeAt <= at < wakeAt + TWO31
    {
      hide Wrap, IsBefore;
      WrapSum(wakeAt, maxDuration);
      check, end, at := false, 0, 0;
      if !toggle {
        if level != defaultOn && maxDuration != 0 {
          end, at := Wrap(waketime + maxDuration), wakeAt + maxDuration;
          check := true;
        }
      } else {
        if maxDuration != 0 {
          end, at := Wrap(waketime + maxDuration), wakeAt + maxDuration;
          check := true;
        }
      }
      if queue != [] {
        var wake := queue[0].waketime;
        if check { Before(at, due[0]); }
        if check && IsBefore(end, wake) {
          return false, check, end, at;
        }
        end, at := wake, due[0];
        check := true;
      }
      ok := true;
    }

    /** Load the next update when it is due. */
    method LoadEvent() returns (r: Outcome)
      requires Valid() && scheduled && func == Load
      modifies this
      ensures r.Shutdown? ==> r.reason in {Missed, ExceedsMax}
      ensures r == Shutdown(Missed) <==> old(queue) == []
      ensures r == Shutdown(ExceedsMax) <==>
              (|old(queue)| > 1 && Limited(old(queue)[0]) && old(wakeAt) + maxDuration < old(due)[1])
      ensures !r.Shutdown? ==> Valid() && time == lastLoad == old(due)[0] == old(wakeAt) && Loaded(old(queue)[0])
      ensures !r.Shutdown? ==> queue == old(queue)[1..] && due == old(due)[1..] && (r.Reschedule? <==> scheduled)
      ensures !r.Shutdown? && queue == [] ==> (checkEnd <==> Limited(old(queue)[0]))
      ensures !r.Shutdown? && scheduled && func == Toggle ==> Pulses(old(queue)[0])
      ensures !r.Shutdown? && toggling && func == Load ==> endAt <= time + old(queue)[0].onDuration
      ensures !r.Shutdown? ==> shown == SettingOf(old(queue)[0].onDuration, cycleTime)
      ensures cycleTime == old(cycleTime) && (scheduled ==> wakeAt >= old(wakeAt))
    {
      hide Kept, SettingOf, Limited;
      ghost var first := if queue == [] then Update(0, 0) else queue[0];
      r := LoadNext();
      if !r.Shutdown? { Show(first); }
    }

    method LoadNext() returns (r: Outcome)
      requires Kept() && scheduled && func == Load
      modifies `pin, `on, `toggling, `checkEnd, `queue, `due, `time, `lastLoad, `endTime, `endAt, `scheduled, `waketime
      modifies `wakeAt, `func, `onDuration, `offDuration
      ensures r.Shutdown? ==> r.reason in {Missed, ExceedsMax}
      ensures r == Shutdown(Missed) <==> old(queue) == []
      ensures r == Shutdown(ExceedsMax) <==>
              (|old(queue)| > 1 && Limited(old(queue)[0]) && old(wakeAt) + maxDuration < old(due)[1])
      ensures !r.Shutdown? ==> Kept() && time == lastLoad == old(due)[0] == old(wakeAt) && Loaded(old(queue)[0])
      ensures !r.Shutdown? ==> queue == old(queue)[1..] && due == old(due)[1..] && (r.Reschedule? <==> scheduled)
      ensures !r.Shutdown? && queue == [] ==> (checkEnd <==> Limited(old(queue)[0]))
      ensures !r.Shutdown? && scheduled && func == Toggle ==> Pulses(old(queue)[0])
      ensures !r.Shutdown? && toggling && func == Load ==> endAt <= time + old(queue)[0].onDuration
      ensures cycleTime == old(cycleTime) && (scheduled ==> wakeAt >= old(wakeAt))
    {
      hide Wrap, IsBefore, Ordered, Stored;
      if queue == [] {
        return Shutdown(Missed);
      }
      OrderedTail(queue, due);
      OrderedGap(queue, due);
      var u := queue[0];
      queue, due := queue[1..], due[1..];
      var level := u.onDuration != 0;
      pin := level;
      var toggle := level && u.onDuration < cycleTime;
      var ok, check, end, at := FindEnd(level, toggle);
      if !ok {
        return Shutdown(ExceedsMax);
      }
      Store(u, check, end, at);
      r := Schedule(u);
    }

    /** The setting just loaded is shown from now on. */
    ghost method Show(u: Update)
      requires Kept() && Loaded(u) && time == lastLoad && (toggling && func == Load ==> endAt <= time + u.onDuration)
      requires scheduled && func == Toggle ==> Pulses(u)
      modifies `shown, `risen
      ensures Valid() && shown == SettingOf(u.onDuration, cycleTime)
    {
      hide Wrap, Ordered;
      shown, risen := SettingOf(u.onDuration, cycleTime), lastLoad;
    }

    method Store(u: Update, check: bool, end: Ticks, ghost at: int)
      requires maxDuration < TWO31 && cycleTime < TWO31 && waketime == Wrap(wakeAt) && scheduled && func == Load
      requires pin == (u.onDuration != 0) && Ordered(queue, due) && (queue != [] ==> check && at == due[0])
      requires check ==> end == Wrap(at) && wakeAt <= at < wakeAt + TWO31
      requires Limited(u) ==> check && at <= wakeAt + maxDuration
      requires queue == [] && check ==> Limited(u) && at == wakeAt + maxDuration
      modifies `time, `lastLoad, `endTime, `endAt, `on, `toggling, `checkEnd
      ensures Stored(u) && time == lastLoad == wakeAt && endAt == at && checkEnd == check
    {
      hide Wrap, Ordered;
      time, lastLoad := wakeAt, wakeAt;
      endTime, endAt := end, at;
      on, toggling, checkEnd := pin, 0 < u.onDuration < cycleTime, check;
    }

    /** The timeout applies to the setting `u`. */
    ghost predicate Limited(u: Update)
      reads `cycleTime
    {
      LimitedAt(cycleTime, u)
    }

    predicate LimitedAt(cycle: Ticks, u: Update) {
      maxDuration > 0 && (0 < u.onDuration < cycle || (u.onDuration != 0) != defaultOn)
    }

    /** The timeout limits exactly the settings that are at some time off the default level. */
    lemma LimitedMeans(cycle: Ticks, u: Update)
      ensures LimitedAt(cycle, u) <==>
        maxDuration > 0 && exists t :: Level(SettingOf(u.onDuration, cycle), 0, t) != defaultOn
    {
      var s := SettingOf(u.onDuration, cycle);
      if s.Cycling? {
        assert Level(s, 0, 0) && !Level(s, 0, s.on);
      } else {
        assert Level(s, 0, 0) == s.level;
      }
    }

    ghost predicate Loaded(u: Update)
      reads this
    {
      pin == (u.onDuration != 0) && toggling == (0 < u.onDuration < cycleTime)
    }

    /** The setting `u` pulses from now on, on and off for its share of the cycle. */
    ghost predicate Pulses(u: Update)
      reads this
    {
      && wakeAt == time + u.onDuration && onDuration == u.onDuration && onDuration + offDuration == cycleTime
      && (checkEnd ==> wakeAt < endAt)
    }

    /** A setting just loaded and stored, its first event not scheduled yet. */
    ghost predicate Stored(u: Update)
      reads this
    {
      && maxDuration < TWO31 && cycleTime < TWO31 && lastLoad == time == wakeAt && waketime == Wrap(wakeAt)
      && pin == on && Loaded(u) && scheduled && func == Load
      && Ordered(queue, due) && (queue != [] ==> checkEnd && endAt == due[0])
      && (checkEnd ==> endTime == Wrap(endAt) && wakeAt <= endAt < wakeAt + TWO31)
      && (Limited(u) ==> checkEnd && endAt <= wakeAt + maxDuration)
      && (queue == [] && checkEnd ==> Limited(u) && endAt == lastLoad + maxDuration)
    }

    /** Schedule the first event of the setting. */
    method Schedule(u: Update) returns (r: Outcome)
      requires Stored(u)
      modifies `scheduled, `waketime, `wakeAt, `func, `onDuration, `offDuration
      ensures Kept() && Loaded(u) && (r.Reschedule? <==> scheduled) && !r.Shutdown? && (scheduled ==> wakeAt >= time)
      ensures scheduled && func == Toggle ==> Pulses(u)
      ensures toggling && func == Load ==> endAt <= time + u.onDuration
    {
      hide Wrap, IsBefore, Ordered, Stored;
      if !toggling {
        if !checkEnd {
          Rest(u);
          return Done;
        }
        Expect(u);
        return Reschedule;
      }
      StoredPulse(u);
      var wake := Wrap(waketime + u.onDuration);
      if checkEnd && !IsBefore(wake, endTime) {
        Expect(u);
        return Reschedule;
      }
      Pulse(u);
      return Reschedule;
    }

    /** Nothing is scheduled for a steady output without timeout. */
    method Rest(u: Update)
      requires Stored(u) && !toggling && !checkEnd
      modifies `scheduled
      ensures Kept() && Loaded(u) && !scheduled
    {
      hide Wrap, Ordered;
      scheduled := false;
    }

    /** The next event is the load event at the end. */
    method Expect(u: Update)
      requires Stored(u) && checkEnd
      modifies `waketime, `wakeAt
      ensures Kept() && Loaded(u) && wakeAt >= time && func == Load
    {
      hide Wrap, Ordered;
      waketime, wakeAt := endTime, endAt;
    }

    /** The next event is the end of the first pulse. */
    method Pulse(u: Update)
      requires Stored(u) && toggling && (checkEnd ==> wakeAt + u.onDuration < endAt)
      modifies `waketime, `wakeAt, `func, `onDuration, `offDuration
      ensures Kept() && Loaded(u) && wakeAt >= time && func == Toggle && Pulses(u)
    {
      hide Wrap, Ordered;
      WrapSum(wakeAt, u.onDuration);
      func := Toggle;
      waketime, wakeAt := Wrap(waketime + u.onDuration), wakeAt + u.onDuration;
      onDuration, offDuration := u.onDuration, cycleTime - u.onDuration;
    }

    lemma StoredPulse(u: Update)
      requires Stored(u) && toggling
      ensures checkEnd ==> (IsBefore(Wrap(waketime + u.onDuration), endTime) <==> wakeAt + u.onDuration < endAt)
      ensures time == wakeAt
    {
      hide Wrap, IsBefore, Ordered;
      WrapSum(wakeAt, u.onDuration);
      if checkEnd { Before(wakeAt + u.onDuration, endAt); }
    }

    // ---------- commands ----------

    /** Queue an update for time `at`, not before the updates already queued. */
    method QueueUpdate(clock: Ticks, onTicks: Ticks, ghost at: int) returns (r: Outcome)
      requires Valid() && clock == Wrap(at) && time <= at < time + TWO31
      requires queue != [] ==> due[|due| - 1] <= at
      modifies `queue, `due, `endTime, `endAt, `checkEnd, `waketime, `wakeAt, `func, `scheduled
      ensures r == (if old(queue) == [] && old(checkEnd) && old(endAt) < at then Shutdown(ExceedsMax) else Done)
      ensures r.Done? ==> Valid() && queue == old(queue) + [Update(clock, onTicks)] && due == old(due) + [at]
      ensures r.Done? && old(queue) == [] ==> if old(toggling) && old(wakeAt) < at then GoesOn() else WaitsFor(at)
      ensures old(queue) != [] ==> GoesOn()
    {
      hide Kept;
      ScheduledFacts();
      r := Enqueue(clock, onTicks, at);
      if r.Done? { LinkFacts(); }
    }

    lemma LinkFacts()
      requires Kept()
      ensures queue != [] ==> endAt == due[0]
    {
      hide Settled;
    }

    method Enqueue(clock: Ticks, onTicks: Ticks, ghost at: int) returns (r: Outcome)
      requires Kept() && clock == Wrap(at) && time <= at < time + TWO31
      requires queue != [] ==> due[|due| - 1] <= at
      modifies `queue, `due, `endTime, `endAt, `checkEnd, `waketime, `wakeAt, `func, `scheduled
      ensures r == (if old(queue) == [] && old(checkEnd) && old(endAt) < at then Shutdown(ExceedsMax) else Done)
      ensures r.Done? ==> Kept() && queue == old(queue) + [Update(clock, onTicks)] && due == old(due) + [at]
      ensures r.Done? && old(queue) == [] ==> if old(toggling) && old(wakeAt) < at then GoesOn() else WaitsFor(at)
      ensures old(queue) != [] ==> GoesOn() && endAt == old(endAt)
    {
      hide Wrap, IsBefore, Ordered;
      if queue != [] { OrderedSpan(queue, due); }
      OrderedSnoc(queue, due, Update(clock, onTicks), at);
      var first := queue == [];
      queue, due := queue + [Update(clock, onTicks)], due + [at];
      if !first {
        return Done;
      }
      r := FirstUpdate(clock, at);
    }

    /** The next event is the one that was scheduled already. */
    twostate predicate GoesOn()
      reads this
    {
      wakeAt == old(wakeAt) && func == old(func) && scheduled == old(scheduled)
    }

    ghost predicate WaitsFor(at: int)
      reads this
    {
      wakeAt == at && func == Load && scheduled
    }

    /** The first update of the queue ends the current setting. */
    method FirstUpdate(clock: Ticks, ghost at: int) returns (r: Outcome)
      requires Settled() && |queue| == 1 && due == [at] && clock == Wrap(at) && time <= at < time + TWO31
      modifies `endTime, `endAt, `checkEnd, `waketime, `wakeAt, `func, `scheduled
      ensures r == (if old(checkEnd) && old(endAt) < at then Shutdown(ExceedsMax) else Done)
      ensures r.Done? ==> Kept() && if old(toggling) && old(wakeAt) < at then GoesOn() else WaitsFor(at)
    {
      hide Wrap, IsBefore, Ordered;
      if checkEnd { Before(endAt, at); }
      if checkEnd && IsBefore(endTime, clock) {
        return Shutdown(ExceedsMax);
      }
      if scheduled { Before(wakeAt, at); }
      endTime, endAt := clock, at;
      checkEnd := true;
      if toggling && IsBefore(waketime, clock) {
      } else {
        waketime, wakeAt := clock, at;
        func := Load;
        scheduled := true;
      }
      return Done;
    }

    method SetCycleTime(ticks: Ticks) returns (r: Outcome)
      requires Valid() && ticks < TWO31
      modifies `cycleTime
      ensures Valid() && r == (if queue == [] then Done else Shutdown(UpdatesPending))
      ensures cycleTime == (if r.Done? then ticks else old(cycleTime))
    {
      hide Wrap, Ordered;
      if queue != [] {
        return Shutdown(UpdatesPending);
      }
      cycleTime := ticks;
      return Done;
    }

    /** Set the output at once; `now` is the clock. */
    method UpdatePin(value: bool, now: Ticks) returns (r: Outcome)
      requires Valid() && now == Wrap(time)
      modifies `scheduled, `pin, `on, `toggling, `checkEnd, `waketime, `wakeAt, `endTime, `endAt, `func, `lastLoad
      modifies `shown
      ensures r == (if queue == [] then Done else Shutdown(ActiveQueue))
      ensures r.Done? ==> Valid() && pin == value && !toggling && lastLoad == time && shown == Steady(value)
      ensures r.Done? ==> scheduled == (maxDuration > 0 && value != defaultOn)
      ensures r.Done? && scheduled ==> wakeAt == time + maxDuration
    {
      hide Wrap, Kept;
      r := SetPin(value, now);
      if r.Done? { shown := Steady(value); }
    }

    method SetPin(value: bool, now: Ticks) returns (r: Outcome)
      requires Kept() && now == Wrap(time)
      modifies `scheduled, `pin, `on, `toggling, `checkEnd, `waketime, `wakeAt, `endTime, `endAt, `func, `lastLoad
      ensures r == (if queue == [] then Done else Shutdown(ActiveQueue))
      ensures r.Done? ==> Kept() && pin == value && !toggling && lastLoad == time
      ensures r.Done? ==> scheduled == (maxDuration > 0 && value != defaultOn)
      ensures r.Done? && scheduled ==> wakeAt == time + maxDuration
    {
      hide Wrap, Ordered;
      scheduled := false;
      if queue != [] {
        return Shutdown(ActiveQueue);
      }
      pin := value;
      lastLoad := time;
      if value != defaultOn && maxDuration != 0 {
        LimitSetting(now);
      } else {
        on, toggling, checkEnd := value, false, false;
      }
      return Done;
    }

    /** Schedule the timeout of a setting made now. */
    method LimitSetting(now: Ticks)
      requires maxDuration < TWO31 && cycleTime < TWO31 && now == Wrap(time) && lastLoad == time
      requires queue == [] && Ordered(queue, due) && maxDuration > 0
      modifies `scheduled, `on, `toggling, `checkEnd, `waketime, `wakeAt, `endTime, `endAt, `func
      ensures Kept() && scheduled && !toggling && wakeAt == time + maxDuration
    {
      hide Wrap, Ordered;
      WrapSum(time, maxDuration);
      endTime, endAt := Wrap(now + maxDuration), time + maxDuration;
      waketime, wakeAt := endTime, endAt;
      func := Load;
      on, toggling, checkEnd := pin, false, true;
      scheduled := true;
    }

    /** A shutdown gives the output its default level, whatever state it interrupts. */
    method ShutdownOutput()
      requires maxDuration < TWO31 && cycleTime < TWO31
      modifies this
      ensures Valid() && !Active() && queue == [] && !scheduled && time == old(time)
    {
      pin := defaultOn;
      on, toggling, checkEnd := defaultOn, false, false;
      queue, due := [], [];
      scheduled := false;
      lastLoad, shown := time, Steady(defaultOn);
    }

    // ---------- whole runs ----------

    /**
      An output that is not at its default was set no longer than the timeout ago, and before the
      timeout it will be set again or shut down.
     */
    ghost predicate Safe()
      reads this
    {
      Active() && maxDuration > 0 ==>
        && scheduled && time <= wakeAt <= endAt <= lastLoad + maxDuration
        && (if func == Load then wakeAt == endAt else wakeAt < endAt)
    }

    /**
      The queued updates serve the output until `to`: each setting that the timeout limits and that is loaded
      before then is followed in time by the next update, or outlasts `to`.
     */
    ghost predicate Served(cycle: Ticks, queue: seq<Update>, due: seq<int>, to: int)
      requires |queue| == |due|
    {
      || queue == [] || to <= due[0]
      || (&& (LimitedAt(cycle, queue[0]) ==> (if |queue| == 1 then to else due[1]) <= due[0] + maxDuration)
          && Served(cycle, queue[1..], due[1..], to))
    }

    /** Nothing forces a shutdown before `to`. */
    ghost predicate CanWait(to: int)
      requires Valid()
      reads this
    {
      if queue == [] then checkEnd ==> to <= endAt else Served(cycleTime, queue, due, to)
    }

    /** Let time pass until `to`, running the timer whenever it is due. */
    method Advance(to: int) returns (r: Outcome)
      requires Valid() && time <= to < time + TWO31
      modifies this
      ensures cycleTime == old(cycleTime) && (!r.Shutdown? ==> Valid() && time == to)
      ensures r.Shutdown? <==> !old(CanWait(to))
      ensures !r.Shutdown? ==> |queue| <= |old(queue)| && queue == old(queue)[|old(queue)| - |queue|..]
      ensures !r.Shutdown? ==> |due| <= |old(due)| && due == old(due)[|old(due)| - |due|..]
      ensures !r.Shutdown? && queue == [] && old(queue) != [] ==> Ended(old(queue), old(due))
      ensures !r.Shutdown? && old(queue) == [] ==> checkEnd == old(checkEnd) && endAt == old(endAt)
      // The updates loaded are those due before `to`, and the pin shows the last of them.
      ensures !r.Shutdown? ==> Behind(old(Now()), to) && (queue != [] ==> to <= due[0])
      ensures !r.Shutdown? && old(BetweenEdges()) ==> BetweenEdges() && pin == Level(shown, lastLoad, to - 1)
    {
      hide Wrap, IsBefore, Kept, Shows, CanWait, Ended, Behind, BetweenEdges, Level;
      r := RunEvents(to);
      if r.Shutdown? {
        return;
      }
      ScheduledFacts();
      BehindFacts(old(Now()), to);
      SetTime(to);
      if old(BetweenEdges()) { ShowsLevel(); }
    }

    /** Run the timer whenever it is due before `to`. */
    method RunEvents(to: int) returns (r: Outcome)
      requires Valid() && time <= to < time + TWO31
      modifies this
      ensures cycleTime == old(cycleTime) && (r.Shutdown? <==> !old(CanWait(to)))
      ensures !r.Shutdown? ==> Valid() && time <= to && (scheduled ==> to <= wakeAt) && Behind(old(Now()), to)
      ensures !r.Shutdown? && old(BetweenEdges()) ==> BetweenEdges() || time < to
    {
      hide Wrap, IsBefore, Kept, Shows, CanWait, Ended, Behind, BetweenEdges, Level;
      r := Done;
      NotBehind(to);
      ScheduledFacts();
      if scheduled { Before(wakeAt, to); }
      while scheduled && IsBefore(waketime, Wrap(to))
        invariant Valid() && time <= to < time + TWO31 && cycleTime == old(cycleTime) && !r.Shutdown?
        invariant scheduled ==> (IsBefore(waketime, Wrap(to)) <==> wakeAt < to)
        invariant Behind(old(Now()), to) && (old(BetweenEdges()) ==> BetweenEdges() || time < to)
        invariant CanWait(to) == old(CanWait(to))
        decreases |queue|, to - wakeAt
      {
        ScheduledFacts();
        r := Serve(to, old(Now()));
        if r.Shutdown? {
          return;
        }
        ScheduledFacts();
        if scheduled { Before(wakeAt, to); }
      }
      ScheduledFacts();
      Waited(to);
    }

    ghost function Now(): Snapshot
      reads this
    {
      Snapshot(queue, due, checkEnd, endAt, lastLoad, shown)
    }

    /** The output has loaded the first of the updates it had, all due before `to`, and shows the last of them. */
    ghost predicate Behind(was: Snapshot, to: int)
      requires |was.queue| == |was.due|
      reads `queue, `due, `checkEnd, `endAt, `cycleTime, `lastLoad, `shown
    {
      && IsTail(queue, was.queue) && IsTail(due, was.due) && |queue| == |due|
      && (queue == [] && was.queue != [] ==> Ended(was.queue, was.due))
      && (was.queue == [] ==> checkEnd == was.check && endAt == was.end)
      && ShowsLast(was, |was.queue| - |queue|, to)
    }

    /** The first `n` updates were due before `to`, and the last of them is the setting. */
    ghost predicate ShowsLast(was: Snapshot, n: nat, to: int)
      requires n <= |was.queue| == |was.due|
      reads `cycleTime, `lastLoad, `shown
    {
      && (forall k :: 0 <= k < n ==> was.due[k] < to)
      && (if n == 0 then lastLoad == was.load && shown == was.shown
          else lastLoad == was.due[n - 1] && shown == SettingOf(was.queue[n - 1].onDuration, cycleTime))
    }

    lemma NotBehind(to: int)
      requires Kept()
      ensures Behind(Now(), to)
    {
      hide Settled;
    }

    lemma BehindFacts(was: Snapshot, to: int)
      requires |was.queue| == |was.due| && Behind(was, to)
      ensures |queue| <= |was.queue| && queue == was.queue[|was.queue| - |queue|..]
      ensures |due| <= |was.due| && due == was.due[|was.due| - |due|..]
      ensures queue == [] && was.queue != [] ==> Ended(was.queue, was.due)
      ensures was.queue == [] ==> checkEnd == was.check && endAt == was.end
    {}

    /** One timer event of a wait. */
    method Serve(ghost to: int, ghost was: Snapshot) returns (r: Outcome)
      requires Valid() && scheduled && wakeAt < to && |was.queue| == |was.due| && Behind(was, to)
      modifies this
      ensures cycleTime == old(cycleTime) && (r.Shutdown? ==> !old(CanWait(to)))
      ensures !r.Shutdown? ==> Valid() && time == old(wakeAt) && CanWait(to) == old(CanWait(to))
      ensures !r.Shutdown? ==> Behind(was, to)
      ensures !r.Shutdown? ==> |queue| < |old(queue)| || (|queue| == |old(queue)| && wakeAt > old(wakeAt))
    {
      hide Wrap, Valid, CanWait, Ended;
      ghost var k := |was.queue| - |queue|;
      r := RunTimer(to);
      if !r.Shutdown? { LaterSuffix(was.queue, was.due, k); }
    }

    lemma Waited(to: int)
      requires Valid() && (scheduled ==> to <= wakeAt)
      ensures CanWait(to)
    {
      hide Wrap, Ordered;
    }

    /** One timer event, on the way to time `to`. */
    method RunTimer(ghost to: int) returns (r: Outcome)
      requires Valid() && scheduled && wakeAt < to
      modifies this
      ensures cycleTime == old(cycleTime) && (r.Shutdown? ==> !old(CanWait(to)))
      ensures !r.Shutdown? ==> Valid() && time == old(wakeAt) && CanWait(to) == old(CanWait(to))
      ensures !r.Shutdown? && |queue| == |old(queue)| ==>
        && queue == old(queue) && due == old(due) && wakeAt > old(wakeAt)
        && checkEnd == old(checkEnd) && endAt == old(endAt) && lastLoad == old(lastLoad) && shown == old(shown)
      ensures !r.Shutdown? && |queue| != |old(queue)| ==>
        && old(queue) != [] && queue == old(queue)[1..] && due == old(due)[1..]
        && (queue == [] ==> Ended(old(queue), old(due)))
        && lastLoad == old(due)[0] == old(wakeAt) && shown == SettingOf(old(queue)[0].onDuration, cycleTime)
      ensures !r.Shutdown? ==> |queue| <= |old(queue)|
    {
      hide Wrap, Settled, Shows, SettingOf;
      ScheduledFacts();
      if func == Toggle {
        r := ToggleEvent();
      } else {
        ghost var q, d, c := queue, due, cycleTime;
        assert q != [] ==> wakeAt == d[0];
        if q != [] { ServedStep(c, q, d, to); }
        hide Served;
        r := LoadEvent();
        assert !r.Shutdown? && queue == [] ==> (checkEnd <==> LimitedAt(c, q[0]));
      }
    }

    lemma ServedStep(cycle: Ticks, queue: seq<Update>, due: seq<int>, to: int)
      requires |queue| == |due| > 0 && due[0] < to
      ensures var limited := LimitedAt(cycle, queue[0]);
              && (|queue| == 1 ==> (Served(cycle, queue, due, to) <==> (limited ==> to <= due[0] + maxDuration)))
              && (|queue| > 1 ==> (Served(cycle, queue, due, to) <==>
                    (limited ==> due[1] <= due[0] + maxDuration) && Served(cycle, queue[1..], due[1..], to)))
    {
      if |queue| == 1 { assert queue[1..] == [] && due[1..] == []; }
    }

    /** The last of the updates is loaded, with its timeout if it has one. */
    ghost predicate Ended(updates: seq<Update>, dates: seq<int>)
      requires |updates| == |dates| > 0
      reads `checkEnd, `endAt, `cycleTime
    {
      && (checkEnd <==> Limited(updates[|updates| - 1]))
      && (checkEnd ==> endAt == dates[|dates| - 1] + maxDuration)
    }

    lemma LaterSuffix(updates: seq<Update>, dates: seq<int>, k: nat)
      requires |updates| == |dates| && k <= |updates|
      ensures k < |updates| ==> updates[k..][1..] == updates[k + 1..] && dates[k..][1..] == dates[k + 1..]
      ensures k < |updates| && Ended(updates[k..], dates[k..]) ==> Ended(updates, dates)
    {
      hide Limited;
    }

    lemma ScheduledFacts()
      requires Kept()
      ensures scheduled && func == Toggle ==> toggling
      ensures queue != [] ==> checkEnd && endAt == due[0]
      ensures scheduled ==> time <= wakeAt < time + TWO31 && waketime == Wrap(wakeAt)
      ensures (scheduled <==> toggling || checkEnd) && (checkEnd ==> wakeAt <= endAt)
      ensures scheduled && func == Load ==> checkEnd && wakeAt == endAt
    {
      hide Wrap, Ordered;
    }

    ghost method SetTime(to: int)
      requires Valid() && time <= to && (scheduled ==> to <= wakeAt)
      modifies `time
      ensures Valid() && time == to && (old(BetweenEdges()) || old(time) < to ==> BetweenEdges())
    {
      hide Wrap, Ordered;
      time := to;
    }

    /** When a command shuts the output down. */
    ghost predicate Refuses(c: Command)
      reads this
    {
      match c
      case Wait => false
      case Queue(at, _) => queue == [] && checkEnd && endAt < at
      case SetCycle(_) => queue != []
      case Set(_) => queue != []
    }

    method Obey(c: Command, now: Ticks) returns (r: Outcome)
      requires Valid() && now == Wrap(time) && (c.SetCycle? ==> c.ticks < TWO31)
      requires c.Queue? ==> time <= c.at < time + TWO31 && (queue != [] ==> due[|due| - 1] <= c.at)
      modifies this
      ensures r.Shutdown? <==> old(Refuses(c))
      ensures !r.Shutdown? ==> Valid() && time == old(time)
      ensures !r.Shutdown? ==> due == (if c.Queue? then old(due) + [c.at] else old(due))
      ensures !r.Shutdown? ==> queue == (if c.Queue? then old(queue) + [Update(Wrap(c.at), c.onTicks)] else old(queue))
      ensures c.Wait? ==> checkEnd == old(checkEnd) && endAt == old(endAt)
      ensures cycleTime < TWO31 && (!c.SetCycle? ==> cycleTime == old(cycleTime))
      ensures !r.Shutdown? && c.SetCycle? ==> cycleTime == c.ticks
      ensures !r.Shutdown? && c.Set? ==> pin == c.value && shown == Steady(c.value)
      ensures !c.Set? ==>
        pin == old(pin) && shown == old(shown) && lastLoad == old(lastLoad) && risen == old(risen)
    {
      hide Wrap, Ordered, Kept, Shows;
      match c {
        case Wait => r := Done;
        case Queue(at, onTicks) => r := QueueUpdate(Wrap(at), onTicks, at);
        case SetCycle(ticks) => r := SetCycleTime(ticks);
        case Set(value) => r := UpdatePin(value, now);
      }
    }

    lemma IsSafe()
      requires Valid()
      ensures Safe()
    {
      hide Wrap, Ordered;
    }

    /** The time of the last update queued is at most `limit`. */
    ghost predicate QueuedBy(limit: int)
      reads this
    {
      due != [] ==> due[|due| - 1] <= limit
    }

    // ---------- updates that come in time ----------

    /** Each queued setting that the timeout limits is followed in time by the next. */
    ghost predicate Gapless(cycle: Ticks, queue: seq<Update>, due: seq<int>)
      requires |queue| == |due|
    {
      |queue| <= 1
      || ((LimitedAt(cycle, queue[0]) ==> due[1] <= due[0] + maxDuration) && Gapless(cycle, queue[1..], due[1..]))
    }

    lemma {:induction false} GaplessServes(cycle: Ticks, queue: seq<Update>, due: seq<int>, to: int)
      requires |queue| == |due| > 0 && Gapless(cycle, queue, due)
      requires LimitedAt(cycle, queue[|queue| - 1]) ==> to <= due[|due| - 1] + maxDuration
      ensures Served(cycle, queue, due, to)
      decreases |queue|
    {
      if |queue| > 1 { GaplessServes(cycle, queue[1..], due[1..], to); }
    }

    lemma {:induction false} GaplessSuffix(cycle: Ticks, queue: seq<Update>, due: seq<int>, n: nat)
      requires |queue| == |due| && Gapless(cycle, queue, due) && n <= |queue|
      ensures Gapless(cycle, queue[n..], due[n..])
      decreases |queue|
    {
      if n == 0 {
        assert queue[0..] == queue && due[0..] == due;
      } else if |queue| > 1 {
        GaplessSuffix(cycle, queue[1..], due[1..], n - 1);
        assert queue[1..][n - 1..] == queue[n..] && due[1..][n - 1..] == due[n..];
      }
    }

    lemma SuffixPaced(cycle: Ticks, q: seq<Update>, d: seq<int>, queue: seq<Update>, due: seq<int>)
      requires |q| == |d| && |queue| == |due| && 0 < |queue| <= |q| && Gapless(cycle, q, d)
      requires queue == q[|q| - |queue|..] && due == d[|d| - |due|..]
      ensures Gapless(cycle, queue, due) && due[|due| - 1] == d[|d| - 1] && queue[|queue| - 1] == q[|q| - 1]
    {
      hide Gapless;
      GaplessSuffix(cycle, q, d, |q| - |queue|);
    }

    lemma {:induction false} GaplessSnoc(cycle: Ticks, queue: seq<Update>, due: seq<int>, u: Update, at: int)
      requires |queue| == |due| > 0 && Gapless(cycle, queue, due)
      requires LimitedAt(cycle, queue[|queue| - 1]) ==> at <= due[|due| - 1] + maxDuration
      ensures Gapless(cycle, queue + [u], due + [at])
      decreases |queue|
    {
      if |queue| > 1 {
        GaplessSnoc(cycle, queue[1..], due[1..], u, at);
        assert (queue + [u])[1..] == queue[1..] + [u] && (due + [at])[1..] == due[1..] + [at];
      } else {
        assert (queue + [u])[1..] == [u] && (due + [at])[1..] == [at];
      }
    }

    /** The last setting accepted is for time `at`, all before it are followed in time; `limited` if it must be. */
    ghost predicate Paced(at: int, limited: bool)
      reads this
    {
      && |queue| == |due|
      && if queue == [] then checkEnd ==> limited && endAt == at + maxDuration
         else && due[|due| - 1] == at && limited == Limited(queue[|queue| - 1]) && Gapless(cycleTime, queue, due)
    }

    /** A step that waits or queues an update, before the last setting runs out. */
    predicate InTime(s: Step, at: int, limited: bool) {
      && (s.command.Wait? || s.command.Queue?)
      && (limited ==> s.now <= at + maxDuration && (s.command.Queue? ==> s.command.at <= at + maxDuration))
    }

    function NextAt(s: Step, at: int): int { if s.command.Queue? then s.command.at else at }

    function NextLimited(cycle: Ticks, s: Step, limited: bool): bool {
      if s.command.Queue? then LimitedAt(cycle, Update(Wrap(s.command.at), s.command.onTicks)) else limited
    }

    /** A run in which every update comes in time; `at` and `limited` are the setting before it. */
    ghost predicate Punctual(cycle: Ticks, run: seq<Step>, at: int, limited: bool)
      decreases |run|
    {
      run == [] || (InTime(run[0], at, limited)
                    && Punctual(cycle, run[1..], NextAt(run[0], at), NextLimited(cycle, run[0], limited)))
    }

    lemma PunctualStep(cycle: Ticks, run: seq<Step>, k: nat, at: int, limited: bool)
      requires k < |run|
      ensures Punctual(cycle, run[k..], at, limited) ==>
        && InTime(run[k], at, limited)
        && Punctual(cycle, run[k + 1..], NextAt(run[k], at), NextLimited(cycle, run[k], limited))
    {
      assert run[k..][0] == run[k] && run[k..][1..] == run[k + 1..];
    }

    /** An output with nothing queued is on its pace and shows its setting. */
    lemma AtStart()
      requires Valid() && queue == []
      ensures Paced(lastLoad, checkEnd) && (BetweenEdges() ==> Tracks([Assignment(lastLoad, shown)]))
      ensures forall limit :: QueuedBy(limit)
    {
      hide Settled, Shows, BetweenEdges;
    }

    lemma PacedWaits(at: int, limited: bool, to: int)
      requires Valid() && Paced(at, limited) && (limited ==> to <= at + maxDuration)
      ensures CanWait(to)
    {
      hide Settled, Served, LimitedAt;
      if queue != [] { GaplessServes(cycleTime, queue, due, to); }
    }

    ghost predicate Tracks(list: seq<Assignment>)
      reads this
    {
      TracksBy(Now(), cycleTime, time, list) && BetweenEdges()
    }

    /** The pin shows the setting in effect. */
    lemma TracksLevel(list: seq<Assignment>)
      requires Valid() && Tracks(list)
      ensures list != [] && var a := InEffect(list, time); pin == Level(a.setting, a.from, time - 1)
    {
      hide Kept, Shows, BetweenEdges;
      ShowsLevel();
      var c := |list| - |queue| - 1;
      forall j | c < j < |list| ensures time <= list[j].from { assert Awaits(Now(), cycleTime, list, j - c - 1); }
      InEffectAt(list, time, c);
    }

    lemma AdvancedTracks(was: Snapshot, from: int, list: seq<Assignment>)
      requires Kept() && TracksBy(was, cycleTime, from, list) && from <= time && Behind(was, time)
      requires queue != [] ==> time <= due[0]
      ensures TracksBy(Now(), cycleTime, time, list)
    {
      hide Kept, Ended, SettingOf, Ordered, TracksBy;
      KeptOrder();
      forall i | 0 <= i < |due| ensures time <= due[i] { OrderedFrom(queue, due, i); }
      TailTracks(was, Now(), |was.queue| - |queue|, cycleTime, from, time, list);
    }

    lemma KeptOrder()
      requires Kept()
      ensures Ordered(queue, due)
    {}

    lemma ObeyedTracks(was: Snapshot, cycle: Ticks, list: seq<Assignment>, s: Step)
      requires TracksBy(was, cycle, s.now, list) && time == s.now && cycleTime == CycleBy(cycle, s)
      requires queue == if s.command.Queue? then was.queue + [Update(Wrap(s.command.at), s.command.onTicks)]
                        else was.queue
      requires due == if s.command.Queue? then was.due + [s.command.at] else was.due
      requires s.command.SetCycle? || s.command.Set? ==> was.queue == []
      requires if s.command.Set? then shown == Steady(s.command.value) else shown == was.shown && lastLoad == was.load
      requires s.command.Queue? ==> s.now <= s.command.at
      ensures TracksBy(Now(), cycleTime, time, list + AssignedBy(cycle, s))
    {
      hide Wrap, SettingOf;
      if s.command.Queue? {
        QueuedTracks(was, cycle, list, Update(Wrap(s.command.at), s.command.onTicks), s.command.at);
      } else {
        if !s.command.Set? {
          assert list + [] == list;
          SameTracks(was, cycle, list);
        }
      }
    }

    lemma SameTracks(was: Snapshot, cycle: Ticks, list: seq<Assignment>)
      requires TracksBy(was, cycle, time, list) && queue == was.queue && due == was.due
      requires shown == was.shown && lastLoad == was.load && (cycleTime != cycle ==> queue == [])
      ensures TracksBy(Now(), cycleTime, time, list)
    {
      hide SettingOf;
      forall i | 0 <= i < |queue| ensures time <= due[i] && Awaits(Now(), cycleTime, list, i) {
        assert Awaits(was, cycle, list, i);
      }
    }

    lemma QueuedTracks(was: Snapshot, cycle: Ticks, list: seq<Assignment>, u: Update, at: int)
      requires TracksBy(was, cycle, time, list) && queue == was.queue + [u] && due == was.due + [at] && time <= at
      requires shown == was.shown && lastLoad == was.load && cycleTime == cycle
      ensures TracksBy(Now(), cycle, time, list + [Assignment(at, SettingOf(u.onDuration, cycle))])
    {
      hide SettingOf;
      var more := list + [Assignment(at, SettingOf(u.onDuration, cycle))];
      forall i | 0 <= i < |queue| ensures time <= due[i] && Awaits(Now(), cycle, more, i) {
        if i < |was.queue| { assert Awaits(was, cycle, list, i); }
      }
    }

    /** Let time pass, then obey a command; a shutdown runs its handler. */
    method Follow(s: Step, ghost at: int, ghost limited: bool, ghost list: seq<Assignment>) returns (r: Outcome)
      requires Valid() && time <= s.now < time + TWO31 && (s.command.SetCycle? ==> s.command.ticks < TWO31)
      requires s.command.Queue? ==> s.now <= s.command.at < s.now + TWO31 && QueuedBy(s.command.at)
      modifies this
      ensures Valid() && Safe() && (r.Shutdown? ==> !Active())
      ensures !r.Shutdown? ==> time == s.now && forall limit ::
        (if s.command.Queue? then s.command.at <= limit else old(QueuedBy(limit))) ==> QueuedBy(limit)
      ensures old(Paced(at, limited)) && InTime(s, at, limited) ==>
        !r.Shutdown? && cycleTime == old(cycleTime) && Paced(NextAt(s, at), NextLimited(cycleTime, s, limited))
      ensures !r.Shutdown? ==> cycleTime == CycleBy(old(cycleTime), s)
      ensures !r.Shutdown? && old(Tracks(list)) ==> Tracks(list + AssignedBy(old(cycleTime), s))
    {
      hide Wrap, Valid, Safe, Active, CanWait, Paced, LimitedAt, Tracks, AssignedBy;
      ghost var punctual := Paced(at, limited) && InTime(s, at, limited);
      if punctual { PacedWaits(at, limited, s.now); }
      r := AdvancePaced(s.now, at, limited, list);
      if !r.Shutdown? {
        r := ObeyPaced(s, at, limited, list);
      }
      if r.Shutdown? {
        ShutdownOutput();
      }
      IsSafe();
    }

    /** Waiting keeps the pace. */
    method AdvancePaced(to: int, ghost at: int, ghost limited: bool, ghost list: seq<Assignment>) returns (r: Outcome)
      requires Valid() && time <= to < time + TWO31
      modifies this
      ensures cycleTime == old(cycleTime) && (!r.Shutdown? ==> Valid() && time == to)
      ensures r.Shutdown? <==> !old(CanWait(to))
      ensures !r.Shutdown? ==> |due| <= |old(due)| && due == old(due)[|old(due)| - |due|..]
      ensures !r.Shutdown? && old(Paced(at, limited)) ==> Paced(at, limited)
      ensures !r.Shutdown? && old(Tracks(list)) ==> Tracks(list)
    {
      hide Wrap, Kept, Shows, CanWait, Gapless, Ended, Paced, Behind, BetweenEdges, Level, TracksBy;
      ghost var q, d, check, end := queue, due, checkEnd, endAt;
      ghost var paced, tracked, was, from := Paced(at, limited), Tracks(list), Now(), time;
      PacedIs(at, limited);
      r := Advance(to);
      if !r.Shutdown? && tracked {
        AdvancedTracks(was, from, list);
      }
      if !r.Shutdown? && paced {
        AdvancedPaced(q, d, check, end, at, limited);
      }
    }

    lemma PacedIs(at: int, limited: bool)
      ensures Paced(at, limited) ==> |queue| == |due| && PacedBy(queue, due, checkEnd, endAt, at, limited)
    {}

    /** Paced, by the values of the fields. */
    ghost predicate PacedBy(q: seq<Update>, d: seq<int>, check: bool, end: int, at: int, limited: bool)
      requires |q| == |d|
      reads `cycleTime
    {
      if q == [] then check ==> limited && end == at + maxDuration
      else d[|d| - 1] == at && limited == Limited(q[|q| - 1]) && Gapless(cycleTime, q, d)
    }

    /** The pace is kept when the first updates of the queue have been loaded. */
    lemma AdvancedPaced(q: seq<Update>, d: seq<int>, check: bool, end: int, at: int, limited: bool)
      requires |q| == |d| && |queue| == |due| <= |d| && PacedBy(q, d, check, end, at, limited)
      requires queue == q[|q| - |queue|..] && due == d[|d| - |due|..]
      requires queue == [] && q != [] ==> Ended(q, d)
      requires q == [] ==> checkEnd == check && endAt == end
      ensures Paced(at, limited)
    {
      hide Gapless, LimitedAt;
      if queue != [] { SuffixPaced(cycleTime, q, d, queue, due); }
    }

    method ObeyPaced(s: Step, ghost at: int, ghost limited: bool, ghost list: seq<Assignment>) returns (r: Outcome)
      requires Valid() && time == s.now && (s.command.SetCycle? ==> s.command.ticks < TWO31)
      requires s.command.Queue? ==> s.now <= s.command.at < s.now + TWO31 && QueuedBy(s.command.at)
      modifies this
      ensures cycleTime < TWO31 && (!r.Shutdown? ==> Valid() && time == s.now)
      ensures !r.Shutdown? ==> due == (if s.command.Queue? then old(due) + [s.command.at] else old(due))
      ensures old(Paced(at, limited)) && InTime(s, at, limited) ==>
        !r.Shutdown? && cycleTime == old(cycleTime) && Paced(NextAt(s, at), NextLimited(cycleTime, s, limited))
      ensures !r.Shutdown? ==> cycleTime == CycleBy(old(cycleTime), s)
      ensures !r.Shutdown? && old(Tracks(list)) ==> Tracks(list + AssignedBy(old(cycleTime), s))
    {
      hide Wrap, Valid, LimitedAt, Tracks, AssignedBy;
      ghost var q, d, c := queue, due, cycleTime;
      ghost var punctual := Paced(at, limited) && InTime(s, at, limited);
      r := ObeyTracked(s, list);
      if punctual && s.command.Queue? && q != [] {
        GaplessSnoc(c, q, d, Update(Wrap(s.command.at), s.command.onTicks), s.command.at);
      }
    }

    /** A command does what it asks for to the settings to come. */
    method ObeyTracked(s: Step, ghost list: seq<Assignment>) returns (r: Outcome)
      requires Valid() && time == s.now && (s.command.SetCycle? ==> s.command.ticks < TWO31)
      requires s.command.Queue? ==> s.now <= s.command.at < s.now + TWO31 && QueuedBy(s.command.at)
      modifies this
      ensures r.Shutdown? <==> old(Refuses(s.command))
      ensures cycleTime < TWO31 && (!r.Shutdown? ==> Valid() && time == s.now)
      ensures !r.Shutdown? ==> due == (if s.command.Queue? then old(due) + [s.command.at] else old(due))
      ensures !r.Shutdown? ==>
        queue == if s.command.Queue? then old(queue) + [Update(Wrap(s.command.at), s.command.onTicks)]
                 else old(queue)
      ensures s.command.Wait? ==> checkEnd == old(checkEnd) && endAt == old(endAt)
      ensures !r.Shutdown? ==> cycleTime == CycleBy(old(cycleTime), s)
      ensures !r.Shutdown? && old(Tracks(list)) ==> Tracks(list + AssignedBy(old(cycleTime), s))
    {
      hide Wrap, Valid, TracksBy, AssignedBy;
      ghost var c, tracked, was := cycleTime, Tracks(list), Now();
      r := Obey(s.command, Wrap(s.now));
      if !r.Shutdown? && tracked {
        ObeyedTracks(was, c, list, s);
      }
    }

    /**
      Any run of commands: the output is safe after each of them, even after a shutdown.  A run in which every
      update comes in time does not shut down.
     */
    method Drive(run: seq<Step>) returns (r: Outcome)
      requires Valid() && queue == [] && Timely(run, time)
      modifies this
      ensures Valid() && Safe() && (r.Shutdown? ==> !Active())
      ensures !r.Shutdown? ==> time == Clock(run, old(time), |run|)
      ensures Punctual(old(cycleTime), run, old(lastLoad), old(checkEnd)) ==> !r.Shutdown?
      // The pin shows the setting in effect, of all that the run asked for.
      ensures !r.Shutdown? && old(BetweenEdges()) ==>
        var list := [Assignment(old(lastLoad), old(shown))] + Assignments(old(cycleTime), run);
        var a := InEffect(list, time);
        pin == Level(a.setting, a.from, time - 1)
    {
      hide Wrap, Safe, Active, Valid, InEffect, Level, Course, BetweenEdges, Assignments, Timely, Clock, Punctual;
      r := Done;
      IsSafe();
      ghost var at, limited, start := lastLoad, checkEnd, [Assignment(lastLoad, shown)];
      ghost var g := Goal(cycleTime, start, Punctual(cycleTime, run, at, limited), BetweenEdges());
      AtStart();
      CourseBegins(run, g);
      for k := 0 to |run|
        invariant Valid() && Safe() && !r.Shutdown? && time == Clock(run, old(time), k)
        invariant Course(run, k, g, at, limited)
      {
        r, at, limited := Proceed(run, k, g, at, limited, old(time));
        if r.Shutdown? {
          return;
        }
      }
      CourseEnds(run, g, at, limited);
    }

    /** What is known of a run after its first `k` steps. */
    ghost predicate Course(run: seq<Step>, k: nat, g: Goal, at: int, limited: bool)
      requires k <= |run|
      reads this
    {
      && cycleTime == CycleAfter(g.cycle, run[..k])
      && (g.visible ==> Tracks(g.list + Assignments(g.cycle, run[..k])))
      && (g.punctual ==> cycleTime == g.cycle && Paced(at, limited) && Punctual(g.cycle, run[k..], at, limited))
      && (forall l :: k <= l < |run| && run[l].command.Queue? ==> QueuedBy(run[l].command.at))
    }

    lemma CourseBegins(run: seq<Step>, g: Goal)
      requires Paced(lastLoad, checkEnd) && (forall limit :: QueuedBy(limit)) && g.cycle == cycleTime
      requires g.punctual == Punctual(cycleTime, run, lastLoad, checkEnd) && (g.visible ==> Tracks(g.list))
      ensures Course(run, 0, g, lastLoad, checkEnd) && Clock(run, time, 0) == time
    {
      hide Paced, QueuedBy, Tracks, Punctual;
      NothingAsked(cycleTime, run);
      assert g.list + [] == g.list && run[0..] == run;
    }

    lemma CourseEnds(run: seq<Step>, g: Goal, at: int, limited: bool)
      requires Valid() && Course(run, |run|, g, at, limited) && g.list != []
      ensures g.visible ==>
        var a := InEffect(g.list + Assignments(g.cycle, run), time); pin == Level(a.setting, a.from, time - 1)
      ensures g.punctual ==> cycleTime == g.cycle
    {
      hide Valid, Paced, QueuedBy, Tracks, Punctual, Level, InEffect, Assignments, CycleAfter;
      assert run[..|run|] == run;
      if g.visible { TracksLevel(g.list + Assignments(g.cycle, run)); }
    }

    /** One step of a run. */
    method Proceed(run: seq<Step>, k: nat, ghost g: Goal, ghost at: int, ghost limited: bool, ghost from: int)
      returns (r: Outcome, ghost nextAt: int, ghost nextLimited: bool)
      requires Valid() && k < |run| && Timely(run, from) && time == Clock(run, from, k)
      requires Course(run, k, g, at, limited)
      modifies this
      ensures Valid() && Safe() && (r.Shutdown? ==> !Active()) && (g.punctual ==> !r.Shutdown?)
      ensures !r.Shutdown? ==> time == Clock(run, from, k + 1) && Course(run, k + 1, g, nextAt, nextLimited)
    {
      hide Wrap, Safe, Active, Valid, Paced, InTime, NextAt, NextLimited, Tracks, Punctual, QueuedBy;
      hide Assignments, CycleAfter, AssignedBy;
      TimelyStep(run, from, k);
      hide Timely;
      PunctualStep(g.cycle, run, k, at, limited);
      AssignmentsMore(g.list, g.cycle, run, k);
      r := Follow(run[k], at, limited, g.list + Assignments(g.cycle, run[..k]));
      nextAt, nextLimited := NextAt(run[k], at), NextLimited(g.cycle, run[k], limited);
    }
  }
}
