/**
  The step generator of one stepper motor (src/stepper.c).

  Two ghost records are written by the pins and registers alone: `net` counts the step pulses,
  signed by the direction pin at each pulse, and `times` logs the step-time register at each pulse.
  The invariant relates them to what the commands asked for.
 */
module Stepper {
  import opened Clock32
  import opened MovePool

  const POSITION_BIAS := 0x4000_0000

  /** One queued move; `flip` is its request to change direction first. */
  datatype StepMove = StepMove(interval: Ticks, add: int, count: nat, flip: bool)

  /** The shutdowns "Move queue overflow", "Invalid count parameter", "Can't reset time when stepper active" and
      "Stepper too far in past". */
  datatype Reason = Overflow | InvalidCount | ResetWhileActive | TooFarInPast

  datatype Outcome = Done | Reschedule | Shutdown(reason: Reason)

  /** What can happen to a motor; `Tick` is its timer, if that is scheduled. */
  datatype Command =
    | Queue(interval: Ticks, count: Ticks, add: Ticks)
    | Direction(dir: bool)
    | Reset(time: Ticks)
    | StopNow
    | Tick(curtime: Ticks, dirTime: Ticks)

  function Signed(dir: bool, n: int): int { if dir then n else -n }

  function Int16(x: Ticks): (r: int)
    ensures -0x8000 <= r < 0x8000 && (x - r) % 0x10000 == 0
  {
    var low := x % 0x10000;
    if low >= 0x8000 then low - 0x10000 else low
  }

  // ---------- the position register ----------

  /** The register of a motor at `where` that counts towards `dir`: negated when running backwards. */
  ghost predicate Encodes(position: Ticks, dir: bool, where: int) {
    position == Wrap(Signed(dir, POSITION_BIAS + where))
  }

  predicate InRange(n: int) { -POSITION_BIAS <= n <= POSITION_BIAS }

  /** Undo the negation: the top bit marks a negated register. */
  function Decode(position: Ticks): Ticks { if position >= TWO31 then Wrap(0 - position) else position }

  /** The position sent to the host, a signed 32-bit value. */
  function Reported(position: Ticks): (r: int) { SignedDiff(Decode(position), POSITION_BIAS) }

  lemma EncodesFlip(position: Ticks, dir: bool, where: int)
    requires Encodes(position, dir, where)
    ensures Encodes(Wrap(0 - position), !dir, where)
  {
    WrapDiff(0, Signed(dir, POSITION_BIAS + where));
  }

  lemma EncodesSteps(position: Ticks, dir: bool, where: int, n: int)
    requires Encodes(position, dir, where)
    ensures Encodes(Wrap(position + n), dir, where + Signed(dir, n))
  {
    WrapSum(Signed(dir, POSITION_BIAS + where), n);
  }

  lemma DecodeRange(position: Ticks)
    ensures Decode(position) <= TWO31 && Reported(position) == Decode(position) - POSITION_BIAS
  {
    if position >= TWO31 { WrapUnique(0 - position, TWO32 - position, -1); }
    var d := Decode(position) - POSITION_BIAS;
    if d >= 0 { WrapUnique(d, d, 0); } else { WrapUnique(d, d + TWO32, -1); }
  }

  /** The reported position is right exactly for positions within 2^30 of the start. */
  lemma ReportedExact(position: Ticks, dir: bool, where: int)
    requires Encodes(position, dir, where)
    ensures InRange(Reported(position)) && (Reported(position) == where <==> InRange(where))
  {
    DecodeRange(position);
    var b := POSITION_BIAS + where;
    if InRange(where) {
      if dir || b == 0 {
        WrapUnique(Signed(dir, b), b, 0);
        if b == TWO31 { WrapUnique(0 - b, b, -1); }
      } else {
        WrapUnique(Signed(dir, b), TWO32 - b, -1);
        WrapUnique(0 - (TWO32 - b), b, -1);
      }
    }
  }

  /** One step beyond the range, the report is two steps short. */
  lemma ReportedTooFar()
    ensures var where := POSITION_BIAS + 1; var position := Wrap(POSITION_BIAS + where);
            Encodes(position, true, where) && Reported(position) == where - 2
  {
    DecodeRange(TWO31 + 1);
    WrapUnique(0 - (TWO31 + 1), TWO31 - 1, -1);
  }

  lemma ReportedEncodes(position: Ticks)
    ensures Encodes(Wrap(0 - Decode(position)), false, Reported(position))
  {
    DecodeRange(position);
  }

  // ---------- the directions ----------

  /** The direction after the queued moves, started in direction `dir`. */
  ghost function Final(dir: bool, queue: seq<StepMove>): bool
    decreases |queue|
  {
    if queue == [] then dir else Final(dir != queue[0].flip, queue[1..])
  }

  /** The distance the queued moves travel, started in direction `dir`. */
  ghost function Travel(dir: bool, queue: seq<StepMove>): int
    decreases |queue|
  {
    if queue == [] then 0
    else Signed(dir != queue[0].flip, queue[0].count) + Travel(dir != queue[0].flip, queue[1..])
  }

  lemma {:induction false} AppendMove(dir: bool, queue: seq<StepMove>, m: StepMove)
    ensures Final(dir, queue + [m]) == (Final(dir, queue) != m.flip)
    ensures Travel(dir, queue + [m]) == Travel(dir, queue) + Signed(Final(dir, queue + [m]), m.count)
    decreases |queue|
  {
    if queue != [] {
      assert (queue + [m])[1..] == queue[1..] + [m];
      AppendMove(dir != queue[0].flip, queue[1..], m);
    } else {
      assert [m][1..] == [];
    }
  }

  /** Queued moves that lead from `from` to the commanded goal and direction. */
  ghost predicate Course(dir: bool, queue: seq<StepMove>, from: int, last: bool, goal: int) {
    Final(dir, queue) == last && from + Travel(dir, queue) == goal
  }

  /** The moves accepted so far are the finished ones and those still to run. */
  ghost predicate Planned(program: seq<StepMove>, past: seq<StepMove>, rest: seq<StepMove>) {
    program == past + rest && forall m :: m in rest ==> m.count > 0
  }

  lemma FirstPlanned(program: seq<StepMove>, past: seq<StepMove>, rest: seq<StepMove>)
    requires Planned(program, past, rest) && rest != []
    ensures rest[0].count > 0
  {}

  lemma CourseGrows(dir: bool, queue: seq<StepMove>, from: int, last: bool, goal: int, m: StepMove)
    requires Course(dir, queue, from, last, goal)
    ensures Course(dir, queue + [m], from, last != m.flip, goal + Signed(last != m.flip, m.count))
  {
    AppendMove(dir, queue, m);
  }

  lemma PlannedGrows(program: seq<StepMove>, past: seq<StepMove>, rest: seq<StepMove>, m: StepMove)
    requires Planned(program, past, rest) && m.count > 0
    ensures Planned(program + [m], past, rest + [m])
  {}

  // ---------- the nominal timetable ----------

  /** The time of step `k` of a move loaded at time `base`. */
  ghost function Nominal(base: int, m: StepMove, k: int): int {
    base + k * m.interval + m.add * (k * (k - 1) / 2)
  }

  ghost function MoveTimes(base: int, m: StepMove, k: nat): (s: seq<Ticks>)
    ensures |s| == k
  {
    seq(k, i => Wrap(Nominal(base, m, i + 1)))
  }

  /** The time of the last step of a chain of moves. */
  ghost function End(clock: int, moves: seq<StepMove>): int {
    if moves == [] then clock
    else var n := |moves| - 1; Nominal(End(clock, moves[..n]), moves[n], moves[n].count)
  }

  /** All step times of a chain of moves, on the 32-bit counter. */
  ghost function Schedule(clock: int, moves: seq<StepMove>): seq<Ticks> {
    if moves == [] then []
    else var n := |moves| - 1;
      Schedule(clock, moves[..n]) + MoveTimes(End(clock, moves[..n]), moves[n], moves[n].count)
  }

  ghost function Rate(m: StepMove, k: int): int { m.interval + k * m.add }

  lemma NominalStep(base: int, m: StepMove, k: int)
    ensures Nominal(base, m, k + 1) == Nominal(base, m, k) + Rate(m, k)
    ensures Rate(m, k + 1) == Rate(m, k) + m.add
    ensures Nominal(base, m, 0) == base && Rate(m, 0) == m.interval
  {
    assert (k + 1) * k == k * (k - 1) + 2 * k;
    assert (k + 1) * k / 2 == k * (k - 1) / 2 + k;
    var h := k * (k - 1) / 2;
    assert m.add * (h + k) == m.add * h + m.add * k;
    assert (k + 1) * m.interval == k * m.interval + m.interval;
    assert (k + 1) * m.add == k * m.add + m.add;
  }

  lemma MoveTimesStep(base: int, m: StepMove, k: nat)
    ensures MoveTimes(base, m, k + 1) == MoveTimes(base, m, k) + [Wrap(Nominal(base, m, k + 1))]
  {}

  lemma ScheduleStep(clock: int, moves: seq<StepMove>, m: StepMove)
    ensures Schedule(clock, moves + [m]) == Schedule(clock, moves) + MoveTimes(End(clock, moves), m, m.count)
    ensures End(clock, moves + [m]) == Nominal(End(clock, moves), m, m.count)
  {
    assert (moves + [m])[..|moves|] == moves;
  }

  /** Later moves only extend the timetable. */
  lemma {:induction false} SchedulePrefix(clock: int, moves: seq<StepMove>, more: seq<StepMove>)
    ensures Schedule(clock, moves) <= Schedule(clock, moves + more)
    decreases |more|
  {
    if more == [] {
      assert moves + more == moves;
    } else {
      var n := |more| - 1;
      SchedulePrefix(clock, moves, more[..n]);
      ScheduleStep(clock, moves + more[..n], more[n]);
      assert moves + more == moves + more[..n] + [more[n]];
    }
  }

  /**
    A move that has taken `k` of its steps: `times` is the timetable so far.  The register holds the
    time of the step after those, or that of the last one while its pulse is still `high`.
   */
  ghost predicate Running(clock: int, past: seq<StepMove>, m: StepMove, k: nat, high: bool,
                          register: Ticks, interval: Ticks, times: seq<Ticks>) {
    var base := End(clock, past);
    && times == Schedule(clock, past) + MoveTimes(base, m, k)
    && register == Wrap(Nominal(base, m, if high then k else k + 1))
    && interval == Wrap(Rate(m, if high then k else k + 1))
  }

  ghost predicate Resting(clock: int, past: seq<StepMove>, register: Ticks, times: seq<Ticks>) {
    times == Schedule(clock, past) && register == Wrap(End(clock, past))
  }

  lemma RestingAt(time: Ticks)
    ensures Resting(time, [], time, []) && Planned([], [], [])
  {}

  lemma RunningStarts(clock: int, past: seq<StepMove>, m: StepMove, register: Ticks, times: seq<Ticks>)
    requires Resting(clock, past, register, times)
    ensures Running(clock, past, m, 0, false, Wrap(register + m.interval), Wrap(m.interval + m.add), times)
  {
    var base := End(clock, past);
    assert MoveTimes(base, m, 0) == [];
    NominalStep(base, m, 0);
    WrapSum(base, m.interval);
  }

  /** A pulse: the register value joins the log. */
  lemma RunningPulse(clock: int, past: seq<StepMove>, m: StepMove, k: nat, register: Ticks, interval: Ticks,
                     times: seq<Ticks>)
    requires Running(clock, past, m, k, false, register, interval, times)
    ensures Running(clock, past, m, k + 1, true, register, interval, times + [register])
  {
    MoveTimesStep(End(clock, past), m, k);
  }

  /** The register moves on to the next step. */
  lemma RunningNext(clock: int, past: seq<StepMove>, m: StepMove, k: nat, register: Ticks, interval: Ticks,
                    times: seq<Ticks>)
    requires Running(clock, past, m, k, true, register, interval, times)
    ensures Running(clock, past, m, k, false, Wrap(register + interval), Wrap(interval + m.add), times)
  {
    var base := End(clock, past);
    NominalStep(base, m, k);
    WrapSum(Nominal(base, m, k), interval);
    WrapSum(Rate(m, k), Nominal(base, m, k));
    WrapSum(Rate(m, k), m.add);
  }

  lemma RunningOnTime(clock: int, past: seq<StepMove>, m: StepMove, k: nat, high: bool,
                      register: Ticks, interval: Ticks, times: seq<Ticks>, queue: seq<StepMove>)
    requires Running(clock, past, m, k, high, register, interval, times) && k <= m.count
    ensures times <= Schedule(clock, past + ([m] + queue))
  {
    ScheduleStep(clock, past, m);
    SchedulePrefix(clock, past + [m], queue);
    assert past + ([m] + queue) == past + [m] + queue;
    hide Schedule, End;
    assert MoveTimes(End(clock, past), m, k) <= MoveTimes(End(clock, past), m, m.count);
  }

  /** The last step of a move leaves the register where the next move starts. */
  lemma RunningEnds(clock: int, past: seq<StepMove>, m: StepMove, register: Ticks, interval: Ticks, times: seq<Ticks>)
    requires Running(clock, past, m, m.count, true, register, interval, times)
    ensures Resting(clock, past + [m], register, times)
  {
    ScheduleStep(clock, past, m);
  }

  /** A motor between commands: its next event, whether it is active, and its direction pin. */
  datatype Moment = Moment(wake: Ticks, active: bool, dir: bool)

  function Max(x: int, y: int): int { if x < y then y else x }

  lemma SignedDiffIs(x: int, y: int)
    requires -TWO31 <= x - y < TWO31
    ensures SignedDiff(Wrap(x), Wrap(y)) == x - y
  {
    WrapDiff(x, y);
    if x < y { assert (x - y) % TWO32 == x - y + TWO32; }
  }

  /** The first time from `x` on at which the counter shows `w`. */
  function NextAt(x: int, w: Ticks): (t: int)
    ensures x <= t < x + TWO32 && Wrap(t) == w
  {
    WrapSum(x, Wrap(w - Wrap(x)));
    NextShows(x, w);
    x + Wrap(w - Wrap(x))
  }

  lemma NextShows(x: int, w: Ticks)
    ensures Wrap(x + Wrap(w - Wrap(x))) == w
  {
    var a, b := Wrap(x), Wrap(w - Wrap(x));
    var q, p := x / TWO32, (w - a) / TWO32;
    assert x == a + TWO32 * q && w - a == b + TWO32 * p;
    WrapUnique(x + b, w, q - p);
  }

  lemma ReadingsApart(w: Ticks, t: Ticks, pulse: Ticks)
    requires pulse <= TWO31
    ensures Wrap(Wrap(t + pulse) - t) == pulse
    ensures !IsBefore(w, Wrap(t + pulse)) ==> Wrap(w - t) >= pulse
  {
    WrapUnique(Wrap(t + pulse) - t, pulse, 0 - (t + pulse) / TWO32);
    var m := Wrap(t + pulse);
    var a, q := Wrap(w - m), (w - m) / TWO32;
    var p := (t + pulse) / TWO32;
    assert t + pulse == m + TWO32 * p && w - m == a + TWO32 * q;
    if !IsBefore(w, m) {
      assert 0 <= a < TWO31;
      WrapUnique(w - t, a + pulse, q - p);
    }
  }

  // ---------- the motor ----------

  class Stepper {
    const pool: Pool<StepMove>
    const id: nat
    const single: bool      // a step on every edge of the step pin
    const invert: bool
    const edge: bool        // the edge-optimised event handler
    const pulseTicks: Ticks
    const pastTicks: nat    // one millisecond

    var waketime: Ticks
    var scheduled: bool
    var interval: Ticks
    var add: int
    var count: nat
    var nextStepTime: Ticks
    var stepPin: bool
    var dirPin: bool
    var position: Ticks
    var lastDir: bool
    var nextDir: bool
    var needReset: bool

    ghost var net: int                   // pulses emitted, signed by the direction pin
    ghost var times: seq<Ticks>          // step-time register at each pulse since the last reset
    ghost var goal: int                  // where the accepted commands end
    ghost var clock: Ticks               // last reset
    ghost var program: seq<StepMove>     // moves accepted since the last reset
    ghost var past: seq<StepMove>        // of those, the finished ones
    ghost var current: StepMove
    ghost var queue: seq<StepMove>
    ghost var drift: int                 // error of the register
    ghost var exact: bool                // all stops were within range

    /** Steps of the current move not yet taken. */
    function Remaining(): nat
      reads this
    {
      if single then count else count / 2
    }

    /** The register that holds nominal step times. */
    function Register(): Ticks
      reads this
    {
      if edge then waketime else nextStepTime
    }

    /** The moves still to run, the current one first. */
    ghost function Rest(): seq<StepMove>
      reads this
    {
      if count == 0 then [] else [current] + queue
    }

    ghost predicate Own()
      reads this
    {
      && (edge ==> single)
      && (!single ==> ((stepPin != invert) <==> count % 2 == 1))
      && (count == 0 ==> queue == []) && (needReset ==> count == 0)
      && (exact ==> drift == 0)
      && Encodes(position, dirPin, net + drift + Signed(dirPin, Remaining()))
      && Course(dirPin, queue, net + Signed(dirPin, Remaining()), lastDir, goal)
      && Planned(program, past, Rest())
      && (count == 0 ==> Resting(clock, past, Register(), times))
      && (count != 0 ==>
            && Remaining() <= current.count && add == current.add
            && Running(clock, past, current, current.count - Remaining(), !single && count % 2 == 1,
                       Register(), interval, times))
    }

    ghost predicate Linked()
      reads this, pool, pool.next, pool.data, pool.first, pool.last
    {
      pool.Valid() && id < |pool.queues| && pool.contents[id] == queue
    }

    /** The queues of the other users of the pool are the same. */
    ghost predicate Others(before: seq<seq<StepMove>>, after: seq<seq<StepMove>>) {
      |before| == |after| && forall k :: 0 <= k < |before| && k != id ==> before[k] == after[k]
    }

    /** The invariant between commands: no move node is held. */
    ghost predicate Valid()
      reads this, pool, pool.next, pool.data, pool.first, pool.last
    {
      Own() && Linked() && scheduled == (count != 0) && pool.Settled()
    }

    ghost predicate Ours(p: Place) { p == Free || p == Queued(id) }

    /** Nodes moved only between the free list and the queue of this motor. */
    ghost predicate Shifted(before: seq<Place>, after: seq<Place>) {
      |before| == |after|
      && forall n :: 0 <= n < |before| ==> after[n] == before[n] || (Ours(before[n]) && Ours(after[n]))
    }

    /** No node moved. */
    twostate predicate NoneMoved()
      reads pool
    {
      pool.place == old(pool.place) && pool.free == old(pool.free) && pool.queues == old(pool.queues)
    }

    /** The oldest node of the queue went to the free list, and no other node moved. */
    twostate predicate Released()
      reads pool
    {
      && id < |old(pool.queues)| && old(pool.queues)[id] != []
      && var n := old(pool.queues)[id][0];
         && 0 <= n < |old(pool.place)| && old(pool.place)[n] == Queued(id)
         && pool.place == old(pool.place)[n := Free] && pool.free == [n] + old(pool.free)
         && pool.queues == old(pool.queues)[id := old(pool.queues)[id][1..]]
    }

    /** All that is left of the invariant when a shutdown interrupts a command or an event. */
    ghost predicate Interrupted()
      reads this
    {
      && (edge ==> single) && (exact ==> drift == 0)
      && exists dir :: Encodes(position, dir, net + drift + Signed(dir, Remaining()))
    }

    /** The state between two moves, with the moves of `rest` to come. */
    ghost predicate Between(rest: seq<StepMove>)
      reads this
    {
      && (edge ==> single) && (!single ==> stepPin == invert) && !needReset && (exact ==> drift == 0)
      && Encodes(position, dirPin, net + drift)
      && Course(dirPin, rest, net, lastDir, goal) && Planned(program, past, rest)
      && Resting(clock, past, Register(), times)
    }

    /** Configure a motor at position zero; `edgeTicks` is the slowest pulse the edge handler serves, if built in. */
    constructor (pool: Pool<StepMove>, id: nat, invertStep: int, pulseTicks: Ticks, edgeTicks: int, pastTicks: nat)
      requires pool.Valid() && pool.Settled() && id < |pool.queues| && pool.contents[id] == []
      ensures Valid() && this.pool == pool && this.id == id
      ensures count == 0 && net == 0 && goal == 0 && exact && !needReset
      ensures single == (invertStep < 0) && invert == stepPin == (invertStep > 0)
      ensures edge == (single && pulseTicks <= edgeTicks)
    {
      this.pool, this.id := pool, id;
      single, invert, edge := invertStep < 0, invertStep > 0, invertStep < 0 && pulseTicks <= edgeTicks;
      this.pulseTicks, this.pastTicks := pulseTicks, pastTicks;
      waketime, scheduled, interval, add, count, nextStepTime := 0, false, 0, 0, 0, 0;
      stepPin, dirPin, position := invertStep > 0, false, Wrap(-POSITION_BIAS);
      lastDir, nextDir, needReset := false, false, false;
      net, times, goal, clock, program, past, queue, drift, exact := 0, [], 0, 0, [], [], [], 0, true;
      new;
      hide Resting, Running, Course, Planned, Own, Pool.Valid;
      RestingAt(0);
      AtRest();
    }

    /** Pop the next move, read it and free its node. */
    method TakeMove() returns (m: StepMove)
      requires Linked() && queue != [] && Between(queue)
      modifies this`queue, pool, pool.next, pool.first
      ensures Linked() && old(queue) == [m] + queue && Between([m] + queue)
      ensures Others(old(pool.contents), pool.contents) && Released()
    {
      hide Encodes, Resting, Course, Planned;
      assert [queue[0]] + queue[1..] == queue;
      var n := pool.Pop(id);
      m := pool.data[n];
      pool.FreeNode(n);
      queue := queue[1..];
    }

    /** Load the next queued move; `dirTime` is the clock after a direction change. */
    method LoadNext(dirTime: Ticks) returns (r: Outcome)
      requires Between(queue) && Linked()
      modifies this`waketime, this`interval, this`add, this`count, this`nextStepTime, this`dirPin, this`position
      modifies this`current, this`queue, pool, pool.next, pool.first
      ensures Linked() && (r.Shutdown? ==> Interrupted() && r.reason == TooFarInPast) && (!r.Shutdown? ==> Own())
      ensures Others(old(pool.contents), pool.contents)
      ensures if r.Done? then NoneMoved() else Released()
      ensures r.Done? <==> old(queue) == []
      ensures r.Done? ==> count == 0 && waketime == old(waketime) && queue == []
      ensures !r.Done? ==> queue == old(queue)[1..]
      ensures r.Reschedule? ==> count == PerMove(old(queue)[0]) && count > 0
      ensures dirPin == (old(dirPin) != (r.Reschedule? && old(queue)[0].flip))
      ensures r.Reschedule? && !edge ==>
        waketime == Wake(old(count) != 0, nextStepTime, old(waketime), old(queue)[0].flip, dirTime)
      ensures r.Shutdown? <==>
              (old(queue) != [] && old(count) != 0 && !edge && TooLate(old(nextStepTime), old(queue)[0], old(waketime)))
    {
      hide Own, Between, Started, Interrupted, Wrap, Wake, Pool.Valid;
      var empty := pool.IsEmpty(id);
      if empty {
        Finish();
        return Done;
      }
      var m := TakeMove();
      var wasActive, minNext := count != 0, waketime;
      LoadRegisters(m);
      r := PlaceWake(m, wasActive, minNext, dirTime);
      if r.Shutdown? { StartedInterrupted(m); } else { StartedOwn(m); }
    }

    method Finish()
      requires Between([]) && queue == []
      modifies this`count
      ensures Own() && count == 0
    {
      hide Encodes, Running, Resting;
      count := 0;
    }

    lemma StartedOwn(m: StepMove)
      requires Started(m, dirPin)
      ensures Own() && count == PerMove(m) && count > 0
    {
      hide Encodes, Running, Resting, Course, Planned;
    }

    lemma StartedInterrupted(m: StepMove)
      requires Started(m, dirPin != m.flip)
      ensures Interrupted()
    {
      hide Encodes, Running, Resting, Course, Planned;
      assert Encodes(position, dirPin != m.flip, net + drift + Signed(dirPin != m.flip, Remaining()));
    }

    /** The position of the end of move `m`, to run in direction `dir`. */
    ghost predicate Heading(m: StepMove, dir: bool)
      reads this
    {
      && (edge ==> single) && (!single ==> stepPin == invert) && !needReset && (exact ==> drift == 0)
      && Planned(program, past, [m] + queue) && Course(dir, queue, net + Signed(dir, m.count), lastDir, goal)
      && Encodes(position, dir, net + drift + Signed(dir, m.count))
    }

    /** The timing of a move just loaded. */
    ghost predicate Ticking(m: StepMove)
      reads this
    {
      && m == current && add == m.add && m.count > 0 && count == (if single then m.count else m.count * 2)
      && Running(clock, past, m, 0, false, Register(), interval, times)
    }

    ghost predicate Started(m: StepMove, dir: bool)
      reads this
    {
      Heading(m, dir) && Ticking(m)
    }

    /** Count all steps of a move into the register at once. */
    method AddSteps(m: StepMove)
      requires Between([m] + queue)
      modifies this`position
      ensures Heading(m, dirPin != m.flip) && m.count > 0 && Resting(clock, past, Register(), times)
    {
      hide Encodes, Resting, Wrap, Planned;
      ghost var dir, rest := dirPin != m.flip, [m] + queue;
      assert rest[0] == m && rest[1..] == queue;
      assert m.count > 0 by { FirstPlanned(program, past, rest); }
      if m.flip { EncodesFlip(position, dirPin, net + drift); }
      EncodesSteps(if m.flip then Wrap(0 - position) else position, dir, net + drift, m.count);
      position := Wrap((if m.flip then Wrap(0 - position) else position) + m.count);
    }

    method LoadTiming(m: StepMove)
      requires Resting(clock, past, Register(), times) && (edge ==> single) && m.count > 0
      modifies this`waketime, this`interval, this`add, this`count, this`nextStepTime, this`current
      ensures Ticking(m)
      ensures nextStepTime == (if edge then old(nextStepTime) else Wrap(old(nextStepTime) + m.interval))
      ensures waketime == (if edge then Wrap(old(waketime) + m.interval) else nextStepTime)
    {
      hide Running, Resting, Wrap;
      RunningStarts(clock, past, m, Register(), times);
      current := m;
      add := m.add;
      interval := Wrap(m.interval + m.add);
      if edge {
        waketime := Wrap(waketime + m.interval);
        count := m.count;
      } else {
        nextStepTime := Wrap(nextStepTime + m.interval);
        waketime := nextStepTime;
        count := if single then m.count else m.count * 2;
      }
    }

    /** The number of events of a move. */
    function PerMove(m: StepMove): nat { if single then m.count else m.count * 2 }

    ghost function Events(moves: seq<StepMove>): nat {
      if moves == [] then 0 else Events(moves[..|moves| - 1]) + PerMove(moves[|moves| - 1])
    }

    /** The first step of `m`, after a step at `register`, is more than a millisecond before `minNext`. */
    predicate TooLate(register: Ticks, m: StepMove, minNext: Ticks) {
      SignedDiff(Wrap(register + m.interval), minNext) < 0 - pastTicks
    }

    /** The first event of a move: its nominal time, or later where the pins of an active motor need time. */
    function Wake(wasActive: bool, nominal: Ticks, minNext: Ticks, flip: bool, dirTime: Ticks): Ticks {
      if !wasActive then nominal
      else if flip then Later(Later(nominal, minNext), Wrap(dirTime + pulseTicks))
      else Later(nominal, minNext)
    }

    /** On the unbounded clock it is the latest of the times that count, if these are less than half a range apart. */
    lemma WakeIsLatest(wasActive: bool, nominal: int, minNext: int, flip: bool, dirTime: int)
      requires -TWO31 < nominal - minNext < TWO31
      requires -TWO31 < nominal - (dirTime + pulseTicks) < TWO31 && -TWO31 < minNext - (dirTime + pulseTicks) < TWO31
      ensures var w := if !wasActive then nominal
                       else if flip then Max(Max(nominal, minNext), dirTime + pulseTicks)
                       else Max(nominal, minNext);
              Wake(wasActive, Wrap(nominal), Wrap(minNext), flip, Wrap(dirTime)) == Wrap(w)
    {
      hide Wrap, IsBefore;
      NearIsExact(nominal, minNext);
      NearIsExact(nominal, dirTime + pulseTicks);
      NearIsExact(minNext, dirTime + pulseTicks);
      WrapSum(dirTime, pulseTicks);
    }

    /** On the unbounded clock the move is too late when its first step is due more than a millisecond before. */
    lemma TooLateIs(last: int, m: StepMove, minNext: int)
      requires -TWO31 <= last + m.interval - minNext < TWO31
      ensures TooLate(Wrap(last), m, Wrap(minNext)) <==> last + m.interval + pastTicks < minNext
    {
      WrapSum(last, m.interval);
      SignedDiffIs(last + m.interval, minNext);
    }

    /** From a time at which the counter shows `t`, it takes at least a pulse until it shows `w`. */
    predicate Apart(w: Ticks, t: Ticks) { Wrap(w - t) >= pulseTicks }

    /** Whatever runs no earlier than the counter next shows `w` runs at least a pulse after a time that shows `t`. */
    lemma ApartInTime(w: Ticks, t: Ticks, x: int, y: int)
      requires Apart(w, t) && Wrap(x) == t && NextAt(x, w) <= y
      ensures y - x >= pulseTicks
    {}

    lemma LaterApart(nominal: Ticks, t: Ticks)
      requires pulseTicks <= TWO31
      ensures Apart(Later(nominal, Wrap(t + pulseTicks)), t) && Apart(Wrap(t + pulseTicks), t)
    {
      ReadingsApart(Wrap(t + pulseTicks), t, pulseTicks);
      ReadingsApart(nominal, t, pulseTicks);
    }

    /** A wake-up of an active motor leaves time for the step pin and for the direction pin. */
    lemma WakeApart(nominal: Ticks, t: Ticks, flip: bool, dirTime: Ticks)
      requires pulseTicks <= TWO31
      ensures var w := Wake(true, nominal, Wrap(t + pulseTicks), flip, dirTime);
              && (flip ==> Apart(w, dirTime)) && (!flip || !IsBefore(dirTime, t) ==> Apart(w, t))
    {
      hide Wrap, IsBefore, Apart;
      LaterApart(nominal, t);
      if flip {
        var l := Later(nominal, Wrap(t + pulseTicks));
        LaterApart(l, dirTime);
        if !IsBefore(dirTime, t) { TurnApart(t, dirTime); }
      }
    }

    lemma TurnApart(t: Ticks, dirTime: Ticks)
      requires pulseTicks <= TWO31 && !IsBefore(dirTime, t)
      ensures Apart(Wrap(dirTime + pulseTicks), t)
    {
      var a := Wrap(dirTime - t);
      var q := (dirTime - t) / TWO32;
      assert dirTime - t == a + TWO32 * q;
      WrapDiff(dirTime + pulseTicks, t);
      assert dirTime + pulseTicks - t == a + pulseTicks + TWO32 * q;
      WrapUnique(dirTime + pulseTicks - t, a + pulseTicks, q);
      assert Wrap(t) == t;
    }

    method LoadRegisters(m: StepMove)
      requires Between([m] + queue)
      modifies this`waketime, this`interval, this`add, this`count, this`nextStepTime, this`position, this`current
      ensures Started(m, dirPin != m.flip)
      ensures !edge ==> waketime == nextStepTime == Wrap(old(nextStepTime) + m.interval)
    {
      hide Encodes, Running, Resting, Wrap, Course, Planned;
      AddSteps(m);
      LoadTiming(m);
    }

    /**
      Change direction and push the wake-up back where the pins need time.  The nominal register
      does not move.
     */
    method PlaceWake(m: StepMove, wasActive: bool, minNext: Ticks, dirTime: Ticks) returns (r: Outcome)
      requires Started(m, dirPin != m.flip) && (!edge ==> waketime == nextStepTime)
      modifies this`waketime, this`dirPin
      ensures r.Reschedule? || r == Shutdown(TooFarInPast)
      ensures r.Shutdown? <==> !edge && wasActive && SignedDiff(nextStepTime, minNext) < 0 - pastTicks
      ensures r.Shutdown? ==> Started(m, dirPin != m.flip)
      ensures r.Reschedule? ==> Started(m, dirPin) && Register() == old(Register())
      ensures dirPin == (old(dirPin) != (r.Reschedule? && m.flip))
      ensures r.Reschedule? && !edge ==> waketime == Wake(wasActive, nextStepTime, minNext, m.flip, dirTime)
    {
      hide Encodes, Running, Resting, Wrap, Course, Planned, SignedDiff;
      if edge {
      } else {
        if wasActive && IsBefore(nextStepTime, minNext) {
          if SignedDiff(nextStepTime, minNext) < 0 - pastTicks {
            return Shutdown(TooFarInPast);
          }
          waketime := minNext;
        }
        if wasActive && m.flip {
          dirPin := !dirPin;
          var minDir := Wrap(dirTime + pulseTicks);
          if IsBefore(waketime, minDir) {
            waketime := minDir;
          }
          return Reschedule;
        }
      }
      if m.flip {
        dirPin := !dirPin;
      }
      return Reschedule;
    }

    // ---------- the step events ----------

    /** Steps left after the event of the current count. */
    ghost function Left(): int
      reads this
    {
      if single then count - 1 else (count - 1) / 2
    }

    /** The state just after the step pin was toggled. */
    ghost predicate Toggled(n: int)
      reads this
    {
      && (edge ==> single) && !needReset && (exact ==> drift == 0)
      && (!single ==> ((stepPin != invert) <==> count % 2 == 0))
      && Encodes(position, dirPin, net + drift + Signed(dirPin, n))
      && Course(dirPin, queue, net + Signed(dirPin, n), lastDir, goal)
      && Planned(program, past, [current] + queue)
      && 0 <= n <= current.count && add == current.add
      && Running(clock, past, current, current.count - n, true, Register(), interval, times)
    }

    /** Toggle the step pin; a pulse is the edge that drives the motor. */
    method ToggleStep()
      requires Own() && count != 0
      modifies `stepPin, `net, `times
      ensures Toggled(Left()) && (edge ==> single) && stepPin == !old(stepPin)
      ensures net == old(net) + (if single || stepPin != invert then Signed(dirPin, 1) else 0)
      ensures times == old(times) + (if single || stepPin != invert then [Register()] else [])
    {
      hide Encodes, Running, Resting, Course, Planned;
      if single || count % 2 == 0 {
        RunningPulse(clock, past, current, current.count - Remaining(), Register(), interval, times);
      }
      stepPin := !stepPin;
      if single || stepPin != invert {
        net, times := net + Signed(dirPin, 1), times + [Register()];
      }
    }

    /** The edge-optimised event: every event is a step. */
    method EventEdge() returns (r: Outcome)
      requires Valid() && scheduled && edge
      modifies this`waketime, this`scheduled, this`interval, this`add, this`count, this`nextStepTime, this`stepPin
      modifies this`dirPin, this`position, this`net, this`times, this`past, this`current, this`queue
      modifies pool, pool.next, pool.first
      ensures Valid() && !r.Shutdown? && scheduled == r.Reschedule? && Others(old(pool.contents), pool.contents)
      ensures |queue| < |old(queue)| || (queue == old(queue) && count == old(count) - 1)
      ensures if |queue| < |old(queue)| then Released() else NoneMoved()
      ensures |queue| < |old(queue)| ==> old(count) == 1 && queue == old(queue)[1..] && count == PerMove(old(queue)[0])
      ensures net == old(net) + Signed(old(dirPin), 1) && times == old(times) + [old(Register())]
    {
      hide Own, Toggled, Between, Wake, Wrap, Pool.Valid;
      ToggleStep();
      if count - 1 != 0 {
        NextEdge();
        return Reschedule;
      }
      EndMove();
      r := LoadNext(0);
      SetScheduled(r.Reschedule?);
    }

    method SetScheduled(on: bool)
      requires Own()
      modifies this`scheduled
      ensures Own() && scheduled == on
    {
      hide Encodes, Running, Resting, Course, Planned;
      scheduled := on;
    }

    method NextEdge()
      requires Toggled(count - 1) && edge && count > 1
      modifies this`count, this`waketime, this`interval
      ensures Own() && count == old(count) - 1
    {
      hide Encodes, Running, Resting, Course, Planned, Wrap;
      RunningNext(clock, past, current, current.count - (count - 1), waketime, interval, times);
      count := count - 1;
      waketime := Wrap(waketime + interval);
      interval := Wrap(interval + add);
    }

    ghost method EndMove()
      requires Toggled(0) && count == 1
      modifies this`past
      ensures Between(queue)
    {
      hide Encodes, Running, Resting, Course;
      assert past + ([current] + queue) == past + [current] + queue;
      assert forall m :: m in queue ==> m in [current] + queue;
      RunningEnds(clock, past, current, Register(), interval, times);
      past := past + [current];
    }

    /**
      The fully scheduled event: a step and, unless every edge is a step, an unstep event for each
      step.  `curtime` is the clock at the event.
     */
    method EventFull(curtime: Ticks, dirTime: Ticks) returns (r: Outcome)
      requires Valid() && scheduled && !edge
      modifies this`waketime, this`scheduled, this`interval, this`add, this`count, this`nextStepTime, this`stepPin
      modifies this`dirPin, this`position, this`net, this`times, this`past, this`current, this`queue
      modifies pool, pool.next, pool.first
      ensures Linked() && (r.Shutdown? ==> Interrupted() && r.reason == TooFarInPast)
      ensures !r.Shutdown? ==> Valid() && scheduled == r.Reschedule?
      ensures |queue| < |old(queue)| || (queue == old(queue) && count == old(count) - 1)
      ensures if |queue| < |old(queue)| then Released() else NoneMoved()
      ensures |queue| < |old(queue)| ==> old(count) == 1 && queue == old(queue)[1..]
      ensures |queue| < |old(queue)| && !r.Shutdown? ==> count == PerMove(old(queue)[0])
      ensures Others(old(pool.contents), pool.contents)
      ensures net == old(net) + (if single || stepPin != invert then Signed(old(dirPin), 1) else 0)
      ensures times == old(times) + (if single || stepPin != invert then [old(nextStepTime)] else [])
      ensures r.Shutdown? <==>
              (old(count) == 1 && old(queue) != []
               && TooLate(old(nextStepTime), old(queue)[0], Wrap(curtime + pulseTicks)))
      ensures r.Reschedule? ==> var minNext := Wrap(curtime + pulseTicks);
        waketime == if !single && count % 2 == 1 then minNext
                    else Wake(true, nextStepTime, minNext,
                              old(count) == 1 && old(queue) != [] && old(queue)[0].flip, dirTime)
      ensures r.Reschedule? && pulseTicks <= TWO31 ==> LeavesTime(old(dirPin), curtime, dirTime)
    {
      hide Own, Toggled, Between, Wrap, Later, TooLate, Interrupted, Pool.Valid, Apart;
      if pulseTicks <= TWO31 { LaterApart(0, curtime); }
      ToggleStep();
      var minNext := Wrap(curtime + pulseTicks);
      var c := count - 1;
      if c % 2 == 1 && !single {
        Unstep(minNext);
        return Reschedule;
      }
      if c != 0 {
        NextFull(minNext);
        if pulseTicks <= TWO31 { LaterApart(nextStepTime, curtime); }
        return Reschedule;
      }
      ghost var flip := queue != [] && queue[0].flip;
      r := FinishMove(minNext, dirTime);
      if pulseTicks <= TWO31 { WakeApart(nextStepTime, curtime, flip, dirTime); }
    }

    /**
      The next event comes at least a pulse after an edge at `curtime`, and at least a pulse after a change of
      direction at `dirTime`.
     */
    ghost predicate LeavesTime(dir: bool, curtime: Ticks, dirTime: Ticks)
      reads `waketime, `dirPin
    {
      && (dirPin != dir ==> Apart(waketime, dirTime))
      && (dirPin == dir || !IsBefore(dirTime, curtime) ==> Apart(waketime, curtime))
    }

    /** The last event of a move loads the next one. */
    method FinishMove(minNext: Ticks, dirTime: Ticks) returns (r: Outcome)
      requires Toggled(0) && count == 1 && !edge && Linked() && pool.Settled()
      modifies this`waketime, this`scheduled, this`interval, this`add, this`count, this`nextStepTime
      modifies this`dirPin, this`position, this`past, this`current, this`queue
      modifies pool, pool.next, pool.first
      ensures Linked() && (r.Shutdown? ==> Interrupted() && r.reason == TooFarInPast)
      ensures !r.Shutdown? ==> Valid() && scheduled == r.Reschedule?
      ensures |queue| < |old(queue)| || (queue == old(queue) && count == 0)
      ensures if |queue| < |old(queue)| then Released() && queue == old(queue)[1..] else NoneMoved()
      ensures Others(old(pool.contents), pool.contents)
      ensures r.Shutdown? <==> old(queue) != [] && TooLate(old(nextStepTime), old(queue)[0], minNext)
      ensures r.Done? <==> old(queue) == []
      ensures r.Reschedule? ==> old(queue) != [] && count == PerMove(old(queue)[0]) && count > 0
      ensures r.Reschedule? ==> waketime == Wake(true, nextStepTime, minNext, old(queue)[0].flip, dirTime)
      ensures dirPin == (old(dirPin) != (r.Reschedule? && old(queue)[0].flip))
    {
      hide Own, Toggled, Between, Wrap, Wake, TooLate, Interrupted, Pool.Valid;
      EndMove();
      SetWake(minNext);
      r := LoadNext(dirTime);
      if !r.Shutdown? {
        SetScheduled(r.Reschedule?);
      }
    }

    /** Schedule the unstep event of a step just taken. */
    method Unstep(minNext: Ticks)
      requires Toggled((count - 1) / 2) && !single && count > 0 && count % 2 == 0
      modifies this`count, this`waketime
      ensures Own() && count == old(count) - 1 && waketime == minNext
    {
      hide Encodes, Running, Resting, Course, Planned;
      count := count - 1;
      waketime := minNext;
    }

    method NextFull(minNext: Ticks)
      requires Toggled(Left()) && !edge && count > 1 && (single || count % 2 == 1)
      modifies this`count, this`waketime, this`interval, this`nextStepTime
      ensures Own() && count == old(count) - 1 && waketime == Later(nextStepTime, minNext)
    {
      hide Encodes, Running, Resting, Course, Planned, Wrap, IsBefore;
      RunningNext(clock, past, current, current.count - Left(), nextStepTime, interval, times);
      nextStepTime := Wrap(nextStepTime + interval);
      interval := Wrap(interval + add);
      count := count - 1;
      waketime := if IsBefore(nextStepTime, minNext) then minNext else nextStepTime;
    }

    method SetWake(minNext: Ticks)
      requires Between(queue) && !edge
      modifies this`waketime
      ensures Between(queue) && waketime == minNext
    {
      hide Encodes, Resting, Course, Planned;
      waketime := minNext;
    }

    // ---------- the commands ----------

    method SetNextStepDir(dir: bool)
      requires Valid()
      modifies this`nextDir
      ensures Valid() && nextDir == dir
    {
      hide Encodes, Running, Resting, Course, Planned;
      nextDir := dir;
    }

    /** The first step after this is relative to `time`. */
    method ResetStepClock(time: Ticks) returns (r: Outcome)
      requires Valid()
      modifies this`waketime, this`nextStepTime, this`needReset, this`clock, this`times, this`program, this`past
      ensures r == (if count == 0 then Done else Shutdown(ResetWhileActive)) && (r.Shutdown? ==> Interrupted())
      ensures r.Done? ==> Valid() && !needReset && clock == time && times == [] && program == []
    {
      hide Own, Interrupted;
      if count != 0 {
        IsInterruptible();
        return Shutdown(ResetWhileActive);
      }
      Rebase(time);
      return Done;
    }

    method Rebase(time: Ticks)
      requires Own() && count == 0
      modifies this`waketime, this`nextStepTime, this`needReset, this`clock, this`times, this`program, this`past
      ensures Own() && !needReset && clock == time && times == [] && program == []
    {
      hide Encodes, Running, Resting, Course, Planned;
      RestingAt(time);
      nextStepTime, waketime, needReset := time, time, false;
      clock, times, program, past := time, [], [], [];
    }

    lemma IdleIsEmpty()
      requires Own()
      ensures count == 0 ==> queue == []
    {}

    lemma IsInterruptible()
      requires Own()
      ensures Interrupted() && (needReset ==> count == 0 && queue == [])
    {
      hide Encodes, Running, Resting, Course, Planned;
      assert Encodes(position, dirPin, net + drift + Signed(dirPin, Remaining()));
    }

    /** The reported position is the net count of pulses, as long as that is and was in range. */
    method GetPosition() returns (pos: int)
      requires Own()
      ensures InRange(pos) && (pos == net + drift <==> InRange(net + drift))
      ensures exact ==> (pos == net <==> InRange(net))
    {
      hide Encodes, Running, Resting, Course, Planned, Wrap;
      EncodesSteps(position, dirPin, net + drift + Signed(dirPin, Remaining()), 0 - Remaining());
      ReportedExact(Wrap(position - Remaining()), dirPin, net + drift);
      pos := Reported(Wrap(position - Remaining()));
    }

    /** Schedule `countArg` steps; the count and the acceleration are truncated to 16 bits. */
    method QueueStep(interval: Ticks, countArg: Ticks, addArg: Ticks) returns (r: Outcome)
      requires Valid()
      modifies this`waketime, this`scheduled, this`interval, this`add, this`count, this`nextStepTime, this`dirPin
      modifies this`position, this`lastDir, this`program, this`goal, this`current, this`queue
      modifies pool, pool.next, pool.data, pool.first, pool.last
      ensures r == Shutdown(Overflow) <==> old(pool.free) == []
      ensures r == Shutdown(InvalidCount) <==> old(pool.free) != [] && countArg % 0x10000 == 0
      ensures r.Done? || (r.Shutdown? && Interrupted() && r.reason in {Overflow, InvalidCount})
      ensures r.Done? ==> Valid() && Others(old(pool.contents), pool.contents)
      ensures r.Done? && old(count == 0 && needReset) ==> Dropped()
      ensures r.Done? && old(count) == 0 ==> NoneMoved()
      ensures r.Done? && old(count) != 0 ==> Taken()
      ensures r.Done? && !old(count == 0 && needReset) ==>
        && Accepted(StepMove(interval, Int16(addArg), countArg % 0x10000, old(lastDir) != nextDir))
        && (old(count) == 0 ==> waketime == Register())
      ensures old(count) != 0 ==> waketime == old(waketime) && dirPin == old(dirPin) && count == old(count)
    {
      hide Own, Interrupted, Between, Pool.Valid;
      IsInterruptible();
      var n := pool.Alloc();
      if n < 0 {
        return Shutdown(Overflow);
      }
      if countArg % 0x10000 == 0 {
        return Shutdown(InvalidCount);
      }
      var m := StepMove(interval, Int16(addArg), countArg % 0x10000, lastDir != nextDir);
      pool.Store(n, m);
      if count == 0 && needReset {
        pool.FreeNode(n);
      } else {
        Enqueue(n, m);
      }
      return Done;
    }

    /** The first free node went to the end of the queue, and no other node moved. */
    twostate predicate Taken()
      reads pool
    {
      && old(pool.free) != [] && id < |old(pool.queues)|
      && var n := old(pool.free)[0];
         && 0 <= n < |old(pool.place)| && old(pool.place)[n] == Free
         && pool.place == old(pool.place)[n := Queued(id)] && pool.free == old(pool.free)[1..]
         && pool.queues == old(pool.queues)[id := old(pool.queues)[id] + [n]]
    }

    method Enqueue(n: int, m: StepMove)
      requires Own() && Linked() && scheduled == (count != 0) && !(count == 0 && needReset)
      requires 0 <= n < |pool.place| && pool.place[n] == Held && pool.data[n] == m
      requires forall j :: 0 <= j < |pool.place| && j != n ==> pool.place[j] != Held
      requires m.flip == (lastDir != nextDir) && m.count > 0
      modifies this`waketime, this`scheduled, this`interval, this`add, this`count, this`nextStepTime, this`dirPin
      modifies this`position, this`lastDir, this`program, this`goal, this`current, this`queue
      modifies pool, pool.next, pool.first, pool.last
      ensures Valid() && Others(old(pool.contents), pool.contents) && Accepted(m)
      ensures old(count) == 0 ==> waketime == Register()
      ensures old(count) != 0 ==> waketime == old(waketime) && dirPin == old(dirPin) && count == old(count)
      ensures old(count) == 0 ==> pool.place == old(pool.place)[n := Free] && pool.free == [n] + old(pool.free)
      ensures old(count) == 0 ==> pool.queues == old(pool.queues)
      ensures old(count) != 0 ==> pool.place == old(pool.place)[n := Queued(id)] && pool.free == old(pool.free)
      ensures old(count) != 0 ==> pool.queues == old(pool.queues)[id := old(pool.queues)[id] + [n]]
    {
      hide Own, Between, Pool.Valid;
      var idle := count == 0;
      IdleIsEmpty();
      pool.SameSize(id);
      var _ := pool.Push(n, id);
      Accept(m);
      if idle {
        ghost var pushed := pool.queues;
        assert pushed[id] == [n] && [n][1..] == [];
        StartNow();
        assert pool.queues == pushed[id := []] == old(pool.queues);
      }
    }

    /** Load the only move of a motor at rest and schedule its first event. */
    method StartNow()
      requires Between(queue) && Linked() && pool.Settled() && count == 0 && queue != []
      modifies this`waketime, this`scheduled, this`interval, this`add, this`count, this`nextStepTime, this`dirPin
      modifies this`position, this`current, this`queue, pool, pool.next, pool.first
      ensures Valid() && count != 0 && scheduled && waketime == Register()
      ensures Others(old(pool.contents), pool.contents) && Released()
    {
      hide Own, Between, Pool.Valid;
      var _ := LoadNext(0);
      SetScheduled(true);
    }

    method Accept(m: StepMove)
      requires Own() && !(count == 0 && needReset)
      requires m.flip == (lastDir != nextDir) && m.count > 0
      modifies this`lastDir, this`program, this`goal, this`queue
      ensures if count == 0 then Between(queue) else Own()
      ensures program == old(program) + [m] && goal == old(goal) + Signed(nextDir, m.count) && lastDir == nextDir
      ensures queue == old(queue) + [m]
    {
      hide Encodes, Running, Resting, Course, Planned;
      CourseGrows(dirPin, queue, net + Signed(dirPin, Remaining()), lastDir, goal, m);
      PlannedGrows(program, past, Rest(), m);
      assert [current] + queue + [m] == [current] + (queue + [m]);
      lastDir := nextDir;
      queue, program, goal := queue + [m], program + [m], goal + Signed(nextDir, m.count);
    }

    twostate predicate Dropped()
      reads this
    {
      && count == old(count) && position == old(position) && lastDir == old(lastDir) && queue == old(queue)
      && program == old(program) && goal == old(goal) && scheduled == old(scheduled) && needReset
    }

    twostate predicate Accepted(m: StepMove)
      reads this
    {
      && program == old(program) + [m] && goal == old(goal) + Signed(nextDir, m.count)
      && lastDir == nextDir && count != 0 && scheduled
    }

    // ---------- stopping ----------

    /** Stop at once, wherever a move or a command was interrupted, and free all queued moves. */
    method Stop()
      requires Interrupted() && Linked()
      modifies this, pool, pool.next, pool.first
      ensures Own() && Linked() && !scheduled && (old(pool.Settled()) ==> Valid())
      ensures net == old(net) && count == 0 && needReset && goal == net && !dirPin && !nextDir
      ensures stepPin == (if single then old(stepPin) else invert)
      ensures exact == (old(exact) && InRange(net))
      ensures Others(old(pool.contents), pool.contents) && Freed(old(pool.place), pool.place)
    {
      hide Own, Interrupted, Pool.Valid;
      Halt();
      Drain();
      queue := [];
    }

    /** Every node of this queue is free, and no other node moved. */
    ghost predicate Freed(before: seq<Place>, after: seq<Place>) {
      |before| == |after|
      && forall n :: 0 <= n < |before| ==> after[n] == if before[n] == Queued(id) then Free else before[n]
    }

    method Drain()
      requires pool.Valid() && id < |pool.queues|
      modifies pool, pool.next, pool.first
      ensures pool.Valid() && id < |pool.queues| && pool.contents[id] == []
      ensures Others(old(pool.contents), pool.contents) && Freed(old(pool.place), pool.place)
    {
      hide Pool.Valid;
      var empty := pool.IsEmpty(id);
      while !empty
        invariant pool.Valid() && id < |pool.queues| && (empty <==> pool.contents[id] == [])
        invariant Others(old(pool.contents), pool.contents) && |pool.place| == |old(pool.place)|
        invariant forall n :: 0 <= n < |pool.place| ==>
          || pool.place[n] == old(pool.place)[n]
          || (old(pool.place)[n] == Queued(id) && pool.place[n] == Free)
        decreases |pool.contents[id]|
      {
        var n := pool.Pop(id);
        pool.FreeNode(n);
        empty := pool.IsEmpty(id);
      }
      pool.NoneLeft(id);
    }

    method Halt()
      requires Interrupted()
      modifies this
      ensures net == old(net) && Own() && !scheduled && count == 0 && needReset && goal == net && queue == []
      ensures !dirPin && !nextDir && stepPin == (if single then old(stepPin) else invert)
      ensures exact == (old(exact) && InRange(net))
    {
      hide Own, Encodes, Running, Resting, Planned, Interrupted, Course;
      Freeze();
      Quiet();
      RestingAt(0);
      goal, clock, times, program, past, queue := net, 0, [], [], [], [];
      AtRest();
    }

    method Quiet()
      modifies this`scheduled, this`waketime, this`nextStepTime, this`lastDir, this`nextDir, this`needReset, this`dirPin
      modifies this`stepPin
      ensures !scheduled && Register() == 0 && !lastDir && !nextDir && needReset && !dirPin
      ensures stepPin == (if single then old(stepPin) else invert)
    {
      scheduled := false;
      nextStepTime, waketime := 0, 0;
      lastDir, nextDir, needReset := false, false, true;
      dirPin := false;
      if !single {
        stepPin := invert;
      }
    }

    lemma AtRest()
      requires (edge ==> single) && (!single ==> stepPin == invert)
      requires count == 0 && queue == [] && past == program == []
      requires (exact ==> drift == 0) && Encodes(position, dirPin, net + drift) && lastDir == dirPin && goal == net
      requires Resting(clock, past, Register(), times)
      ensures Own()
    {
      hide Encodes, Resting, Running;
    }

    /** Fix the position at the steps taken so far, in the encoding of direction zero. */
    method Freeze()
      requires Interrupted()
      modifies this`position, this`count, this`drift, this`exact
      ensures (edge ==> single) && Encodes(position, false, net + drift) && count == 0
      ensures exact == (old(exact) && InRange(net)) && (exact ==> drift == 0)
    {
      hide Wrap, Encodes;
      var taken := Wrap(position - Remaining());
      ghost var dir :| Encodes(position, dir, net + drift + Signed(dir, Remaining()));
      EncodesSteps(position, dir, net + drift + Signed(dir, Remaining()), 0 - Remaining());
      ReportedExact(taken, dir, net + drift);
      ReportedEncodes(taken);
      position := Wrap(0 - Decode(taken));
      count := 0;
      exact, drift := exact && InRange(net), Reported(taken) - net;
    }

    // ---------- whole runs ----------

    /** The log is the timetable of the accepted moves so far; a motor at rest has done all of them. */
    lemma OnTime()
      requires Own()
      ensures times <= Schedule(clock, program)
      ensures count == 0 ==> times == Schedule(clock, program) && net == goal
    {
      hide Encodes, Running, Schedule;
      if count == 0 {
        assert past + [] == past;
      } else {
        RunningOnTime(clock, past, current, current.count - Remaining(), !single && count % 2 == 1,
                      Register(), interval, times, queue);
      }
    }

    /** Where the motor is in its program: the register at the last event of a move is the time of its last step. */
    lemma InProgram()
      requires Own()
      ensures |queue| <= |program| && queue == program[|program| - |queue|..]
      ensures count == 1 ==> Register() == Wrap(End(clock, program[..|program| - |queue|]))
    {
      hide Encodes, Course, Running, Resting;
      if count != 0 {
        assert program[..|program| - |queue|] == past + [current];
        if count == 1 { LastStep(); }
      }
    }

    lemma LastStep()
      requires Own() && count == 1
      ensures Register() == Wrap(End(clock, past + [current]))
    {
      hide Encodes, Course, Resting, Wrap, Planned;
      ScheduleStep(clock, past, current);
    }

    /** When a command or an event shuts the machine down. */
    ghost predicate ShutsDown(c: Command)
      reads this, pool
    {
      match c
      case Queue(_, count, _) => pool.free == [] || count % 0x10000 == 0
      case Reset(_) => count != 0
      case Tick(curtime, _) =>
        !edge && count == 1 && queue != [] && TooLate(nextStepTime, queue[0], Wrap(curtime + pulseTicks))
      case Direction(_) => false
      case StopNow => false
    }

    /** The timer event of either handler. */
    method Event(curtime: Ticks, dirTime: Ticks) returns (r: Outcome)
      requires Valid() && scheduled
      modifies this`waketime, this`scheduled, this`interval, this`add, this`count, this`nextStepTime, this`stepPin
      modifies this`dirPin, this`position, this`net, this`times, this`past, this`current, this`queue
      modifies pool, pool.next, pool.first
      ensures r.Shutdown? <==> old(ShutsDown(Tick(curtime, dirTime)))
      ensures r.Shutdown? ==> Interrupted() && r.reason == TooFarInPast
      ensures !r.Shutdown? ==> Valid() && Shifted(old(pool.place), pool.place)
      ensures Others(old(pool.contents), pool.contents)
      ensures |queue| < |old(queue)| || (queue == old(queue) && count == old(count) - 1)
      ensures |queue| < |old(queue)| ==> old(count) == 1 && queue == old(queue)[1..]
      ensures |queue| < |old(queue)| && !r.Shutdown? ==> count == PerMove(old(queue)[0])
      ensures !r.Shutdown? ==> scheduled == r.Reschedule?
      ensures r.Reschedule? && !edge && pulseTicks <= TWO31 ==> LeavesTime(old(dirPin), curtime, dirTime)
    {
      hide Own, Interrupted, Pool.Valid, TooLate, Wrap, Wake, LeavesTime;
      if edge {
        r := EventEdge();
      } else {
        r := EventFull(curtime, dirTime);
      }
    }

    /**
      At the event that ends move `p - 1` of the program, the first step of move `p` is too late.  The motor
      has `count` events left in its current move, and the last `pending` moves are not loaded yet.
     */
    ghost predicate FallsBehind(clock: int, program: seq<StepMove>, pending: nat, count: nat,
                                curtimes: nat -> Ticks, p: nat)
      requires pending <= |program| && |program| - pending <= p < |program| && count > 0
    {
      var event := count + Events(program[|program| - pending..p]) - 1;
      TooLate(Wrap(End(clock, program[..p])), program[p], Wrap(curtimes(event) + pulseTicks))
    }

    /** The first `n` of the pending moves are all on time. */
    ghost predicate KeepsPace(clock: int, program: seq<StepMove>, pending: nat, count: nat,
                              curtimes: nat -> Ticks, n: nat)
      requires n <= pending <= |program|
    {
      count > 0 ==> forall p :: |program| - pending <= p < |program| - pending + n ==>
        !FallsBehind(clock, program, pending, count, curtimes, p)
    }

    /**
      Left alone, a motor takes every step it has accepted.  It shuts down if and only if, at the end of
      some move, the nominal time of the next step is too far behind the clock; the edge handler never does.
      `curtimes` and `dirTimes` are the clock readings of the events.
     */
    method RunOut(curtimes: nat -> Ticks, dirTimes: nat -> Ticks) returns (r: Outcome)
      requires Valid()
      modifies this, pool, pool.next, pool.first
      ensures |old(queue)| <= |old(program)|
      ensures !r.Shutdown? <==>
              edge || KeepsPace(old(clock), old(program), |old(queue)|, old(count), curtimes, |old(queue)|)
      ensures r.Shutdown? ==> Interrupted() && r.reason == TooFarInPast
      ensures !r.Shutdown? ==> Valid() && count == 0 && net == goal && goal == old(goal)
      ensures !r.Shutdown? ==> times == Schedule(old(clock), old(program))
      ensures !r.Shutdown? ==> forall n :: 0 <= n < |pool.place| ==> pool.place[n] != Queued(id)
    {
      hide Own, Interrupted, Pool.Valid, Schedule, OnBeat, KeepsPace;
      r := Done;
      var n: nat := 0;
      ghost var c, moves, all := count, program, |queue|;
      FirstBeat(curtimes);
      while scheduled
        invariant Valid() && !r.Shutdown? && goal == old(goal) && clock == old(clock) && program == moves
        invariant OnBeat(moves, all, c, n, curtimes)
        decreases |queue|, count
      {
        r := Beat(moves, all, c, n, curtimes, dirTimes);
        if r.Shutdown? {
          return;
        }
        n := n + 1;
      }
      LastBeat(moves, all, c, n, curtimes);
      OnTime();
      pool.NoneLeft(id);
    }

    /** After `n` events of a run that began with `all` pending moves and `c` events left in the current one. */
    ghost predicate OnBeat(moves: seq<StepMove>, all: nat, c: nat, n: nat, curtimes: nat -> Ticks)
      reads this
    {
      && program == moves && |queue| <= all <= |moves| && queue == moves[|moves| - |queue|..]
      && (count == 0 ==> queue == [])
      && (count > 0 ==> c > 0 && n + count == c + Events(moves[|moves| - all..|moves| - |queue|]))
      && (edge || KeepsPace(clock, moves, all, c, curtimes, all - |queue|))
    }

    lemma FirstBeat(curtimes: nat -> Ticks)
      requires Own()
      ensures |queue| <= |program| && OnBeat(program, |queue|, count, 0, curtimes)
    {
      hide Own, FallsBehind;
      InProgram();
      IdleIsEmpty();
    }

    lemma LastBeat(moves: seq<StepMove>, all: nat, c: nat, n: nat, curtimes: nat -> Ticks)
      requires OnBeat(moves, all, c, n, curtimes) && count == 0
      ensures queue == [] && all <= |moves| && (edge || KeepsPace(clock, moves, all, c, curtimes, all))
    {}

    method Beat(ghost moves: seq<StepMove>, ghost all: nat, ghost c: nat, n: nat,
                curtimes: nat -> Ticks, dirTimes: nat -> Ticks) returns (r: Outcome)
      requires Valid() && scheduled && OnBeat(moves, all, c, n, curtimes)
      modifies this`waketime, this`scheduled, this`interval, this`add, this`count, this`nextStepTime, this`stepPin
      modifies this`dirPin, this`position, this`net, this`times, this`past, this`current, this`queue
      modifies pool, pool.next, pool.first
      ensures r.Shutdown? ==> Interrupted() && r.reason == TooFarInPast
      ensures r.Shutdown? ==> !edge && all <= |moves| && !KeepsPace(clock, moves, all, c, curtimes, all)
      ensures !r.Shutdown? ==> Valid() && OnBeat(moves, all, c, n + 1, curtimes)
      ensures |queue| < |old(queue)| || (queue == old(queue) && count < old(count))
    {
      hide Own, Interrupted, Pool.Valid, TooLate, End, Wrap, FallsBehind, Shifted, KeepsPace, LeavesTime;
      ghost var p := |moves| - |queue|;
      InProgram();
      OneMore(all, c, curtimes, n);
      if queue != [] { PaceStep(clock, moves, all, c, curtimes, p); }
      r := Event(curtimes(n), dirTimes(n));
      if !r.Shutdown? { IdleIsEmpty(); }
    }

    /** The pace is kept one move further exactly if that move is on time; one that is late breaks it for good. */
    lemma PaceStep(clock: int, moves: seq<StepMove>, all: nat, c: nat, curtimes: nat -> Ticks, p: nat)
      requires all <= |moves| && |moves| - all <= p < |moves| && c > 0
      ensures FallsBehind(clock, moves, all, c, curtimes, p) ==> !KeepsPace(clock, moves, all, c, curtimes, all)
      ensures KeepsPace(clock, moves, all, c, curtimes, p - (|moves| - all)) ==>
        (KeepsPace(clock, moves, all, c, curtimes, p - (|moves| - all) + 1) <==>
           !FallsBehind(clock, moves, all, c, curtimes, p))
    {
      hide FallsBehind;
    }

    /** At the last event of a move, the next move is too late exactly if the event shuts down. */
    lemma OneMore(all: nat, c: nat, curtimes: nat -> Ticks, n: nat)
      requires Own() && |queue| <= all <= |program| && queue == program[|program| - |queue|..]
      requires count == 1 ==> Register() == Wrap(End(clock, program[..|program| - |queue|]))
      requires c > 0 && n + count == c + Events(program[|program| - all..|program| - |queue|])
      ensures queue != [] ==> var p := |program| - |queue|;
        && Events(program[|program| - all..p + 1]) == Events(program[|program| - all..p]) + PerMove(queue[0])
        && (count == 1 && !edge ==>
              (FallsBehind(clock, program, all, c, curtimes, p) <==> ShutsDown(Tick(curtimes(n), 0))))
    {
      hide Own, End, TooLate, Wrap;
      if queue != [] {
        var p := |program| - |queue|;
        var s, t := program[|program| - all..p], program[|program| - all..p + 1];
        assert t == s + [program[p]] && t[..|t| - 1] == s;
        assert queue[0] == program[p];
      }
    }

    ghost function Now(): Moment
      reads this
    {
      Moment(waketime, count != 0, dirPin)
    }

    /** The motor was active at all moments from `i` to `j`, and took no event in between. */
    ghost predicate Pending(run: seq<Command>, moments: seq<Moment>, i: nat, j: nat)
      ensures Pending(run, moments, i, j) ==> i < j < |moments| <= |run| + 1 && run[i].Tick?
    {
      && i < j < |moments| <= |run| + 1 && run[i].Tick?
      && (forall k :: i <= k <= j ==> moments[k].active) && (forall k :: i < k < j ==> !run[k].Tick?)
    }

    /** The moment `w` is at least a pulse after the edge of the event `c`, and after the turn it made, if any. */
    ghost predicate Clear(c: Command, dir: bool, turned: Moment, w: Ticks)
      requires c.Tick?
    {
      && (turned.dir != dir ==> Apart(w, c.dirTime))
      && (turned.dir == dir || !IsBefore(c.dirTime, c.curtime) ==> Apart(w, c.curtime))
    }

    /** While the motor is active, each event comes at least a pulse after the one before. */
    ghost predicate Spaced(run: seq<Command>, moments: seq<Moment>) {
      forall i: nat, j: nat :: Pending(run, moments, i, j) ==>
        Clear(run[i], moments[i].dir, moments[i + 1], moments[j].wake)
    }

    lemma NothingSpaced(run: seq<Command>, m: Moment)
      ensures Spaced(run, [m])
    {}

    lemma SpacedMore(run: seq<Command>, past: seq<Moment>, m: Moment)
      requires 0 < |past| <= |run| && Spaced(run, past)
      requires var n := |past| - 1;
               past[n].active && m.active ==>
                 if run[n].Tick? then Clear(run[n], past[n].dir, m, m.wake)
                 else m.wake == past[n].wake && m.dir == past[n].dir
      ensures Spaced(run, past + [m])
    {
      hide Clear, Pending;
      var n, moments := |past| - 1, past + [m];
      forall i: nat, j: nat | Pending(run, moments, i, j)
        ensures Pending(run, moments, i, j) && Clear(run[i], moments[i].dir, moments[i + 1], moments[j].wake)
      {
        PendingBefore(run, past, m, i, j);
      }
    }

    lemma PendingBefore(run: seq<Command>, past: seq<Moment>, m: Moment, i: nat, j: nat)
      requires 0 < |past| <= |run| && Pending(run, past + [m], i, j)
      ensures i < j <= |past| && run[i].Tick? && (past + [m])[i] == past[i]
      ensures j < |past| ==>
        Pending(run, past, i, j) && (past + [m])[i + 1] == past[i + 1] && (past + [m])[j] == past[j]
      ensures j == |past| ==> past[j - 1].active && m.active && (past + [m])[j] == m
      ensures j == |past| && i < j - 1 ==>
        !run[j - 1].Tick? && Pending(run, past, i, j - 1) && (past + [m])[i + 1] == past[i + 1]
    {
      var moments := past + [m];
      assert forall k :: i <= k < |past| ==> moments[k] == past[k];
      if j == |past| { assert moments[j].active && moments[j - 1].active; }
      forall k | i <= k <= j && k < |past| ensures past[k].active { assert moments[k].active; }
    }

    method Obey(c: Command) returns (r: Outcome)
      requires Valid()
      modifies this, pool, pool.next, pool.data, pool.first, pool.last
      ensures r.Shutdown? <==> old(ShutsDown(c))
      ensures r.Shutdown? ==> Interrupted()
      ensures !r.Shutdown? ==> Valid() && Others(old(pool.contents), pool.contents)
      ensures !r.Shutdown? ==> Shifted(old(pool.place), pool.place)
      ensures old(exact) && InRange(old(net)) ==> exact
      ensures old(needReset) && !c.Reset? ==> net == old(net)
      ensures old(needReset) && !c.Reset? && !r.Shutdown? ==> needReset && pool.place == old(pool.place)
      // What an active motor waits for.
      ensures !r.Shutdown? && old(count) != 0 && count != 0 && !edge && pulseTicks <= TWO31 && c.Tick? ==>
        LeavesTime(old(dirPin), c.curtime, c.dirTime)
      ensures !r.Shutdown? && old(count) != 0 && count != 0 && !c.Tick? ==>
        waketime == old(waketime) && dirPin == old(dirPin)
    {
      hide Own, Interrupted, Pool.Valid, TooLate, Wrap, LeavesTime;
      IsInterruptible();
      if needReset { pool.NoneLeft(id); }
      match c {
        case Queue(interval, count, add) => r := QueueStep(interval, count, add);
        case Direction(dir) => SetNextStepDir(dir); r := Done;
        case Reset(time) => r := ResetStepClock(time);
        case StopNow => Stop(); r := Done;
        case Tick(curtime, dirTime) =>
          r := Done;
          if scheduled {
            r := Event(curtime, dirTime);
          }
      }
    }

    /**
      Any run of commands and events, up to a shutdown.  `nets` is the net count of pulses at the
      start and after each command.
     */
    method Drive(run: seq<Command>) returns (r: Outcome, pos: int, ghost nets: seq<int>, ghost moments: seq<Moment>)
      requires Valid()
      modifies this, pool, pool.next, pool.data, pool.first, pool.last
      ensures |nets| > 0 && nets[0] == old(net) && nets[|nets| - 1] == net
      ensures (r.Shutdown? ==> Interrupted()) && (!r.Shutdown? ==> Valid() && |nets| == |run| + 1)
      // The reported position is the count of pulses.
      ensures !r.Shutdown? && old(exact) && (forall i :: 0 <= i < |nets| ==> InRange(nets[i])) ==> pos == net
      // Steps are on time, and all of them are taken.
      ensures !r.Shutdown? ==> times <= Schedule(clock, program)
      ensures !r.Shutdown? && count == 0 ==> times == Schedule(clock, program) && net == goal
      // A stopped motor stays still until its clock is reset, and keeps no move node.
      ensures old(needReset) && (forall c :: c in run ==> !c.Reset?) ==> net == old(net)
      ensures old(needReset) && (forall c :: c in run ==> !c.Reset?) && !r.Shutdown? ==> pool.place == old(pool.place)
      // Nodes move only between the free list and the queue of the motor; from rest to rest none is lost.
      ensures !r.Shutdown? ==> Shifted(old(pool.place), pool.place)
      ensures !r.Shutdown? && old(count) == 0 && count == 0 ==> pool.place == old(pool.place)
      // Edges of an active motor are a pulse apart.
      ensures |moments| == |nets| <= |run| + 1 && (!edge && pulseTicks <= TWO31 ==> Spaced(run, moments))
    {
      hide Own, Interrupted, Pool.Valid, Schedule, ShutsDown, Apart, IsBefore, Spaced;
      r, pos, nets := Done, 0, [net];
      moments := [Now()];
      NothingSpaced(run, moments[0]);
      IdleIsEmpty();
      if count == 0 { pool.NoneLeft(id); }
      for i := 0 to |run|
        invariant Valid() && |nets| == i + 1 && nets[0] == old(net) && nets[i] == net
        invariant old(exact) && (forall j :: 0 <= j < |nets| ==> InRange(nets[j])) ==> exact
        invariant Shifted(old(pool.place), pool.place)
        invariant old(needReset) && (forall j :: 0 <= j < i ==> !run[j].Reset?) ==>
          needReset && net == old(net) && pool.place == old(pool.place)
        invariant |moments| == i + 1 && moments[i] == Now() && (!edge && pulseTicks <= TWO31 ==> Spaced(run, moments))
      {
        ghost var before, past := nets, moments;
        r := Obey(run[i]);
        nets := nets + [net];
        moments := moments + [if r.Shutdown? then Moment(waketime, false, dirPin) else Now()];
        if !edge && pulseTicks <= TWO31 { SpacedMore(run, past, moments[i + 1]); }
        assert forall j :: 0 <= j < |before| ==> nets[j] == before[j];
        if r.Shutdown? {
          return;
        }
      }
      r := Done;
      pos := GetPosition();
      OnTime();
      IdleIsEmpty();
      if count == 0 { pool.NoneLeft(id); }
    }
  }
}
