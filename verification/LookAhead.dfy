/**
  The mutable side of the look-ahead planner (klippy/toolhead.py): `Move` objects and the
  `LookAheadQueue` that holds them, tied to the plan of module JunctionPlan.

  Ghost fields of the queue remember every move added since the tool last stood still, so that
  what has been flushed so far can be compared with a plan of the whole sequence made at once.
 */
module LookAhead {
  import opened JunctionPlan

  const LOOKAHEAD_FLUSH_TIME := 0.150
  const EXTRUDE_ONLY_ACCEL := 99999999.9
  const UNLIMITED_JUNCTION_V2 := 999999999.9

  ghost predicate IsSqrt(f: real -> real) {
    forall x :: x >= 0.0 ==> f(x) >= 0.0 && Squared(f(x)) == x
  }

  function Squared(v: real): real { Mul(v, v) }

  lemma MulPositive(x: real, y: real)
    requires x > 0.0 && y > 0.0
    ensures Mul(x, y) > 0.0
  {}

  lemma MulMonotone(x: real, a: real, b: real)
    requires x >= 0.0 && a <= b
    ensures Mul(x, a) <= Mul(x, b)
  {
    assert x * (b - a) >= 0.0;
  }

  lemma SquaredNonNegative(v: real)
    ensures Squared(v) >= 0.0
  {
    var w := v;
    assert v * w >= 0.0;
  }

  /** The smallest of some values. */
  ghost predicate IsLeast(x: real, values: seq<real>) {
    x in values && forall i :: 0 <= i < |values| ==> x <= values[i]
  }

  /** The inputs of a move request, with the limits that the kinematics puts on it. */
  datatype MoveSpec = MoveSpec(
    kinematic: bool, moveD: real, speed: real,
    maxVelocity: real, maxAccel: real, minCruiseRatio: real,
    limitSpeed: real, limitAccel: real)
  {
    predicate Valid() {
      && moveD > 0.0 && speed > 0.0 && maxVelocity > 0.0 && maxAccel > 0.0
      && 0.0 <= minCruiseRatio < 1.0 && limitSpeed > 0.0 && limitAccel > 0.0
    }

    function PseudoAccel(): real { Mul(maxAccel, 1.0 - minCruiseRatio) }

    lemma PseudoAccelBounds()
      requires Valid()
      ensures 0.0 < PseudoAccel() <= maxAccel
    {
      MulPositive(maxAccel, 1.0 - minCruiseRatio);
      MulMonotone(maxAccel, 1.0 - minCruiseRatio, 1.0);
    }

    /** The limits of the move before its junction with the previous one is known. */
    function Requested(): Limits {
      var velocity := if kinematic then Min(speed, maxVelocity) else speed;
      var accel := if kinematic then maxAccel else EXTRUDE_ONLY_ACCEL;
      Limits(kinematic, moveD, accel, SpanV2(moveD, accel), Squared(velocity),
             SpanV2(moveD, PseudoAccel()), 0.0, 0.0)
    }

    /** The same with the limits of the kinematics applied. */
    function Limited(): Limits {
      var r := Requested();
      var accel := Min(r.accel, limitAccel);
      r.(accel := accel, delta := SpanV2(moveD, accel),
         maxCruise := Min(r.maxCruise, Squared(limitSpeed)),
         mcrDelta := Min(r.mcrDelta, SpanV2(moveD, accel)))
    }

    lemma RequestedSound()
      requires Valid()
      ensures Sound(Requested())
    {
      hide Mul, PseudoAccel;
      var velocity := if kinematic then Min(speed, maxVelocity) else speed;
      MulPositive(velocity, velocity);
      PseudoAccelBounds();
      MulPositive(moveD, PseudoAccel());
      MulPositive(moveD, if kinematic then maxAccel else EXTRUDE_ONLY_ACCEL);
      MulMonotone(moveD, PseudoAccel(), maxAccel);
    }

    lemma LimitedSound()
      requires Valid()
      ensures Sound(Limited()) && Limited().maxStart == 0.0
      ensures Limited().mcrDelta <= Limited().delta
    {
      hide Mul, PseudoAccel;
      RequestedSound();
      MulPositive(limitSpeed, limitSpeed);
      MulPositive(moveD, Limited().accel);
    }

    /** The limit on the cruise speed admits exactly the speeds that the request and the machine admit. */
    lemma SpeedLimits(v: real)
      requires Valid() && v >= 0.0
      ensures Squared(v) <= Requested().maxCruise <==> v <= speed && (kinematic ==> v <= maxVelocity)
      ensures Squared(v) <= Limited().maxCruise <==>
              v <= speed && v <= limitSpeed && (kinematic ==> v <= maxVelocity)
    {
      hide Squared, PseudoAccel;
      SquareOrders(v, speed);
      SquareOrders(v, maxVelocity);
      SquareOrders(v, limitSpeed);
    }

    /** The acceleration is the smallest one given, and the reduced one leaves room for the cruise ratio. */
    lemma AccelLimits()
      ensures Requested().accel == (if kinematic then maxAccel else EXTRUDE_ONLY_ACCEL)
      ensures IsLeast(Limited().accel, [limitAccel, if kinematic then maxAccel else EXTRUDE_ONLY_ACCEL])
      ensures Requested().delta == SpanV2(moveD, Requested().accel) && Limited().delta == SpanV2(moveD, Limited().accel)
      ensures Requested().mcrDelta == SpanV2(moveD, Mul(maxAccel, 1.0 - minCruiseRatio))
      ensures IsLeast(Limited().mcrDelta,
                      [SpanV2(moveD, Limited().accel), SpanV2(moveD, Mul(maxAccel, 1.0 - minCruiseRatio))])
    {
      hide Mul;
    }
  }

  lemma SquareOrders(a: real, b: real)
    requires a >= 0.0 && b >= 0.0
    ensures Squared(a) <= Squared(b) <==> a <= b
  {
    if a <= b {
      MulMonotone(a, a, b);
      MulMonotone(b, a, b);
      assert Mul(a, b) == Mul(b, a);
    } else {
      if Squared(a) <= Squared(b) { SquareOrder(a, b); }
    }
  }

  /** A kinematic move on its own cruises for at least the minimum ratio of its length. */
  lemma MinimumCruise(spec: MoveSpec)
    requires spec.Valid() && spec.kinematic && spec.maxAccel <= spec.limitAccel
    ensures var m, s := spec.Limited(), Profile([spec.Limited()], 0);
            m.accel > 0.0 && Mul(spec.moveD, spec.minCruiseRatio) <=
              spec.moveD - PhaseDistance(s.start, s.cruise, m.accel) - PhaseDistance(s.end, s.cruise, m.accel)
  {
    var m, r := spec.Limited(), spec.minCruiseRatio;
    var ms := [m];
    spec.LimitedSound();
    AnchorZero(ms);
    var e := PeakSpan(ms, 0);
    CruiseFloor(ms, 0);
    assert e == 1 && ReducedSpan(ms, 0, 1) == m.mcrDelta;
    var s := Profile(ms, 0);
    assert s.start == 0.0 && s.end == 0.0;
    RatioLeft(spec.moveD, m.accel, r, s.cruise);
  }

  lemma RatioLeft(d: real, a: real, r: real, c: real)
    requires d > 0.0 && a > 0.0 && 2.0 * c <= SpanV2(d, Mul(a, 1.0 - r))
    ensures Mul(d, r) <= d - PhaseDistance(0.0, c, a) - PhaseDistance(0.0, c, a)
  {
    var h := 0.5 / a;
    assert h * a == 0.5;
    var x := SpanV2(d, Mul(a, 1.0 - r));
    MulMonotone(h, 2.0 * c, x);
    assert Mul(h, x) == 2.0 * (h * a) * (d * (1.0 - r));
    assert PhaseDistance(0.0, c, a) == c * h;
  }

  /**
    The limits of `m` once its junction with `p` is known.  `cap` is the smallest of the limits
    that the extra axes and the junction angle impose.
   */
  function Joined(p: Limits, nextJunction: real, cap: real, m: Limits): (r: Limits)
    requires Sound(p) && Sound(m) && m.maxStart == 0.0 && nextJunction >= 0.0 && cap >= 0.0
    ensures Sound(r) && Linked(p, r)
    ensures r.maxStart <= cap || !m.kinematic || !p.kinematic
  {
    if !m.kinematic || !p.kinematic then m
    else
      var v2 := Min(Min(Min(m.maxCruise, p.maxCruise), Min(nextJunction, p.maxStart + p.delta)), cap);
      m.(maxStart := v2, maxMcr := Min(v2, p.maxMcr + p.mcrDelta))
  }

  /** What limits the speed at a junction of two kinematic moves; any other junction is at rest. */
  lemma JunctionLimits(p: Limits, nextJunction: real, cap: real, m: Limits)
    requires Sound(p) && Sound(m) && m.maxStart == 0.0 && nextJunction >= 0.0 && cap >= 0.0
    ensures var r := Joined(p, nextJunction, cap, m);
            && r.(maxStart := 0.0, maxMcr := 0.0) == m.(maxMcr := 0.0)
            && (if m.kinematic && p.kinematic then
                  && IsLeast(r.maxStart, [m.maxCruise, p.maxCruise, nextJunction, p.maxStart + p.delta, cap])
                  && IsLeast(r.maxMcr, [r.maxStart, p.maxMcr + p.mcrDelta])
                else r.maxStart == r.maxMcr == 0.0)
            && r.maxStart <= nextJunction && r.maxStart <= cap
  {
    hide Mul;
  }

  /** The distance over which acceleration `a` takes the squared speed from `lo2` to `hi2`. */
  function PhaseDistance(lo2: real, hi2: real, a: real): real
    requires a > 0.0
  {
    Mul(hi2 - lo2, 0.5 / a)
  }

  /** The time to cover distance `d` at the average of two speeds. */
  function PhaseTime(d: real, lo: real, hi: real): real
    requires lo + hi > 0.0
  {
    d / ((lo + hi) * 0.5)
  }

  /** The phase time is that of a constant acceleration between the two speeds. */
  lemma PhaseIsConstantAcceleration(lo: real, hi: real, a: real)
    requires a > 0.0 && 0.0 <= lo <= hi && hi > 0.0
    ensures var d := PhaseDistance(Squared(lo), Squared(hi), a);
            var t := PhaseTime(d, lo, hi);
            d >= 0.0 && t >= 0.0 && Mul(t, a) == hi - lo && Mul(t, (lo + hi) * 0.5) == d
  {
    var h, gap, sum := 0.5 / a, hi - lo, hi + lo;
    var d := PhaseDistance(Squared(lo), Squared(hi), a);
    var t := PhaseTime(d, lo, hi);
    assert Squared(hi) - Squared(lo) == gap * sum;
    assert gap * sum >= 0.0;
    assert h * a == 0.5;
    assert d == (gap * sum) * h;
    assert d * a == (gap * sum) * 0.5;
    assert t * (sum * 0.5) == d;
    assert (t * a) * (sum * 0.5) == gap * (sum * 0.5);
    EqualFactors(t * a, gap, sum * 0.5);
  }

  lemma EqualFactors(x: real, y: real, z: real)
    requires z > 0.0 && x * z == y * z
    ensures x == y
  {
    assert (x - y) * z == 0.0;
  }

  lemma SquareOrder(a: real, b: real)
    requires a >= 0.0 && b >= 0.0 && Squared(a) <= Squared(b)
    ensures a <= b
  {
    assert Mul(a - b, a + b) == Squared(a) - Squared(b);
    if a > b { MulPositive(a - b, a + b); }
  }

  /** A feasible move has phases of non-negative length: acceleration, deceleration and the cruise between them. */
  lemma CruiseDistance(m: Limits, s: Speeds)
    requires Sound(m) && Feasible(m, s)
    ensures PhaseDistance(s.start, s.cruise, m.accel) >= 0.0 && PhaseDistance(s.end, s.cruise, m.accel) >= 0.0
    ensures PhaseDistance(s.start, s.cruise, m.accel) + PhaseDistance(s.end, s.cruise, m.accel) <= m.moveD
  {
    var h := 0.5 / m.accel;
    MulMonotone(h, 0.0, s.cruise - s.start);
    MulMonotone(h, 0.0, s.cruise - s.end);
    var x := (s.cruise - s.start) + (s.cruise - s.end);
    MulMonotone(h, x, m.delta);
    assert h * m.accel == 0.5;
    assert Mul(h, m.delta) == 2.0 * m.moveD * (m.accel * h);
    assert Mul(h, x) == PhaseDistance(s.start, s.cruise, m.accel) + PhaseDistance(s.end, s.cruise, m.accel);
  }

  lemma QuotientBack(d: real, v: real)
    requires d >= 0.0 && v > 0.0
    ensures d / v >= 0.0 && Mul(d / v, v) == d
  {}

  /** Constant-acceleration phases between the given squared speeds that add up to the distance `d`. */
  ghost predicate Trapezoid(d: real, accel: real, startV: real, cruiseV: real, endV: real,
                            accelT: real, cruiseT: real, decelT: real, s: Speeds) {
    && 0.0 <= startV && Squared(startV) == s.start
    && 0.0 < cruiseV && Squared(cruiseV) == s.cruise
    && 0.0 <= endV && Squared(endV) == s.end
    && accelT >= 0.0 && cruiseT >= 0.0 && decelT >= 0.0
    && Mul(accelT, accel) == cruiseV - startV
    && Mul(decelT, accel) == cruiseV - endV
    && Mul(accelT, (startV + cruiseV) * 0.5) + Mul(cruiseT, cruiseV) + Mul(decelT, (endV + cruiseV) * 0.5) == d
  }

  class Move {
    const isKinematicMove: bool
    const moveD: real
    var accel: real
    var minMoveT: real
    var maxStartV2: real
    var maxCruiseV2: real
    var deltaV2: real
    var nextJunctionV2: real
    var maxMcrStartV2: real
    var mcrDeltaV2: real
    var startV: real
    var cruiseV: real
    var endV: real
    var accelT: real
    var cruiseT: real
    var decelT: real

    ghost function Lim(): Limits
      reads this
    {
      Limits(isKinematicMove, moveD, accel, deltaV2, maxCruiseV2, mcrDeltaV2, maxStartV2, maxMcrStartV2)
    }

    constructor (spec: MoveSpec)
      requires spec.Valid()
      ensures Lim() == spec.Requested()
      ensures nextJunctionV2 == UNLIMITED_JUNCTION_V2
      ensures minMoveT == moveD / (if spec.kinematic then Min(spec.speed, spec.maxVelocity) else spec.speed)
      ensures exists v :: QuickestAt(v)
    {
      isKinematicMove, moveD := spec.kinematic, spec.moveD;
      var velocity, accel := Min(spec.speed, spec.maxVelocity), spec.maxAccel;
      if !spec.kinematic {
        velocity, accel := spec.speed, EXTRUDE_ONLY_ACCEL;
      }
      this.accel, minMoveT := accel, spec.moveD / velocity;
      maxStartV2, maxCruiseV2 := 0.0, Squared(velocity);
      deltaV2 := SpanV2(spec.moveD, accel);
      nextJunctionV2 := UNLIMITED_JUNCTION_V2;
      maxMcrStartV2, mcrDeltaV2 := 0.0, SpanV2(spec.moveD, spec.PseudoAccel());
      startV, cruiseV, endV, accelT, cruiseT, decelT := 0.0, 0.0, 0.0, 0.0, 0.0, 0.0;
      new;
      QuotientBack(moveD, velocity);
      assert QuickestAt(velocity);
    }

    method LimitSpeed(speed: real, accel: real)
      requires speed > 0.0 && accel > 0.0
      modifies `maxCruiseV2, `minMoveT, `accel, `deltaV2, `mcrDeltaV2
      ensures forall spec: MoveSpec ::
        spec.limitSpeed == speed && spec.limitAccel == accel && old(Lim()) == spec.Requested()
        ==> Lim() == spec.Limited()
      ensures minMoveT == if Squared(speed) < old(maxCruiseV2) then moveD / speed else old(minMoveT)
      ensures moveD >= 0.0 ==> forall v :: old(QuickestAt(v)) ==> QuickestAt(Min(v, speed))
    {
      hide Mul;
      if moveD >= 0.0 { QuotientBack(moveD, speed); }
      var speed2 := Squared(speed);
      if speed2 < maxCruiseV2 {
        maxCruiseV2 := speed2;
        minMoveT := moveD / speed;
      }
      this.accel := Min(this.accel, accel);
      deltaV2 := SpanV2(moveD, this.accel);
      mcrDeltaV2 := Min(mcrDeltaV2, deltaV2);
      forall v | moveD >= 0.0 && old(QuickestAt(v)) ensures QuickestAt(Min(v, speed)) {
        SquareOrders(v, speed);
      }
    }

    method LimitNextJunctionSpeed(speed: real)
      requires nextJunctionV2 >= 0.0
      modifies `nextJunctionV2
      ensures nextJunctionV2 == Min(old(nextJunctionV2), Squared(speed)) && nextJunctionV2 >= 0.0
    {
      SquaredNonNegative(speed);
      nextJunctionV2 := Min(nextJunctionV2, Squared(speed));
    }

    method CalcJunction(prev: Move, cap: real)
      requires prev != this && Sound(prev.Lim()) && Sound(Lim()) && maxStartV2 == 0.0
      requires prev.nextJunctionV2 >= 0.0 && cap >= 0.0
      modifies `maxStartV2, `maxMcrStartV2
      ensures Lim() == Joined(prev.Lim(), prev.nextJunctionV2, cap, old(Lim()))
    {
      if !isKinematicMove || !prev.isKinematicMove {
        return;
      }
      var v2 := Min(Min(Min(maxCruiseV2, prev.maxCruiseV2),
                        Min(prev.nextJunctionV2, prev.maxStartV2 + prev.deltaV2)), cap);
      maxStartV2 := v2;
      maxMcrStartV2 := Min(v2, prev.maxMcrStartV2 + prev.mcrDeltaV2);
    }

    /** The shortest time of the move is that at its highest cruise speed. */
    ghost predicate QuickestAt(v: real)
      reads this
    {
      v > 0.0 && Squared(v) == maxCruiseV2 && Mul(minMoveT, v) == moveD
    }

    /** The move keeps to its request, and starts no faster than the junction allows. */
    ghost predicate Keeps(spec: MoveSpec, cap: real)
      reads this
    {
      && isKinematicMove == spec.kinematic && moveD == spec.moveD
      && 0.0 < cruiseV <= spec.speed && cruiseV <= spec.limitSpeed && (spec.kinematic ==> cruiseV <= spec.maxVelocity)
      && IsLeast(accel, [spec.limitAccel, if spec.kinematic then spec.maxAccel else EXTRUDE_ONLY_ACCEL])
      && Squared(startV) <= cap
    }

    /** The move runs the given speeds. */
    ghost predicate Runs(s: Speeds)
      reads this
    {
      Trapezoid(moveD, accel, startV, cruiseV, endV, accelT, cruiseT, decelT, s)
    }

    method SetJunction(startV2: real, cruiseV2: real, endV2: real, sqrt: real -> real)
      requires IsSqrt(sqrt) && Sound(Lim()) && Feasible(Lim(), Speeds(startV2, cruiseV2, endV2))
      modifies `startV, `cruiseV, `endV, `accelT, `cruiseT, `decelT
      ensures Runs(Speeds(startV2, cruiseV2, endV2))
    {
      hide Mul, PhaseTime, PhaseDistance;
      var accelD := PhaseDistance(startV2, cruiseV2, accel);
      var decelD := PhaseDistance(endV2, cruiseV2, accel);
      var cruiseD := moveD - accelD - decelD;
      startV, cruiseV, endV := sqrt(startV2), sqrt(cruiseV2), sqrt(endV2);
      SquareOrder(startV, cruiseV);
      SquareOrder(endV, cruiseV);
      if cruiseV == 0.0 { ZeroSquared(); }
      PhaseIsConstantAcceleration(startV, cruiseV, accel);
      PhaseIsConstantAcceleration(endV, cruiseV, accel);
      CruiseDistance(Lim(), Speeds(startV2, cruiseV2, endV2));
      accelT := PhaseTime(accelD, startV, cruiseV);
      cruiseT := cruiseD / cruiseV;
      decelT := PhaseTime(decelD, endV, cruiseV);
      QuotientBack(cruiseD, cruiseV);
    }
  }

  lemma ZeroSquared()
    ensures Squared(0.0) == 0.0
  {}

  class LookAheadQueue {
    var queue: seq<Move>
    var junctionFlush: real

    // Limits of the moves added since the tool was last at rest: those flushed and those queued.
    ghost var gone: seq<Limits>
    ghost var waiting: seq<Limits>
    // The speeds of all flushes that brought the tool to rest.
    ghost var finished: seq<Speeds>

    ghost function All(): seq<Limits>
      reads this
    {
      gone + waiting
    }

    ghost predicate Valid()
      reads this, queue
    {
      && Holds(queue, waiting)
      && (forall i, j :: 0 <= i < j < |queue| ==> queue[i] != queue[j])
      && (forall m :: m in queue ==> m.nextJunctionV2 >= 0.0)
      && Chain(All()) && RestToRest(finished)
      && (if waiting == [] then gone == [] else All()[0].maxStart == 0.0 && Anchor(All(), |gone|))
    }

    /** The speeds given to all moves flushed so far, in order. */
    ghost function Planned(): seq<Speeds>
      reads this
    {
      finished + Plan(All(), |gone|)
    }

    constructor ()
      ensures Valid() && queue == [] && All() == [] && finished == []
      ensures junctionFlush == LOOKAHEAD_FLUSH_TIME
    {
      queue, junctionFlush := [], LOOKAHEAD_FLUSH_TIME;
      gone, waiting, finished := [], [], [];
    }

    /** Drop all pending moves (used when the machine stops unconditionally). */
    method Reset()
      modifies this
      ensures Valid() && queue == [] && All() == [] && finished == []
      ensures junctionFlush == LOOKAHEAD_FLUSH_TIME
    {
      queue, junctionFlush := [], LOOKAHEAD_FLUSH_TIME;
      gone, waiting, finished := [], [], [];
    }

    method AddMove(move: Move, cap: real) returns (wantFlush: bool)
      requires Valid() && move !in queue
      requires Sound(move.Lim()) && move.maxStartV2 == 0.0 && move.nextJunctionV2 >= 0.0 && cap >= 0.0
      modifies this, move`maxStartV2, move`maxMcrStartV2
      ensures Valid() && queue == old(queue) + [move]
      ensures finished == old(finished) && gone == old(gone) && Planned() == old(Planned())
      ensures waiting == old(waiting) +
        [if old(queue) == [] then old(move.Lim())
         else Joined(old(All())[|old(All())| - 1], old(queue[|queue| - 1].nextJunctionV2), cap, old(move.Lim()))]
      ensures junctionFlush == old(junctionFlush) - (if old(queue) == [] then 0.0 else move.minMoveT)
      ensures wantFlush <==> old(queue) != [] && junctionFlush <= 0.0
    {
      hide Mul, Sound, Linked, Chain, Anchor, RestToRest, Plan, Profile, Joined;
      if queue == [] {
        queue, waiting := [move], [move.Lim()];
        assert All() == [move.Lim()];
        FirstIsAnchor(All());
        return false;
      }
      Join(move, cap);
      junctionFlush := junctionFlush - move.minMoveT;
      return junctionFlush <= 0.0;
    }

    /** Queue a move behind others, with the limits of its junction. */
    method Join(move: Move, cap: real)
      requires Valid() && queue != [] && move !in queue
      requires Sound(move.Lim()) && move.maxStartV2 == 0.0 && move.nextJunctionV2 >= 0.0 && cap >= 0.0
      modifies `queue, `waiting, move`maxStartV2, move`maxMcrStartV2
      ensures Valid() && queue == old(queue) + [move] && Planned() == old(Planned())
      ensures waiting == old(waiting) +
        [Joined(old(All())[|old(All())| - 1], old(queue[|queue| - 1].nextJunctionV2), cap, old(move.Lim()))]
    {
      hide Mul, Sound, Linked, Chain, Anchor, RestToRest, Plan, Profile, Joined;
      ghost var before := All();
      var prev := queue[|queue| - 1];
      assert prev.Lim() == before[|before| - 1];
      LastSound(before);
      queue := queue + [move];
      move.CalcJunction(prev, cap);
      waiting := waiting + [move.Lim()];
      assert Holds(queue, waiting);
      hide Holds;
      assert All() == before + [move.Lim()];
      PlanGrows(before, move.Lim(), |gone|);
    }

    /**
      A lazy flush releases moves whose speeds are settled; any other flush releases all of them
      and leaves the tool at rest.  Either way the speeds are those of one plan over all moves.
     */
    method Flush(lazy: bool, sqrt: real -> real) returns (res: seq<Move>, ghost speeds: seq<Speeds>)
      requires Valid() && IsSqrt(sqrt)
      modifies this, queue
      ensures Valid() && res + queue == old(queue)
      ensures forall m :: m in old(queue) ==> m.Lim() == old(m.Lim()) && m.nextJunctionV2 == old(m.nextJunctionV2)
      ensures |speeds| == |res| <= |old(waiting)| && (forall m :: m in res ==> m !in queue)
      ensures Ran(res, old(waiting)[..|res|], speeds)
      ensures lazy ==> gone == old(gone) + old(waiting)[..|res|]
      ensures !lazy ==> |res| == |old(queue)|
      ensures lazy ==> |res| == if LazyPoint(old(waiting), 0) < 0 then 0 else LazyPoint(old(waiting), 0)
      ensures Planned() == old(Planned()) + speeds
      ensures if lazy then All() == old(All()) && finished == old(finished)
              else All() == [] && queue == [] && finished == old(finished) + Plan(old(All()), |old(All())|)
      ensures junctionFlush == LOOKAHEAD_FLUSH_TIME
    {
      hide Mul, Chain, RestToRest, Anchor, Plan, Profile, LazyPoint, Ran;
      junctionFlush := LOOKAHEAD_FLUSH_TIME;
      var flushCount;
      flushCount, speeds := Settle(lazy, sqrt);
      if flushCount == 0 {
        return [], speeds;
      }
      res := Remove(flushCount);
    }

    /** Give the moves that are to be released their speeds. */
    method Settle(lazy: bool, sqrt: real -> real) returns (n: nat, ghost speeds: seq<Speeds>)
      requires Valid() && IsSqrt(sqrt)
      modifies queue
      ensures Valid() && |speeds| == n <= |queue|
      ensures forall m :: m in queue ==> m.Lim() == old(m.Lim()) && m.nextJunctionV2 == old(m.nextJunctionV2)
      ensures n == if !lazy then |queue| else if LazyPoint(waiting, 0) < 0 then 0 else LazyPoint(waiting, 0)
      ensures n > 0 ==> (n < |queue| <==> lazy) && (lazy ==> Anchor(All(), |gone| + n))
      ensures Ran(queue[..n], waiting[..n], speeds) && Planned() + speeds == finished + Plan(All(), |gone| + n)
    {
      hide Mul, Chain, RestToRest, Feasible, Anchor, Plan, Profile, LazyPoint, Ran, Move.Runs;
      if queue == [] {
        EmptyChain();
      } else {
        WaitingIsAnchored(gone, waiting);
      }
      n := Sweep(queue, waiting, lazy, sqrt);
      assert Valid();
      speeds := Plan(waiting, n);
      RanPlan(queue, waiting, n);
      if n > 0 {
        PlanContinues(gone, waiting, n);
      }
    }

    /** Take the first `n` moves off the queue once they have their speeds. */
    method Remove(n: nat) returns (res: seq<Move>)
      requires Valid() && 0 < n <= |queue|
      requires n < |queue| ==> Anchor(All(), |gone| + n)
      modifies this
      ensures Valid() && |res| == n && res == old(queue)[..n] && res + queue == old(queue)
      ensures (forall m :: m in res ==> m !in queue) && (queue != [] ==> gone == old(gone) + old(waiting)[..n])
      ensures Planned() == old(finished) + Plan(old(All()), |old(gone)| + n)
      ensures if n < |old(queue)| then All() == old(All()) && finished == old(finished)
              else All() == [] && finished == old(finished) + Plan(old(All()), |old(All())|)
      ensures junctionFlush == old(junctionFlush)
    {
      hide Mul, Chain, Anchor, RestToRest, Plan, Profile;
      res := queue[..n];
      queue := queue[n..];
      if queue != [] {
        ghost var before := All();
        gone, waiting := gone + waiting[..n], waiting[n..];
        assert All() == before;
      } else {
        AnchorZero(All());
        PlanContinuous(All());
        JoinRests(finished, Plan(All(), |All()|));
        finished := finished + Plan(All(), |All()|);
        gone, waiting := [], [];
        EmptyChain();
        assert All() == [];
      }
    }
  }

  lemma WaitingIsAnchored(gone: seq<Limits>, waiting: seq<Limits>)
    requires Chain(gone + waiting) && Anchor(gone + waiting, |gone|)
    ensures Chain(waiting) && Anchor(waiting, 0)
    ensures LazyPoint(waiting, 0) >= 0 ==>
      0 < LazyPoint(waiting, 0) < |waiting| && Anchor(gone + waiting, |gone| + LazyPoint(waiting, 0))
  {
    hide *;
    var all := gone + waiting;
    assert all[|gone|..] == waiting;
    AnchorAssigned(all, |gone|);
    SuffixFirstAnchor(all, |gone|);
    if LazyPoint(waiting, 0) >= 0 {
      LazyPointIsAnchor(waiting, 0);
      SuffixAnchor(all, |gone|, LazyPoint(waiting, 0));
    }
  }

  lemma PlanContinues(gone: seq<Limits>, waiting: seq<Limits>, n: nat)
    requires Anchor(gone + waiting, |gone|) && n <= |waiting|
    ensures Plan(gone + waiting, |gone| + n) == Plan(gone + waiting, |gone|) + Plan(waiting, n)
  {
    hide *;
    var all := gone + waiting;
    assert all[|gone|..] == waiting;
    AnchorAssigned(all, |gone|);
    SuffixPlan(all, |gone|, n);
  }

  /** A linked move extends a plan and changes nothing before an anchor. */
  lemma PlanGrows(ms: seq<Limits>, m: Limits, k: nat)
    requires Chain(ms) && ms != [] && Sound(m) && Linked(ms[|ms| - 1], m) && Anchor(ms, k)
    ensures Chain(ms + [m]) && Anchor(ms + [m], k) && (ms + [m])[0] == ms[0]
    ensures Plan(ms + [m], k) == Plan(ms, k)
  {
    hide Sound, Linked, Chain, Anchor, Plan;
    ChainExtends(ms, m);
    AnchorStable(ms, [m], k);
    PlanStable(ms, [m], k);
    AnchorAssigned(ms, k);
  }

  lemma ChainExtends(ms: seq<Limits>, m: Limits)
    requires Chain(ms) && Sound(m) && (ms != [] ==> Linked(ms[|ms| - 1], m))
    ensures Chain(ms + [m])
  {}

  lemma LastSound(ms: seq<Limits>)
    requires Chain(ms) && ms != []
    ensures Sound(ms[|ms| - 1])
  {}

  lemma AnchorAssigned(ms: seq<Limits>, k: nat)
    requires Anchor(ms, k)
    ensures k < |ms| && Assigned(ms, k)
  {}

  lemma EmptyChain()
    ensures Chain([])
  {}

  lemma FirstIsAnchor(ms: seq<Limits>)
    requires |ms| == 1 && Sound(ms[0]) && ms[0].maxStart == 0.0
    ensures Chain(ms) && Anchor(ms, 0)
  {}

  lemma AnchorZero(ms: seq<Limits>)
    requires Chain(ms) && ms != [] && ms[0].maxStart == 0.0
    ensures Anchor(ms, 0)
  {
    ProfileBounds(ms, 0);
    ProfileBounds(ms, 1);
  }

  lemma JoinRests(p: seq<Speeds>, q: seq<Speeds>)
    requires RestToRest(p) && RestToRest(q)
    ensures RestToRest(p + q)
  {}

  datatype Option<T> = None | Some(value: T)

  /** The queue holds moves with the limits `ms`. */
  ghost predicate Holds(queue: seq<Move>, ms: seq<Limits>)
    reads queue
  {
    |queue| == |ms| && forall i :: 0 <= i < |ms| ==> queue[i].Lim() == ms[i]
  }

  /** One turn of the backward pass. */
  lemma BackwardStep(ms: seq<Limits>, i: nat)
    requires i < |ms|
    ensures Start(ms, i) == Min(ms[i].maxStart, Start(ms, i + 1) + ms[i].delta)
    ensures Mcr(ms, i) == Min(ms[i].maxMcr, Mcr(ms, i + 1) + ms[i].mcrDelta)
    ensures Assigned(ms, i) == (Mcr(ms, i) < Mcr(ms, i + 1) + ms[i].mcrDelta)
    ensures Pending(ms, i) == if Assigned(ms, i) then 0 else 1 + Pending(ms, i + 1)
    ensures NewPeak(ms, i) ==
      (Assigned(ms, i) && (Mcr(ms, i) + ms[i].mcrDelta > Mcr(ms, i + 1) || Pending(ms, i + 1) > 0))
    ensures Peak(ms, i) == if NewPeak(ms, i) then (Mcr(ms, i) + Mcr(ms, i + 1) + ms[i].mcrDelta) * 0.5
                           else Peak(ms, i + 1)
    ensures PeakCruise(ms, i) ==
      Min(Min((Start(ms, i) + Start(ms, i + 1) + ms[i].delta) * 0.5, ms[i].maxCruise), Peak(ms, i))
    ensures LazyPoint(ms, i) ==
      if LazyPoint(ms, i + 1) >= 0 then LazyPoint(ms, i + 1)
      else if NewPeak(ms, i) && Peak(ms, i + 1) != 0.0 then i + Pending(ms, i + 1) + 1
      else -1
  {}

  /** The backward pass before its first turn. */
  lemma BackwardInit(ms: seq<Limits>)
    ensures Start(ms, |ms|) == Mcr(ms, |ms|) == Peak(ms, |ms|) == 0.0
    ensures Pending(ms, |ms|) == 0 && LazyPoint(ms, |ms|) == -1
  {}

  /** Moves with the given limits run the given speeds, which are feasible for them. */
  ghost predicate Ran(moves: seq<Move>, limits: seq<Limits>, speeds: seq<Speeds>)
    reads moves
  {
    && |moves| == |limits| == |speeds|
    && forall i :: 0 <= i < |moves| ==>
         moves[i].Lim() == limits[i] && moves[i].Runs(speeds[i]) && Feasible(limits[i], speeds[i])
  }

  lemma RanPlan(queue: seq<Move>, ms: seq<Limits>, n: nat)
    requires Holds(queue, ms) && n <= |ms|
    requires forall i :: 0 <= i < n ==> queue[i].Runs(Profile(ms, i)) && Feasible(ms[i], Profile(ms, i))
    ensures Ran(queue[..n], ms[..n], Plan(ms, n))
  {
    hide Feasible, Plan, Profile, Move.Runs;
  }

  /** Both passes of a flush: choose how many moves to release and give them their speeds. */
  method Sweep(queue: seq<Move>, ghost ms: seq<Limits>, lazy: bool, sqrt: real -> real)
    returns (flushCount: nat)
    requires Holds(queue, ms) && IsSqrt(sqrt) && Chain(ms) && (ms != [] ==> Anchor(ms, 0))
    requires forall i, j :: 0 <= i < j < |queue| ==> queue[i] != queue[j]
    modifies queue
    ensures flushCount == if !lazy then |queue| else if LazyPoint(ms, 0) < 0 then 0 else LazyPoint(ms, 0)
    ensures flushCount <= |ms|
    ensures forall m :: m in queue ==> m.Lim() == old(m.Lim()) && m.nextJunctionV2 == old(m.nextJunctionV2)
    ensures forall i :: 0 <= i < flushCount ==>
      queue[i].Runs(Profile(ms, i)) && Feasible(ms[i], Profile(ms, i))
  {
    hide Mul, Chain, Feasible, Anchor, Assigned, Start, Profile, PeakCruise, LazyPoint, Move.Runs;
    var update, starts, cruises;
    flushCount, update, starts, cruises := PlanBackward(queue, ms, lazy);
    if update || flushCount == 0 {
      return 0;
    }
    if lazy { LazyPointIsAnchor(ms, 0); }
    AssignForward(queue, ms, flushCount, starts, cruises, sqrt);
  }

  /** First loop of a flush: from the last move back to the first. */
  method PlanBackward(queue: seq<Move>, ghost ms: seq<Limits>, lazy: bool)
    returns (flushCount: nat, update: bool, starts: array<real>, cruises: array<Option<real>>)
    requires Holds(queue, ms)
    ensures update == (lazy && LazyPoint(ms, 0) < 0)
    ensures flushCount == if lazy && LazyPoint(ms, 0) >= 0 then LazyPoint(ms, 0) else |queue|
    ensures fresh(starts) && fresh(cruises) && starts.Length == |ms| + 1 && cruises.Length == |ms|
    ensures forall j :: 0 <= j <= |ms| ==> starts[j] == Start(ms, j)
    ensures forall j :: 0 <= j < |ms| ==>
      cruises[j] == if Assigned(ms, j) then Some(PeakCruise(ms, j)) else None
  {
    hide Start, Mcr, Assigned, Pending, NewPeak, Peak, PeakCruise, LazyPoint;
    BackwardInit(ms);
    update, flushCount := lazy, |queue|;
    starts := new real[|queue| + 1](_ => 0.0);
    cruises := new Option<real>[|queue|](_ => None);
    var nextStartV2, nextMcrStartV2, peakCruiseV2 := 0.0, 0.0, 0.0;
    var pending := 0;
    var i := |queue|;
    while i > 0
      invariant 0 <= i <= |queue|
      invariant nextStartV2 == Start(ms, i) && nextMcrStartV2 == Mcr(ms, i)
      invariant peakCruiseV2 == Peak(ms, i) && pending == Pending(ms, i)
      invariant update == (lazy && LazyPoint(ms, i) < 0)
      invariant flushCount == if lazy && LazyPoint(ms, i) >= 0 then LazyPoint(ms, i) else |queue|
      invariant forall j :: i <= j <= |ms| ==> starts[j] == Start(ms, j)
      invariant forall j :: i <= j < |ms| ==>
        cruises[j] == if Assigned(ms, j) then Some(PeakCruise(ms, j)) else None
    {
      i := i - 1;
      var move := queue[i];
      assert move.Lim() == ms[i];
      BackwardStep(ms, i);
      var reachableStartV2 := nextStartV2 + move.deltaV2;
      var startV2 := Min(move.maxStartV2, reachableStartV2);
      pending := pending + 1;
      var reachMcrStartV2 := nextMcrStartV2 + move.mcrDeltaV2;
      var mcrStartV2 := Min(move.maxMcrStartV2, reachMcrStartV2);
      cruises[i] := None;
      if mcrStartV2 < reachMcrStartV2 {
        if mcrStartV2 + move.mcrDeltaV2 > nextMcrStartV2 || pending > 1 {
          if update && peakCruiseV2 != 0.0 {
            flushCount := i + pending;
            update := false;
          }
          peakCruiseV2 := (mcrStartV2 + reachMcrStartV2) * 0.5;
        }
        cruises[i] := Some(Min(Min((startV2 + reachableStartV2) * 0.5, move.maxCruiseV2), peakCruiseV2));
        pending := 0;
      }
      starts[i] := startV2;
      nextStartV2 := startV2;
      nextMcrStartV2 := mcrStartV2;
    }
  }

  /** One turn of the forward pass. */
  lemma ForwardStep(ms: seq<Limits>, i: nat)
    requires Chain(ms) && i < |ms|
    ensures Cruise(ms, i) == if Assigned(ms, i) then PeakCruise(ms, i)
                             else Min(if i == 0 then 0.0 else Cruise(ms, i - 1), Start(ms, i))
    ensures Profile(ms, i) ==
      Speeds(Min(Start(ms, i), Cruise(ms, i)), Cruise(ms, i), Min(Start(ms, i + 1), Cruise(ms, i)))
    ensures Sound(ms[i])
  {}

  /** Second loop of a flush: hand each move its speeds, front to back. */
  method AssignForward(queue: seq<Move>, ghost ms: seq<Limits>, flushCount: nat,
                       starts: array<real>, cruises: array<Option<real>>, sqrt: real -> real)
    requires Holds(queue, ms) && Chain(ms) && Anchor(ms, 0) && flushCount <= |queue| && IsSqrt(sqrt)
    requires forall i, j :: 0 <= i < j < |queue| ==> queue[i] != queue[j]
    requires starts.Length == |ms| + 1 && cruises.Length == |ms|
    requires forall j :: 0 <= j <= |ms| ==> starts[j] == Start(ms, j)
    requires forall j :: 0 <= j < |ms| ==>
      cruises[j] == if Assigned(ms, j) then Some(PeakCruise(ms, j)) else None
    modifies queue
    ensures forall m :: m in queue ==> m.Lim() == old(m.Lim()) && m.nextJunctionV2 == old(m.nextJunctionV2)
    ensures forall i :: 0 <= i < flushCount ==>
      queue[i].Runs(Profile(ms, i)) && Feasible(ms[i], Profile(ms, i))
  {
    hide Mul, Sound, Feasible, Anchor, Assigned, Start, PeakCruise, Cruise, Profile, Move.Runs;
    var prevCruiseV2 := 0.0;
    for i := 0 to flushCount
      invariant Holds(queue, ms)
      invariant forall m :: m in queue ==> m.Lim() == old(m.Lim()) && m.nextJunctionV2 == old(m.nextJunctionV2)
      invariant prevCruiseV2 == if i == 0 then 0.0 else Cruise(ms, i - 1)
      invariant forall j :: 0 <= j < i ==>
        queue[j].Runs(Profile(ms, j)) && Feasible(ms[j], Profile(ms, j))
    {
      var move, startV2, nextStartV2 := queue[i], starts[i], starts[i + 1];
      var cruiseV2 := match cruises[i]
        case Some(c) => c
        case None => Min(prevCruiseV2, startV2);
      PlanFeasible(ms, i);
      ForwardStep(ms, i);
      move.SetJunction(Min(startV2, cruiseV2), cruiseV2, Min(nextStartV2, cruiseV2), sqrt);
      prevCruiseV2 := cruiseV2;
    }
  }

  // ---------- whole runs ----------

  datatype Event =
    | Add(spec: MoveSpec, cap: real)
    | LimitNext(speed: real)
    | LazyFlush
    | FullFlush

  /** A planner that never flushes early: it only plans complete sequences. */
  datatype Offline = Offline(past: seq<Limits>, moves: seq<Limits>, nextJunction: real, done: seq<Speeds>) {
    /** The limits of all moves added so far. */
    function All(): seq<Limits> { past + moves }

    /** The speeds of all of them, the last ones planned as if nothing followed. */
    function Path(): seq<Speeds> { done + Plan(moves, |moves|) }
  }

  predicate EventOk(e: Event) {
    e.Add? ==> e.spec.Valid() && e.cap >= 0.0
  }

  ghost predicate OfflineOk(o: Offline) {
    && o.nextJunction >= 0.0 && Chain(o.moves)
  }

  ghost function OfflineStep(o: Offline, e: Event): (r: Offline)
    requires EventOk(e) && OfflineOk(o)
    ensures OfflineOk(r)
  {
    match e
    case Add(spec, cap) =>
      spec.LimitedSound();
      var m := if o.moves == [] then spec.Limited()
               else Joined(o.moves[|o.moves| - 1], o.nextJunction, cap, spec.Limited());
      o.(moves := o.moves + [m], nextJunction := UNLIMITED_JUNCTION_V2)
    case LimitNext(speed) =>
      SquaredNonNegative(speed);
      if o.moves == [] then o else o.(nextJunction := Min(o.nextJunction, Squared(speed)))
    case LazyFlush => o
    case FullFlush => Offline(o.All(), [], UNLIMITED_JUNCTION_V2, o.Path())
  }

  ghost function OfflineRun(events: seq<Event>): (r: Offline)
    requires forall i :: 0 <= i < |events| ==> EventOk(events[i])
    ensures OfflineOk(r)
  {
    if events == [] then Offline([], [], UNLIMITED_JUNCTION_V2, [])
    else OfflineStep(OfflineRun(events[..|events| - 1]), events[|events| - 1])
  }

  /** The moves asked for, in order. */
  ghost function Adds(events: seq<Event>): (r: seq<Event>)
    ensures forall k :: 0 <= k < |r| ==> r[k].Add?
  {
    if events == [] then []
    else Adds(events[..|events| - 1]) + if events[|events| - 1].Add? then [events[|events| - 1]] else []
  }

  /** The limits `m` are those of the request, apart from the junction, and keep to its cap. */
  ghost predicate AskedBy(e: Event, m: Limits)
    requires e.Add?
  {
    m.(maxStart := 0.0, maxMcr := 0.0) == e.spec.Limited() && m.maxStart <= e.cap
  }

  ghost predicate AllAsked(adds: seq<Event>, ms: seq<Limits>)
    requires forall k :: 0 <= k < |adds| ==> adds[k].Add?
  {
    |adds| == |ms| && forall k :: 0 <= k < |ms| ==> AskedBy(adds[k], ms[k])
  }

  /** The offline planner plans the moves asked for. */
  lemma {:induction false} OfflineAsked(events: seq<Event>)
    requires forall i :: 0 <= i < |events| ==> EventOk(events[i])
    ensures AllAsked(Adds(events), OfflineRun(events).All())
    decreases |events|
  {
    hide Sound, Joined, Plan, Chain;
    if events != [] {
      var n := |events| - 1;
      var o, e := OfflineRun(events[..n]), events[n];
      OfflineAsked(events[..n]);
      if e.Add? {
        AddAsked(o, e);
      } else {
        assert OfflineStep(o, e).All() == o.All();
      }
    }
  }

  lemma AddAsked(o: Offline, e: Event)
    requires EventOk(e) && OfflineOk(o) && e.Add?
    ensures var all := OfflineStep(o, e).All();
            |all| == |o.All()| + 1 && all[..|o.All()|] == o.All() && AskedBy(e, all[|o.All()|])
    ensures OfflineStep(o, e).All()[|o.All()|].maxStart <= if o.moves == [] then 0.0 else o.nextJunction
  {
    hide Joined, Plan;
    e.spec.LimitedSound();
    if o.moves != [] {
      JunctionLimits(o.moves[|o.moves| - 1], o.nextJunction, e.cap, e.spec.Limited());
    }
  }

  /** Until the next move, the junction is limited by every speed given for it. */
  lemma {:induction false} PendingLimit(events: seq<Event>, e: nat)
    requires forall i :: 0 <= i < |events| ==> EventOk(events[i])
    requires e < |events| && events[e].LimitNext? && |Adds(events)| == |Adds(events[..e])|
    ensures var o := OfflineRun(events); o.moves == [] || o.nextJunction <= Squared(events[e].speed)
    decreases |events|
  {
    hide Joined, Plan, Squared;
    var n := |events| - 1;
    if e < n {
      AddsPrefix(events[..n], e);
      assert events[..n][..e] == events[..e];
      PendingLimit(events[..n], e);
    }
  }

  lemma {:induction false} AddsPrefix(events: seq<Event>, e: nat)
    requires e <= |events|
    ensures |Adds(events[..e])| <= |Adds(events)| && Adds(events)[..|Adds(events[..e])|] == Adds(events[..e])
    decreases |events|
  {
    if e == |events| {
      assert events[..e] == events;
    } else {
      assert events[..|events| - 1][..e] == events[..e];
      AddsPrefix(events[..|events| - 1], e);
    }
  }

  /** The next move starts no faster than a speed that was given for its junction. */
  lemma {:induction false} NextLimit(events: seq<Event>, e: nat)
    requires forall i :: 0 <= i < |events| ==> EventOk(events[i])
    requires e < |events| && events[e].LimitNext? && |Adds(events[..e])| < |OfflineRun(events).All()|
    ensures OfflineRun(events).All()[|Adds(events[..e])|].maxStart <= Squared(events[e].speed)
    decreases |events|
  {
    hide Joined, Plan, Squared, Sound, Chain, OfflineStep;
    var n := |events| - 1;
    var k, o := |Adds(events[..e])|, OfflineRun(events[..n]);
    OfflineAsked(events);
    OfflineAsked(events[..n]);
    AddsPrefix(events, e);
    assert events[..n][..e] == events[..e];
    if k < |o.All()| {
      NextLimit(events[..n], e);
      AllGrows(o, events[n]);
    } else {
      AddsPrefix(events[..n], e);
      PendingLimit(events[..n], e);
      AddAsked(o, events[n]);
      SquaredNonNegative(events[e].speed);
    }
  }

  lemma AllGrows(o: Offline, e: Event)
    requires EventOk(e) && OfflineOk(o)
    ensures o.All() <= OfflineStep(o, e).All()
  {
    hide Joined, Plan;
    if e.Add? { AddAsked(o, e); }
  }

  /** The queue has seen the same moves as the offline planner. */
  ghost predicate Matches(q: LookAheadQueue, o: Offline)
    reads q, q.queue
  {
    && q.Valid() && OfflineOk(o) && q.All() == o.moves && q.finished == o.done
    && (q.queue != [] ==> q.queue[|q.queue| - 1].nextJunctionV2 == o.nextJunction)
  }

  method ApplyAdd(q: LookAheadQueue, spec: MoveSpec, cap: real, ghost o: Offline)
    requires spec.Valid() && cap >= 0.0 && Matches(q, o)
    modifies q
    ensures Matches(q, OfflineStep(o, Add(spec, cap))) && q.gone == old(q.gone) && q.Planned() == old(q.Planned())
    ensures forall m :: m in q.queue ==> m in old(q.queue) || fresh(m)
  {
    hide Mul, Sound, Linked, Chain, Anchor, RestToRest, Plan, Profile, Joined;
    spec.LimitedSound();
    var move := new Move(spec);
    move.LimitSpeed(spec.limitSpeed, spec.limitAccel);
    var _ := q.AddMove(move, cap);
  }

  method ApplyLimit(q: LookAheadQueue, speed: real, ghost o: Offline)
    requires Matches(q, o)
    modifies q.queue
    ensures Matches(q, OfflineStep(o, LimitNext(speed)))
  {
    hide Mul, Sound, Linked, Chain, Anchor, RestToRest, Plan, Profile, Joined;
    if q.queue != [] {
      q.queue[|q.queue| - 1].LimitNextJunctionSpeed(speed);
    }
  }

  method ApplyFlush(q: LookAheadQueue, lazy: bool, sqrt: real -> real, ghost o: Offline)
    returns (res: seq<Move>, ghost speeds: seq<Speeds>)
    requires IsSqrt(sqrt) && Matches(q, o)
    modifies q, q.queue
    ensures Matches(q, OfflineStep(o, if lazy then LazyFlush else FullFlush))
    ensures q.Planned() == old(q.Planned()) + speeds
    ensures |res| <= |old(q.waiting)| && Ran(res, old(q.waiting)[..|res|], speeds)
    ensures (if lazy then o.past else o.All()) + q.gone == o.past + old(q.gone) + old(q.waiting)[..|res|]
    ensures forall m :: m in res ==> m in old(q.queue) && m !in q.queue
    ensures forall m :: m in q.queue ==> m in old(q.queue)
  {
    hide Mul, Sound, Linked, Chain, Anchor, RestToRest, Plan, Profile, Joined, LazyPoint, Ran, LookAheadQueue.Planned;
    res, speeds := q.Flush(lazy, sqrt);
    if !lazy { assert old(q.waiting)[..|res|] == old(q.waiting); }
  }

  /** One event; a flush releases moves that run the next speeds of the plan. */
  method Apply(q: LookAheadQueue, e: Event, sqrt: real -> real, ghost o: Offline)
    returns (res: seq<Move>, ghost speeds: seq<Speeds>)
    requires EventOk(e) && IsSqrt(sqrt) && Matches(q, o)
    modifies q, q.queue
    ensures Matches(q, OfflineStep(o, e)) && q.Planned() == old(q.Planned()) + speeds
    ensures |res| <= |old(q.waiting)| && Ran(res, old(q.waiting)[..|res|], speeds)
    ensures OfflineStep(o, e).past + q.gone == o.past + old(q.gone) + old(q.waiting)[..|res|]
    ensures forall m :: m in res ==> m in old(q.queue) && m !in q.queue
    ensures forall m :: m in q.queue ==> m in old(q.queue) || fresh(m)
  {
    hide Mul, Sound, Linked, Chain, Anchor, RestToRest, Plan, Profile, Joined, Feasible, LazyPoint, Move.Runs, Holds;
    res, speeds := [], [];
    match e {
      case Add(spec, cap) =>
        ApplyAdd(q, spec, cap, o);
      case LimitNext(speed) =>
        ApplyLimit(q, speed, o);
      case LazyFlush =>
        res, speeds := ApplyFlush(q, true, sqrt, o);
      case FullFlush =>
        res, speeds := ApplyFlush(q, false, sqrt, o);
    }
  }

  lemma RanMore(a: seq<Move>, k: seq<Limits>, s: seq<Speeds>, b: seq<Move>, l: seq<Limits>, t: seq<Speeds>)
    requires Ran(a, k, s) && Ran(b, l, t)
    ensures Ran(a + b, k + l, s + t)
  {
    hide Feasible, Trapezoid;
    var ms, ls, ss := a + b, k + l, s + t;
    forall i | 0 <= i < |ms| ensures ms[i].Lim() == ls[i] && ms[i].Runs(ss[i]) && Feasible(ls[i], ss[i]) {
      if i >= |a| { assert ms[i] == b[i - |a|] && ls[i] == l[i - |a|] && ss[i] == t[i - |a|]; }
    }
  }

  /**
    Any run of a queue, with flushes wherever they fall: the moves released so far, in order, are the
    moves added, and run exactly the speeds that the offline planner gives them, each feasible.  The
    path is continuous and starts at rest.
   */
  method Drive(events: seq<Event>, sqrt: real -> real) returns (q: LookAheadQueue, out: seq<Move>)
    requires forall i :: 0 <= i < |events| ==> EventOk(events[i])
    requires IsSqrt(sqrt)
    ensures fresh(q) && q.Valid()
    ensures var o := OfflineRun(events);
            && |out| <= |o.Path()| == |o.All()| && Ran(out, o.All()[..|out|], o.Path()[..|out|])
            && Holds(q.queue, o.All()[|out|..])
    ensures events != [] && events[|events| - 1].FullFlush? ==>
      |out| == |OfflineRun(events).All()| && RestToRest(q.Planned())
    ensures q.Planned() == OfflineRun(events).Path()[..|out|]
    ensures Continuous(q.Planned()) && (q.Planned() != [] ==> q.Planned()[0].start == 0.0)
    // Every move keeps to its request, and to each speed that was given for its junction.
    ensures |out| <= |Adds(events)|
    ensures forall k :: 0 <= k < |out| ==> out[k].Keeps(Adds(events)[k].spec, Adds(events)[k].cap)
    ensures forall e :: 0 <= e < |events| && events[e].LimitNext? && |Adds(events[..e])| < |out| ==>
      Squared(out[|Adds(events[..e])|].startV) <= Squared(events[e].speed)
  {
    hide Chain, Anchor, Profile, Plan, OfflineStep, Trapezoid, Feasible, Move.Keeps, Adds, Squared;
    q := new LookAheadQueue();
    out := [];
    NoneRan();
    for n := 0 to |events|
      invariant fresh(q) && fresh(set m | m in q.queue) && fresh(set m | m in out)
      invariant Matches(q, OfflineRun(events[..n])) && (forall m :: m in out ==> m !in q.queue)
      invariant Ran(out, OfflineRun(events[..n]).past + q.gone, q.Planned())
    {
      assert events[..n + 1][..n] == events[..n];
      var res := DriveStep(q, out, events[n], sqrt, OfflineRun(events[..n]));
      out := out + res;
    }
    assert events[..|events|] == events;
    Summary(q, out, OfflineRun(events));
    FullFlushDrains(events);
    RunKeeps(events, out);
  }

  lemma RunKeeps(events: seq<Event>, out: seq<Move>)
    requires forall i :: 0 <= i < |events| ==> EventOk(events[i])
    requires var o := OfflineRun(events);
             |out| <= |o.Path()| == |o.All()| && Ran(out, o.All()[..|out|], o.Path()[..|out|])
    ensures |out| <= |Adds(events)|
    ensures forall k :: 0 <= k < |out| ==> out[k].Keeps(Adds(events)[k].spec, Adds(events)[k].cap)
    ensures forall e :: 0 <= e < |events| && events[e].LimitNext? && |Adds(events[..e])| < |out| ==>
      Squared(out[|Adds(events[..e])|].startV) <= Squared(events[e].speed)
  {
    hide Plan, Adds, OfflineRun, AskedBy, Move.Keeps, Squared, Feasible, Move.Runs;
    OfflineAsked(events);
    var all, path := OfflineRun(events).All(), OfflineRun(events).Path();
    forall k | 0 <= k < |out|
      ensures out[k].Keeps(Adds(events)[k].spec, Adds(events)[k].cap) && Squared(out[k].startV) <= all[k].maxStart
    {
      AddIsValid(events, k);
      MoveKeeps(out[k], all[k], path[k], Adds(events)[k]);
    }
    forall e | 0 <= e < |events| && events[e].LimitNext? && |Adds(events[..e])| < |out|
      ensures Squared(out[|Adds(events[..e])|].startV) <= Squared(events[e].speed)
    {
      NextLimit(events, e);
    }
  }

  lemma {:induction false} AddIsValid(events: seq<Event>, k: nat)
    requires (forall i :: 0 <= i < |events| ==> EventOk(events[i])) && k < |Adds(events)|
    ensures EventOk(Adds(events)[k])
    decreases |events|
  {
    if k < |Adds(events[..|events| - 1])| { AddIsValid(events[..|events| - 1], k); }
  }

  lemma MoveKeeps(move: Move, m: Limits, s: Speeds, e: Event)
    requires e.Add? && EventOk(e) && AskedBy(e, m) && move.Lim() == m && move.Runs(s) && Feasible(m, s)
    ensures move.Keeps(e.spec, e.cap) && Squared(move.startV) <= m.maxStart
  {
    hide Squared, MoveSpec.PseudoAccel;
    e.spec.SpeedLimits(move.cruiseV);
    e.spec.AccelLimits();
  }

  /** One event of a run; moves that were released before are left alone. */
  method DriveStep(q: LookAheadQueue, out: seq<Move>, e: Event, sqrt: real -> real, ghost o: Offline)
    returns (res: seq<Move>)
    requires EventOk(e) && IsSqrt(sqrt) && Matches(q, o) && (forall m :: m in out ==> m !in q.queue)
    requires Ran(out, o.past + q.gone, q.Planned())
    modifies q, q.queue
    ensures Matches(q, OfflineStep(o, e)) && Ran(out + res, OfflineStep(o, e).past + q.gone, q.Planned())
    ensures forall m :: m in res ==> m in old(q.queue) && m !in q.queue
    ensures forall m :: m in q.queue ==> m in old(q.queue) || fresh(m)
  {
    hide Chain, Anchor, Profile, Plan, OfflineStep, Trapezoid, Feasible;
    ghost var gone, planned, waiting, queued := q.gone, q.Planned(), q.waiting, q.queue;
    ghost var speeds;
    label Before:
    res, speeds := Apply(q, e, sqrt, o);
    forall i | 0 <= i < |out| ensures unchanged@Before(out[i]) {
      assert out[i] in out && forall j :: 0 <= j < |queued| ==> queued[j] in queued;
    }
    assert Ran(out, o.past + gone, planned);
    RanMore(out, o.past + gone, planned, res, waiting[..|res|], speeds);
  }

  lemma FullFlushDrains(events: seq<Event>)
    requires forall i :: 0 <= i < |events| ==> EventOk(events[i])
    ensures events != [] && events[|events| - 1].FullFlush? ==> OfflineRun(events).moves == []
  {}

  lemma NoneRan()
    ensures Ran([], [], [])
  {}

  /** What a run has released, seen from the offline planner. */
  lemma Summary(q: LookAheadQueue, out: seq<Move>, o: Offline)
    requires Matches(q, o) && Ran(out, o.past + q.gone, q.Planned())
    ensures |out| <= |o.Path()| == |o.All()| && Ran(out, o.All()[..|out|], o.Path()[..|out|])
    ensures Holds(q.queue, o.All()[|out|..]) && q.Planned() == o.Path()[..|out|]
    ensures o.moves == [] ==> |out| == |o.All()| && RestToRest(q.Planned())
    ensures Continuous(q.Planned()) && (q.Planned() != [] ==> q.Planned()[0].start == 0.0)
  {
    hide Chain, Anchor, Profile, Plan, Ran, Continuous, RestToRest;
    var k := |q.gone|;
    RanLengths(out, o.past + q.gone, q.Planned());
    assert o.moves == q.gone + q.waiting;
    assert |out| == |o.past| + k == |o.done| + k;
    if q.All() != [] { AnchorZero(q.All()); }
    PlanContinuous(q.All());
    PrefixContinuous(q.finished, q.All(), k);
    SplitAt(o.past, q.gone, q.waiting);
    PlanPrefix(o.done, q.All(), k);
    assert o.moves == [] ==> q.Planned() == q.finished;
  }

  lemma RanLengths(moves: seq<Move>, limits: seq<Limits>, speeds: seq<Speeds>)
    requires Ran(moves, limits, speeds)
    ensures |moves| == |limits| == |speeds|
  {}

  lemma SplitAt(past: seq<Limits>, gone: seq<Limits>, waiting: seq<Limits>)
    ensures var all, n := past + (gone + waiting), |past| + |gone|;
            all[..n] == past + gone && all[n..] == waiting
  {}

  lemma PlanPrefix(done: seq<Speeds>, ms: seq<Limits>, k: nat)
    requires k <= |ms|
    ensures (done + Plan(ms, |ms|))[..|done| + k] == done + Plan(ms, k)
  {
    hide Profile;
    assert Plan(ms, k) == Plan(ms, |ms|)[..k];
  }

  lemma PrefixContinuous(p: seq<Speeds>, ms: seq<Limits>, k: nat)
    requires RestToRest(p) && RestToRest(Plan(ms, |ms|)) && k <= |ms|
    ensures p + Plan(ms, k) <= p + Plan(ms, |ms|)
    ensures Continuous(p + Plan(ms, k)) && (p + Plan(ms, k) != [] ==> (p + Plan(ms, k))[0].start == 0.0)
  {
    JoinRests(p, Plan(ms, |ms|));
    assert Plan(ms, k) == Plan(ms, |ms|)[..k];
  }
}
