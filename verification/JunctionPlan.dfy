/**
  The arithmetic of the look-ahead planner (klippy/toolhead.py), on values.

  A plan is computed over a chain of moves in squared speeds.  `Start` and `Mcr` are the two
  backward profiles, `Peak` and `Pending` the running variables of the backward pass, `Cruise`
  the forward pass, and `Profile` the speeds that a move is finally given.  The lemmas prove that
  a plan is continuous and physically feasible, and that the moves before an anchor keep their
  speeds whatever is queued later.
 */
module JunctionPlan {

  /** The speed limits of one queued move. */
  datatype Limits = Limits(
    kinematic: bool,
    moveD: real,
    accel: real,
    delta: real,
    maxCruise: real,
    mcrDelta: real,
    maxStart: real,
    maxMcr: real)

  /** The squared speeds handed to a move when it is flushed. */
  datatype Speeds = Speeds(start: real, cruise: real, end: real)

  function Min(a: real, b: real): real { if a <= b then a else b }

  /** The change of squared speed that acceleration `a` makes over distance `d`. */
  function SpanV2(d: real, a: real): real { 2.0 * Mul(d, a) }

  /** A product of two reals, named so that proofs can treat it as an unknown. */
  function Mul(x: real, y: real): real { x * y }

  /** The limits of a move taken on its own. */
  predicate Sound(m: Limits) {
    && m.moveD > 0.0 && m.accel > 0.0 && m.delta == SpanV2(m.moveD, m.accel) && m.delta > 0.0
    && m.maxCruise > 0.0 && m.mcrDelta > 0.0
    && 0.0 <= m.maxMcr <= m.maxStart <= m.maxCruise
    && (if m.kinematic then m.mcrDelta <= m.delta else m.maxStart == 0.0)
  }

  /** What calculating the junction of `m` with the move `p` before it establishes. */
  predicate Linked(p: Limits, m: Limits) {
    && m.maxStart <= p.maxCruise
    && m.maxStart <= p.maxStart + p.delta
    && m.maxMcr <= p.maxMcr + p.mcrDelta
    && (m.maxMcr == m.maxStart || m.maxMcr == p.maxMcr + p.mcrDelta)
  }

  ghost predicate Chain(ms: seq<Limits>) {
    && (forall i :: 0 <= i < |ms| ==> Sound(ms[i]))
    && (forall i :: 0 <= i < |ms| - 1 ==> Linked(ms[i], ms[i + 1]))
  }

  /** Highest squared speed at the start of move `i` from which the queue can still be stopped. */
  function Start(ms: seq<Limits>, i: nat): real
    requires i <= |ms|
    decreases |ms| - i
  {
    if i == |ms| then 0.0 else Min(ms[i].maxStart, Start(ms, i + 1) + ms[i].delta)
  }

  /** The same under the reduced "minimum cruise ratio" acceleration. */
  function Mcr(ms: seq<Limits>, i: nat): real
    requires i <= |ms|
    decreases |ms| - i
  {
    if i == |ms| then 0.0 else Min(ms[i].maxMcr, Mcr(ms, i + 1) + ms[i].mcrDelta)
  }

  /** Move `i` can accelerate, so the backward pass assigns its cruise speed. */
  predicate Assigned(ms: seq<Limits>, i: nat)
    requires i < |ms|
  {
    Mcr(ms, i) < Mcr(ms, i + 1) + ms[i].mcrDelta
  }

  /** Number of consecutive moves from `i` on that wait for a cruise speed. */
  function Pending(ms: seq<Limits>, i: nat): nat
    requires i <= |ms|
    decreases |ms| - i
  {
    if i == |ms| || Assigned(ms, i) then 0 else 1 + Pending(ms, i + 1)
  }

  /** Move `i` tops an acceleration followed by a deceleration. */
  predicate NewPeak(ms: seq<Limits>, i: nat)
    requires i < |ms|
  {
    Assigned(ms, i) && (Mcr(ms, i) + ms[i].mcrDelta > Mcr(ms, i + 1) || Pending(ms, i + 1) > 0)
  }

  function Peak(ms: seq<Limits>, i: nat): real
    requires i <= |ms|
    decreases |ms| - i
  {
    if i == |ms| then 0.0
    else if NewPeak(ms, i) then (Mcr(ms, i) + Mcr(ms, i + 1) + ms[i].mcrDelta) * 0.5
    else Peak(ms, i + 1)
  }

  /** Cruise speed assigned by the backward pass. */
  function PeakCruise(ms: seq<Limits>, i: nat): real
    requires i < |ms|
  {
    Min(Min((Start(ms, i) + Start(ms, i + 1) + ms[i].delta) * 0.5, ms[i].maxCruise), Peak(ms, i))
  }

  /** Cruise speed after the forward pass. */
  function Cruise(ms: seq<Limits>, i: nat): real
    requires i < |ms|
  {
    if Assigned(ms, i) then PeakCruise(ms, i)
    else Min(if i == 0 then 0.0 else Cruise(ms, i - 1), Start(ms, i))
  }

  function Profile(ms: seq<Limits>, i: nat): Speeds
    requires i < |ms|
  {
    var c := Cruise(ms, i);
    Speeds(Min(Start(ms, i), c), c, Min(Start(ms, i + 1), c))
  }

  /** The first `k` entries of the plan of the whole sequence. */
  function Plan(ms: seq<Limits>, k: nat): (p: seq<Speeds>)
    requires k <= |ms|
    ensures |p| == k
    ensures forall i :: 0 <= i < k ==> p[i] == Profile(ms, i)
  {
    if k == 0 then [] else Plan(ms, k - 1) + [Profile(ms, k - 1)]
  }

  /** Flush point found by a lazy flush once it has looked at moves `i` and later, if any. */
  function LazyPoint(ms: seq<Limits>, i: nat): int
    requires i <= |ms|
    decreases |ms| - i
  {
    if i == |ms| then -1
    else if LazyPoint(ms, i + 1) >= 0 then LazyPoint(ms, i + 1)
    else if NewPeak(ms, i) && Peak(ms, i + 1) != 0.0 then i + Pending(ms, i + 1) + 1
    else -1
  }

  /**
    A move whose start speed is pinned to its limit under both profiles, so that nothing queued
    later can change it.
   */
  ghost predicate Anchor(ms: seq<Limits>, k: nat) {
    && k < |ms|
    && Assigned(ms, k)
    && Mcr(ms, k) == ms[k].maxStart
    && (k > 0 && Assigned(ms, k - 1) ==> Mcr(ms, k - 1) + ms[k - 1].mcrDelta > Mcr(ms, k))
  }

  /** A move that may follow another: its limits are feasible. */
  ghost predicate Feasible(m: Limits, s: Speeds) {
    && 0.0 < s.cruise <= m.maxCruise
    && 0.0 <= s.start <= s.cruise && s.start <= m.maxStart
    && 0.0 <= s.end <= s.cruise
    && (s.cruise - s.start) + (s.cruise - s.end) <= m.delta
  }

  ghost predicate Continuous(p: seq<Speeds>) {
    forall i :: 0 <= i < |p| - 1 ==> p[i].end == p[i + 1].start
  }

  /** A path that is at rest before its first and after its last move. */
  ghost predicate RestToRest(p: seq<Speeds>) {
    && Continuous(p)
    && (p != [] ==> p[0].start == 0.0 && p[|p| - 1].end == 0.0)
  }

  // ---------- bounds ----------

  lemma {:induction false} ProfileBounds(ms: seq<Limits>, i: nat)
    requires Chain(ms) && i <= |ms|
    ensures 0.0 <= Mcr(ms, i) <= Start(ms, i)
    ensures i < |ms| ==> Start(ms, i) <= ms[i].maxStart && Mcr(ms, i) <= ms[i].maxMcr
    ensures i < |ms| ==> Start(ms, i + 1) <= Start(ms, i) + ms[i].delta
    ensures i < |ms| ==> Mcr(ms, i + 1) <= ms[i].maxMcr + ms[i].mcrDelta
    decreases |ms| - i
  {
    if i < |ms| {
      ProfileBounds(ms, i + 1);
      if i + 1 < |ms| { assert Linked(ms[i], ms[i + 1]); }
    }
  }

  /** The backward pass is optimal: no feasible continuous plan that ends at rest starts a move faster. */
  lemma {:induction false} StartIsGreatest(ms: seq<Limits>, p: seq<Speeds>, i: nat)
    requires |p| == |ms| && i < |ms| && (forall k :: 0 <= k < |ms| ==> Feasible(ms[k], p[k]))
    requires Continuous(p) && p[|p| - 1].end == 0.0
    ensures p[i].start <= Start(ms, i)
    decreases |ms| - i
  {
    assert Feasible(ms[i], p[i]);
    if i + 1 < |ms| {
      StartIsGreatest(ms, p, i + 1);
      assert p[i].end == p[i + 1].start;
    } else {
      assert Start(ms, i + 1) == 0.0;
    }
  }

  /** An assigned move peaks above the start speeds on both of its sides. */
  lemma {:induction false} PeakBounds(ms: seq<Limits>, i: nat)
    requires Chain(ms) && i < |ms| && Assigned(ms, i)
    ensures Mcr(ms, i) == ms[i].maxMcr
    ensures Peak(ms, i) >= Mcr(ms, i) && Peak(ms, i) >= Mcr(ms, i + 1) && Peak(ms, i) > 0.0
    decreases |ms| - i
  {
    ProfileBounds(ms, i);
    ProfileBounds(ms, i + 1);
    if !NewPeak(ms, i) {
      PeakBounds(ms, i + 1);
    }
  }

  lemma {:induction false} PendingRuns(ms: seq<Limits>, i: nat)
    requires i <= |ms|
    ensures i + Pending(ms, i) <= |ms|
    ensures i + Pending(ms, i) < |ms| ==> Assigned(ms, i + Pending(ms, i))
    ensures forall j :: i <= j < i + Pending(ms, i) ==> !Assigned(ms, j)
    decreases |ms| - i
  {
    if i < |ms| && !Assigned(ms, i) { PendingRuns(ms, i + 1); }
  }

  // ---------- feasibility and continuity ----------

  /** Every move cruises at least as fast as the reduced profile enters the next move. */
  lemma {:induction false} CruiseFloor(ms: seq<Limits>, i: nat)
    requires Chain(ms) && Anchor(ms, 0) && i < |ms|
    ensures Cruise(ms, i) >= Mcr(ms, i + 1) && Cruise(ms, i) > 0.0
    ensures Cruise(ms, i) <= ms[i].maxCruise
  {
    ProfileBounds(ms, i);
    ProfileBounds(ms, i + 1);
    if Assigned(ms, i) {
      PeakBounds(ms, i);
      if i + 1 < |ms| { assert Linked(ms[i], ms[i + 1]); }
    } else {
      CruiseFloor(ms, i - 1);
    }
  }

  lemma PlanFeasible(ms: seq<Limits>, i: nat)
    requires Chain(ms) && Anchor(ms, 0) && i < |ms|
    ensures Feasible(ms[i], Profile(ms, i))
  {
    ProfileBounds(ms, i);
    ProfileBounds(ms, i + 1);
    CruiseFloor(ms, i);
  }

  lemma JunctionContinuous(ms: seq<Limits>, i: nat)
    requires Chain(ms) && Anchor(ms, 0) && i + 1 < |ms|
    ensures Profile(ms, i).end == Profile(ms, i + 1).start
  {
    ProfileBounds(ms, i);
    ProfileBounds(ms, i + 1);
    ProfileBounds(ms, i + 2);
    CruiseFloor(ms, i);
    assert Linked(ms[i], ms[i + 1]);
    if Assigned(ms, i + 1) {
      PeakBounds(ms, i + 1);
      if ms[i + 1].maxMcr < ms[i + 1].maxStart {
        // The reduced profile is accelerating at full rate, so both moves share one peak.
        assert Assigned(ms, i) && !NewPeak(ms, i);
      }
    }
  }

  lemma PlanContinuous(ms: seq<Limits>)
    requires Chain(ms) && (ms != [] ==> Anchor(ms, 0) && ms[0].maxStart == 0.0)
    ensures RestToRest(Plan(ms, |ms|))
  {
    forall i | 0 <= i < |ms| - 1
      ensures Plan(ms, |ms|)[i].end == Plan(ms, |ms|)[i + 1].start
    {
      JunctionContinuous(ms, i);
    }
    if ms != [] {
      ProfileBounds(ms, 0);
      CruiseFloor(ms, 0);
      CruiseFloor(ms, |ms| - 1);
    }
  }

  // ---------- a plan does not depend on moves queued later ----------

  lemma {:induction false} AppendRaises(ms: seq<Limits>, ext: seq<Limits>, i: nat)
    requires Chain(ms + ext) && i <= |ms|
    ensures Start(ms, i) <= Start(ms + ext, i)
    ensures Mcr(ms, i) <= Mcr(ms + ext, i)
    decreases |ms| - i
  {
    if i < |ms| {
      AppendRaises(ms, ext, i + 1);
    } else {
      ProfileBounds(ms + ext, i);
    }
  }

  lemma ChainPrefix(ms: seq<Limits>, ext: seq<Limits>)
    requires Chain(ms + ext)
    ensures Chain(ms)
  {
    var all := ms + ext;
    forall i | 0 <= i < |ms| ensures Sound(ms[i]) { assert ms[i] == all[i]; }
    forall i | 0 <= i < |ms| - 1 ensures Linked(ms[i], ms[i + 1]) {
      assert ms[i] == all[i] && ms[i + 1] == all[i + 1];
    }
  }

  /** Below an anchor both backward profiles and the pending count are unaffected. */
  lemma {:induction false} BelowAnchor(ms: seq<Limits>, ext: seq<Limits>, k: nat, i: nat)
    requires Chain(ms + ext) && Anchor(ms, k) && i <= k
    ensures Start(ms, i) == Start(ms + ext, i) && Mcr(ms, i) == Mcr(ms + ext, i)
    ensures Assigned(ms, i) == Assigned(ms + ext, i)
    ensures Pending(ms, i) == Pending(ms + ext, i)
    decreases k - i
  {
    ChainPrefix(ms, ext);
    AppendRaises(ms, ext, i);
    AppendRaises(ms, ext, i + 1);
    ProfileBounds(ms, i);
    ProfileBounds(ms + ext, i);
    if i < k { BelowAnchor(ms, ext, k, i + 1); }
  }

  lemma AnchorStable(ms: seq<Limits>, ext: seq<Limits>, k: nat)
    requires Chain(ms + ext) && Anchor(ms, k)
    ensures Anchor(ms + ext, k)
  {
    BelowAnchor(ms, ext, k, k);
    if k > 0 { BelowAnchor(ms, ext, k, k - 1); }
  }

  lemma {:induction false} PeakBelowAnchor(ms: seq<Limits>, ext: seq<Limits>, k: nat, i: nat)
    requires Chain(ms + ext) && Anchor(ms, k) && i < k && Assigned(ms, i)
    ensures Peak(ms, i) == Peak(ms + ext, i)
    decreases k - i
  {
    BelowAnchor(ms, ext, k, i);
    BelowAnchor(ms, ext, k, i + 1);
    if !NewPeak(ms, i) { PeakBelowAnchor(ms, ext, k, i + 1); }
  }

  lemma {:induction false} CruiseBelowAnchor(ms: seq<Limits>, ext: seq<Limits>, k: nat, i: nat)
    requires Chain(ms + ext) && Anchor(ms, k) && i < k
    ensures Cruise(ms, i) == Cruise(ms + ext, i)
  {
    BelowAnchor(ms, ext, k, i);
    BelowAnchor(ms, ext, k, i + 1);
    if Assigned(ms, i) {
      PeakBelowAnchor(ms, ext, k, i);
    } else if i > 0 {
      CruiseBelowAnchor(ms, ext, k, i - 1);
    }
  }

  /** The speeds of all moves before an anchor are the same whatever is queued later. */
  lemma PlanStable(ms: seq<Limits>, ext: seq<Limits>, k: nat)
    requires Chain(ms + ext) && Anchor(ms, k)
    ensures Plan(ms, k) == Plan(ms + ext, k)
  {
    hide Start, Mcr, Assigned, Pending, Cruise, Plan;
    forall i | 0 <= i < k
      ensures Profile(ms, i) == Profile(ms + ext, i)
    {
      CruiseBelowAnchor(ms, ext, k, i);
      BelowAnchor(ms, ext, k, i);
      BelowAnchor(ms, ext, k, i + 1);
    }
  }

  // ---------- the lazy flush point is an anchor ----------

  lemma {:induction false} PeakPositive(ms: seq<Limits>, i: nat)
    requires Chain(ms) && i <= |ms| && Peak(ms, i) != 0.0
    ensures i + Pending(ms, i) < |ms|
    decreases |ms| - i
  {
    if !Assigned(ms, i) { PeakPositive(ms, i + 1); }
  }

  lemma {:induction false} LazyPointIsAnchor(ms: seq<Limits>, i: nat)
    requires Chain(ms) && i <= |ms| && LazyPoint(ms, i) >= 0
    ensures 0 < LazyPoint(ms, i) < |ms|
    ensures Anchor(ms, LazyPoint(ms, i))
    decreases |ms| - i
  {
    if LazyPoint(ms, i + 1) >= 0 {
      LazyPointIsAnchor(ms, i + 1);
    } else {
      hide Start, Peak;
      var f := LazyPoint(ms, i);
      PeakPositive(ms, i + 1);
      PendingRuns(ms, i + 1);
      PeakBounds(ms, f);
      PeakBounds(ms, i);
      ProfileBounds(ms, f);
      ProfileBounds(ms, f - 1);
      assert Linked(ms[f - 1], ms[f]);
      assert f - 1 > i ==> !Assigned(ms, f - 1);
    }
  }

  /** The moves between the peak `j` and the move `p` only slow down, and `p` may speed up again. */
  ghost predicate Closes(ms: seq<Limits>, j: nat, p: nat) {
    && j < p < |ms| && NewPeak(ms, j) && Assigned(ms, p)
    && (forall k :: j < k < p ==> !Assigned(ms, k))
  }

  ghost predicate AtMostOnePeak(ms: seq<Limits>, i: nat) {
    forall j, k :: i <= j < |ms| && i <= k < |ms| && NewPeak(ms, j) && NewPeak(ms, k) ==> j == k
  }

  ghost predicate SomePeak(ms: seq<Limits>, i: nat) {
    exists j :: i <= j < |ms| && NewPeak(ms, j)
  }

  lemma {:induction false} PeakIsSome(ms: seq<Limits>, i: nat)
    requires Chain(ms) && i <= |ms|
    ensures Peak(ms, i) != 0.0 <==> SomePeak(ms, i)
    decreases |ms| - i
  {
    if i < |ms| {
      if NewPeak(ms, i) {
        PeakBounds(ms, i);
      } else {
        PeakIsSome(ms, i + 1);
      }
    }
  }

  /**
    A lazy flush stops before the last peak: where the moves after the last peak but one have slowed down.
    It finds nothing exactly when there are no two peaks.
   */
  lemma {:induction false} LazyPointIsLast(ms: seq<Limits>, i: nat)
    requires Chain(ms) && i <= |ms|
    ensures LazyPoint(ms, i) < 0 <==> AtMostOnePeak(ms, i)
    ensures LazyPoint(ms, i) >= 0 ==>
      && SomePeak(ms, LazyPoint(ms, i)) && AtMostOnePeak(ms, LazyPoint(ms, i))
      && exists j :: i <= j && Closes(ms, j, LazyPoint(ms, i))
    decreases |ms| - i
  {
    hide Pending, NewPeak, Peak, Chain, Closes;
    if i < |ms| {
      LazyPointIsLast(ms, i + 1);
      PeakIsSome(ms, i + 1);
      if LazyPoint(ms, i + 1) < 0 && NewPeak(ms, i) && Peak(ms, i + 1) != 0.0 {
        LazyPointCloses(ms, i);
      }
    }
  }

  lemma LazyPointCloses(ms: seq<Limits>, i: nat)
    requires Chain(ms) && i < |ms| && NewPeak(ms, i) && SomePeak(ms, i + 1) && AtMostOnePeak(ms, i + 1)
    ensures var p := i + Pending(ms, i + 1) + 1;
            Closes(ms, i, p) && SomePeak(ms, p) && AtMostOnePeak(ms, p)
  {
    PeakIsSome(ms, i + 1);
    PeakPositive(ms, i + 1);
    PendingRuns(ms, i + 1);
    var j :| i + 1 <= j < |ms| && NewPeak(ms, j);
    assert Assigned(ms, j);
  }

  // ---------- the reduced acceleration ----------

  /** The change of squared speed that the reduced acceleration makes over the moves from `i` up to `e`. */
  ghost function ReducedSpan(ms: seq<Limits>, i: nat, e: nat): real
    requires i <= e <= |ms|
    decreases e - i
  {
    if i == e then 0.0 else ms[i].mcrDelta + ReducedSpan(ms, i + 1, e)
  }

  /** No profile of start speeds that can be stopped at the reduced acceleration is faster. */
  lemma {:induction false} McrIsGreatest(ms: seq<Limits>, v: seq<real>, i: nat)
    requires |v| == |ms| + 1 && v[|ms|] == 0.0 && i <= |ms|
    requires forall k :: 0 <= k < |ms| ==> v[k] <= ms[k].maxMcr && v[k] <= v[k + 1] + ms[k].mcrDelta
    ensures v[i] <= Mcr(ms, i)
    decreases |ms| - i
  {
    if i < |ms| { McrIsGreatest(ms, v, i + 1); }
  }

  lemma {:induction false} PendingSpan(ms: seq<Limits>, i: nat)
    requires i <= |ms|
    ensures i + Pending(ms, i) <= |ms|
    ensures Mcr(ms, i) == Mcr(ms, i + Pending(ms, i)) + ReducedSpan(ms, i, i + Pending(ms, i))
    decreases |ms| - i
  {
    if i < |ms| && !Assigned(ms, i) { PendingSpan(ms, i + 1); }
  }

  lemma {:induction false} CruiseFalls(ms: seq<Limits>, i: nat, k: nat)
    requires i <= k < |ms| && forall j :: i < j <= k ==> !Assigned(ms, j)
    ensures Cruise(ms, k) <= Cruise(ms, i)
    decreases k
  {
    if i < k { CruiseFalls(ms, i, k - 1); }
  }

  /**
    The peak of a move is the speed that the reduced acceleration reaches over the moves that share the peak,
    between the reduced speeds at both ends, and none of these moves cruises faster.
   */
  lemma {:induction false} PeakSpan(ms: seq<Limits>, i: nat) returns (e: nat)
    requires Chain(ms) && i < |ms| && Assigned(ms, i)
    ensures i < e <= |ms| && (e < |ms| ==> Assigned(ms, e))
    ensures (Peak(ms, i) - Mcr(ms, i)) + (Peak(ms, i) - Mcr(ms, e)) == ReducedSpan(ms, i, e)
    ensures forall k :: i <= k < e ==> Cruise(ms, k) <= Peak(ms, i)
    decreases |ms| - i
  {
    hide Mcr, Pending, NewPeak, Peak, Cruise, Assigned, Chain;
    if NewPeak(ms, i) {
      PeakEnds(ms, i);
      PendingSpan(ms, i + 1);
      PendingRuns(ms, i + 1);
      e := i + 1 + Pending(ms, i + 1);
      forall k | i <= k < e ensures Cruise(ms, k) <= Peak(ms, i) { CruiseFalls(ms, i, k); }
    } else {
      PeakRises(ms, i);
      e := PeakSpan(ms, i + 1);
    }
  }

  lemma PeakEnds(ms: seq<Limits>, i: nat)
    requires i < |ms| && NewPeak(ms, i)
    ensures (Peak(ms, i) - Mcr(ms, i)) + (Peak(ms, i) - Mcr(ms, i + 1)) == ms[i].mcrDelta
    ensures Cruise(ms, i) <= Peak(ms, i)
  {
    hide Start, Mcr, Pending;
  }

  /** A move without a peak of its own speeds up at the full reduced rate and shares the peak of the next. */
  lemma PeakRises(ms: seq<Limits>, i: nat)
    requires Chain(ms) && i < |ms| && Assigned(ms, i) && !NewPeak(ms, i)
    ensures i + 1 < |ms| && Assigned(ms, i + 1) && Peak(ms, i) == Peak(ms, i + 1)
    ensures Mcr(ms, i + 1) == Mcr(ms, i) + ms[i].mcrDelta && Cruise(ms, i) <= Peak(ms, i)
  {
    hide Start;
    PeakBounds(ms, i);
    ProfileBounds(ms, i);
    PendingRuns(ms, i + 1);
  }

  /** An assigned cruise speed is the greatest that the limit, the peak and the length of the move allow. */
  lemma CruiseIsGreatest(ms: seq<Limits>, i: nat, c: real)
    requires i < |ms| && Assigned(ms, i)
    ensures c <= Cruise(ms, i) <==>
      && c <= ms[i].maxCruise && c <= Peak(ms, i)
      && (c - Start(ms, i)) + (c - Start(ms, i + 1)) <= ms[i].delta
  {}

  /** The plan enters no move slower than the reduced profile does. */
  lemma PlanFloor(ms: seq<Limits>, i: nat)
    requires Chain(ms) && Anchor(ms, 0) && i < |ms|
    ensures Profile(ms, i).start >= Mcr(ms, i)
  {
    ProfileBounds(ms, i);
    if i > 0 {
      CruiseFloor(ms, i - 1);
      JunctionContinuous(ms, i - 1);
    }
    if Assigned(ms, i) { PeakBounds(ms, i); ProfileBounds(ms, i + 1); }
  }

  // ---------- planning the rest of a queue is planning the whole of it ----------

  lemma {:induction false} SuffixBackward(ms: seq<Limits>, k: nat, i: nat)
    requires k <= |ms| && i <= |ms| - k
    ensures Start(ms[k..], i) == Start(ms, k + i) && Mcr(ms[k..], i) == Mcr(ms, k + i)
    ensures Pending(ms[k..], i) == Pending(ms, k + i) && Peak(ms[k..], i) == Peak(ms, k + i)
    ensures i < |ms| - k ==> Assigned(ms[k..], i) == Assigned(ms, k + i)
    decreases |ms| - k - i
  {
    if i < |ms| - k { SuffixBackward(ms, k, i + 1); }
  }

  lemma {:induction false} SuffixCruise(ms: seq<Limits>, k: nat, i: nat)
    requires k < |ms| && Assigned(ms, k) && i < |ms| - k
    ensures Cruise(ms[k..], i) == Cruise(ms, k + i)
  {
    hide Start, Mcr, Assigned, Pending, Peak;
    SuffixBackward(ms, k, i);
    SuffixBackward(ms, k, i + 1);
    if i > 0 { SuffixCruise(ms, k, i - 1); }
  }

  lemma SuffixProfile(ms: seq<Limits>, k: nat, i: nat)
    requires k < |ms| && Assigned(ms, k) && i < |ms| - k
    ensures Profile(ms[k..], i) == Profile(ms, k + i)
  {
    SuffixCruise(ms, k, i);
    SuffixBackward(ms, k, i);
    SuffixBackward(ms, k, i + 1);
  }

  /** Planning from an anchor on, with the moves before it forgotten, continues the same plan. */
  lemma SuffixPlan(ms: seq<Limits>, k: nat, n: nat)
    requires k < |ms| && Assigned(ms, k) && n <= |ms| - k
    ensures Plan(ms, k + n) == Plan(ms, k) + Plan(ms[k..], n)
  {
    var whole, parts := Plan(ms, k + n), Plan(ms, k) + Plan(ms[k..], n);
    forall j | 0 <= j < k + n
      ensures whole[j] == parts[j]
    {
      if j >= k { SuffixProfile(ms, k, j - k); }
    }
  }

  lemma SuffixAnchor(ms: seq<Limits>, k: nat, f: nat)
    requires Chain(ms) && k < |ms| && Assigned(ms, k) && Anchor(ms[k..], f) && f > 0
    ensures Anchor(ms, k + f)
  {
    SuffixBackward(ms, k, f);
    SuffixBackward(ms, k, f - 1);
  }

  lemma SuffixFirstAnchor(ms: seq<Limits>, k: nat)
    requires Chain(ms) && Anchor(ms, k)
    ensures Chain(ms[k..]) && Anchor(ms[k..], 0)
  {
    SuffixBackward(ms, k, 0);
  }
}
