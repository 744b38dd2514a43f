/**
  The iterative step-time solver (klippy/chelper/itersolve.c) over an arbitrary position function.

  The search is bounded by a number of guesses, because nothing in the code bounds it; every claim
  holds however many guesses are allowed.
 */
module Itersolve {

  const SEEK_TIME_RESET := 0.000100
  const TIME_TOLERANCE := 0.000000001
  const POSITION_TOLERANCE := 0.000000001
  const TURN_TOLERANCE := 0.000000010

  datatype Step = Step(forward: bool, time: real)

  /** Forward minus backward steps. */
  function Net(steps: seq<Step>): int {
    if steps == [] then 0
    else Net(steps[..|steps| - 1]) + if steps[|steps| - 1].forward then 1 else -1
  }

  /** The commanded position once the steps are taken. */
  function Reached(from: real, stepDist: real, steps: seq<Step>): real {
    from + stepDist * (Net(steps) as real)
  }

  /** The position halfway to the next step in the given direction. */
  function Target(at: real, stepDist: real, forward: bool): real {
    if forward then at + 0.5 * stepDist else at - 0.5 * stepDist
  }

  predicate Past(pos: real, target: real, forward: bool) {
    if forward then pos > target else pos < target
  }

  function Max(x: real, y: real): real { if x < y then y else x }

  function Min(x: real, y: real): real { if x > y then y else x }

  function Abs(x: real): real { if x < 0.0 then -x else x }

  /** At `t` the motion is at the target, or passes it within the time tolerance. */
  ghost predicate Crosses(cb: real -> real, t: real, target: real, forward: bool) {
    || Abs(cb(t) - target) <= POSITION_TOLERANCE
    || exists h :: t <= h <= t + TIME_TOLERANCE && Past(cb(h), target, forward)
  }

  /** Steps in order of time within a range, each taken where the motion crosses to the next step. */
  ghost predicate Faithful(cb: real -> real, from: real, stepDist: real, lo: real, hi: real, steps: seq<Step>) {
    && (forall i :: 0 <= i < |steps| ==> lo <= steps[i].time <= hi)
    && (forall i :: 0 <= i < |steps| - 1 ==> steps[i].time <= steps[i + 1].time)
    && (forall i :: 0 <= i < |steps| ==>
          Crosses(cb, steps[i].time, Target(Reached(from, stepDist, steps[..i]), stepDist, steps[i].forward),
                  steps[i].forward))
  }

  lemma FaithfulSnoc(cb: real -> real, from: real, stepDist: real, lo: real, hi: real, steps: seq<Step>, s: Step)
    requires Faithful(cb, from, stepDist, lo, hi, steps) && lo <= s.time <= hi
    requires steps != [] ==> steps[|steps| - 1].time <= s.time
    requires Crosses(cb, s.time, Target(Reached(from, stepDist, steps), stepDist, s.forward), s.forward)
    ensures Faithful(cb, from, stepDist, lo, hi, steps + [s])
  {
    hide Crosses, Target, Reached;
    var r := steps + [s];
    forall i | 0 <= i < |r|
      ensures Crosses(cb, r[i].time, Target(Reached(from, stepDist, r[..i]), stepDist, r[i].forward), r[i].forward)
    {
      assert r[..i] == if i < |steps| then steps[..i] else steps;
    }
  }

  lemma ReachedSnoc(from: real, stepDist: real, steps: seq<Step>, s: Step)
    ensures Reached(from, stepDist, steps + [s]) ==
            Reached(from, stepDist, steps) + if s.forward then stepDist else -stepDist
  {
    assert (steps + [s])[..|steps|] == steps;
    var n := Net(steps) as real;
    assert stepDist * (n + 1.0) == stepDist * n + stepDist;
    assert stepDist * (n - 1.0) == stepDist * n - stepDist;
  }

  /** The two values the code keeps of a guess. */
  datatype Guess = Guess(time: real, position: real)

  /** The secant guess; None stands for a division by zero. */
  datatype Option<T> = None | Some(value: T)

  function Secant(prev: Guess, cur: Guess, target: real): Option<real> {
    var guessDist, prevDist := cur.position - target, prev.position - target;
    if guessDist == prevDist then None
    else Some((prev.time * guessDist - cur.time * prevDist) / (guessDist - prevDist))
  }

  /** The secant guess is where the straight line through the two guesses meets the target. */
  lemma SecantMeetsTarget(prev: Guess, cur: Guess, target: real)
    requires Secant(prev, cur, target).Some?
    ensures var t := Secant(prev, cur, target).value;
            (t - prev.time) * (cur.position - prev.position) == (target - prev.position) * (cur.time - prev.time)
  {
    var t, c, p := Secant(prev, cur, target).value, cur.position - target, prev.position - target;
    assert t * (c - p) == prev.time * c - cur.time * p;
    assert (t - prev.time) * (c - p) == t * (c - p) - prev.time * (c - p);
  }

  datatype Outcome = Finished | AppendError(code: int) | OutOfGuesses

  class Kinematics {
    const stepDist: real
    var commandedPos: real

    constructor (stepDist: real, commandedPos: real)
      ensures this.stepDist == stepDist && this.commandedPos == commandedPos
    {
      this.stepDist, this.commandedPos := stepDist, commandedPos;
    }
  }

  /** The queue that receives the steps; `error` decides which appends fail. */
  class StepCompress {
    var steps: seq<Step>
    var stepDir: bool
    const error: seq<Step> -> int

    constructor (stepDir: bool, error: seq<Step> -> int)
      ensures steps == [] && this.stepDir == stepDir && this.error == error
    {
      steps, this.stepDir, this.error := [], stepDir, error;
    }

    method Append(forward: bool, time: real) returns (ret: int)
      modifies this
      ensures ret == error(old(steps))
      ensures if ret == 0 then steps == old(steps) + [Step(forward, time)] && stepDir == forward
              else steps == old(steps) && stepDir == old(stepDir)
    {
      ret := error(steps);
      if ret == 0 {
        steps, stepDir := steps + [Step(forward, time)], forward;
      }
    }
  }

  /** Choose the time of the next guess within the bounds, widening them while nothing is bracketed. */
  method PickTime(secant: Option<real>, guessTime: real, lastTime: real, lowTime: real, highTime: real, end: real,
                  haveBracket: bool, checkOscillate: bool)
    returns (stop: bool, nextTime: real, newHigh: real, newCheck: bool)
    ensures stop ==> guessTime >= end && !haveBracket
    ensures highTime <= lowTime && !haveBracket && guessTime >= end ==> stop
    ensures haveBracket || stop ==> newHigh == highTime
    ensures !stop && lastTime <= lowTime <= highTime <= end ==>
      lowTime <= nextTime <= newHigh && highTime <= newHigh <= end
    // A secant guess within the bounds is taken; otherwise the bracket is halved, or the reach doubled.
    ensures secant.Some? && lowTime < secant.value < highTime ==>
      !stop && nextTime == secant.value && newHigh == highTime
    ensures !(secant.Some? && lowTime < secant.value < highTime) && haveBracket ==>
      nextTime - lowTime == highTime - nextTime && !newCheck
    ensures !(secant.Some? && lowTime < secant.value < highTime) && !haveBracket && !stop ==>
      nextTime == highTime && (newHigh == end || newHigh - lastTime == 2.0 * (highTime - lastTime))
  {
    stop, newHigh, newCheck := false, highTime, checkOscillate;
    nextTime := if secant.Some? then secant.value else lowTime;
    if !(nextTime > lowTime && nextTime < highTime) {
      if haveBracket {
        nextTime := (lowTime + highTime) * 0.5;
        newCheck := false;
      } else if guessTime >= end {
        stop := true;
      } else {
        nextTime := highTime;
        newHigh := 2.0 * highTime - lastTime;
        if newHigh > end {
          newHigh := end;
        }
      }
    }
  }

  /** How far the search for the step after the one at `guessTime` may first reach. */
  method SeekLimit(guessTime: real, lastTime: real, isDirChange: bool, end: real) returns (highTime: real)
    ensures highTime <= end && (guessTime <= end ==> guessTime <= highTime)
    // One and a half times the last step, unless that is too short, too long after a turn, or past the end.
    ensures highTime == end || highTime - guessTime == 1.5 * (guessTime - lastTime)
            || highTime - guessTime == 0.000000001 || (isDirChange && highTime - guessTime == SEEK_TIME_RESET)
    ensures highTime < end ==> highTime - guessTime >= 0.000000001
    ensures highTime < end && !isDirChange ==> highTime - guessTime >= 1.5 * (guessTime - lastTime)
  {
    var seekTimeDelta := 1.5 * (guessTime - lastTime);
    if seekTimeDelta < 0.000000001 {
      seekTimeDelta := 0.000000001;
    }
    if isDirChange && seekTimeDelta > SEEK_TIME_RESET {
      seekTimeDelta := SEEK_TIME_RESET;
    }
    highTime := guessTime + seekTimeDelta;
    if highTime > end {
      highTime := end;
    }
  }

  /**
    The steps taken keep up with the motion at the end of a range: unless the last step falls on
    the very end, the position reached is within half a step of the motion there.
   */
  ghost predicate KeptUp(cb: real -> real, at: real, stepDist: real, hi: real, steps: seq<Step>) {
    || (steps != [] && steps[|steps| - 1].time == hi)
    || at - 0.5 * stepDist - TURN_TOLERANCE <= cb(hi) <= at + 0.5 * stepDist + TURN_TOLERANCE
  }

  /** Generate the steps of the part of a move between `absStart` and `absEnd`. */
  method GenStepsRange(k: Kinematics, sc: StepCompress, cb: real -> real, printTime: real, moveT: real,
                       absStart: real, absEnd: real, guesses: nat)
    returns (outcome: Outcome, ghost added: seq<Step>, ghost tried: seq<Guess>)
    modifies k, sc
    ensures sc.steps == old(sc.steps) + added
    ensures Faithful(cb, old(k.commandedPos), k.stepDist, Max(absStart - printTime, 0.0),
                     Min(absEnd - printTime, moveT), added)
    ensures outcome.Finished? && Max(absStart - printTime, 0.0) < Min(absEnd - printTime, moveT) ==>
      KeptUp(cb, k.commandedPos, k.stepDist, Min(absEnd - printTime, moveT), added)
    ensures Max(absStart - printTime, 0.0) >= Min(absEnd - printTime, moveT) ==> added == []
    ensures k.commandedPos == if outcome.Finished? then Reached(old(k.commandedPos), k.stepDist, added)
                              else old(k.commandedPos)
    ensures Tried(cb, Max(absStart - printTime, 0.0), Min(absEnd - printTime, moveT), tried)
    ensures outcome.OutOfGuesses? <==> |tried| == guesses && !outcome.AppendError?
    ensures outcome.AppendError? ==> outcome.code != 0 && outcome.code == sc.error(sc.steps)
    ensures outcome.AppendError? ==>
      Refused(cb, old(k.commandedPos), k.stepDist, Max(absStart - printTime, 0.0), Min(absEnd - printTime, moveT),
              added, tried)
  {
    var start, end := absStart - printTime, absEnd - printTime;
    if start < 0.0 {
      start := 0.0;
    }
    if end > moveT {
      end := moveT;
    }
    outcome, added, tried := Search(k, sc, cb, start, end, guesses);
  }

  /** The motion was looked up at each guess, and each lies within the range. */
  ghost predicate Tried(cb: real -> real, lo: real, hi: real, tried: seq<Guess>) {
    forall i :: 0 <= i < |tried| ==> lo <= tried[i].time <= hi && tried[i].position == cb(tried[i].time)
  }

  lemma TriedMore(cb: real -> real, lo: real, hi: real, tried: seq<Guess>, g: Guess)
    requires Tried(cb, lo, hi, tried) && lo <= g.time <= hi && g.position == cb(g.time)
    ensures Tried(cb, lo, hi, tried + [g])
  {}

  /** The motion crosses to one more step at the last guess. */
  ghost predicate Refused(cb: real -> real, from: real, stepDist: real, lo: real, hi: real, steps: seq<Step>,
                          tried: seq<Guess>) {
    tried != [] &&
    var time := tried[|tried| - 1].time;
    || Faithful(cb, from, stepDist, lo, hi, steps + [Step(true, time)])
    || Faithful(cb, from, stepDist, lo, hi, steps + [Step(false, time)])
  }

  lemma RefusedAt(cb: real -> real, from: real, stepDist: real, lo: real, hi: real, steps: seq<Step>,
                  tried: seq<Guess>, s: Step)
    requires Faithful(cb, from, stepDist, lo, hi, steps + [s]) && tried != [] && tried[|tried| - 1].time == s.time
    ensures Refused(cb, from, stepDist, lo, hi, steps, tried)
  {
    hide Faithful;
    assert s == Step(s.forward, tried[|tried| - 1].time);
  }

  /**
    The search ends at the end of the range, at a step that the queue refuses, or when the guesses run out; the
    step refused is one that the motion crosses to at the last guess.
   */
  method Search(k: Kinematics, sc: StepCompress, cb: real -> real, start: real, end: real, guesses: nat)
    returns (outcome: Outcome, ghost added: seq<Step>, ghost tried: seq<Guess>)
    modifies k, sc
    ensures sc.steps == old(sc.steps) + added
    ensures Faithful(cb, old(k.commandedPos), k.stepDist, start, end, added)
    ensures start >= end ==> added == []
    ensures start < end && outcome.Finished? ==> KeptUp(cb, k.commandedPos, k.stepDist, end, added)
    ensures k.commandedPos == if outcome.Finished? then Reached(old(k.commandedPos), k.stepDist, added)
                              else old(k.commandedPos)
    ensures Tried(cb, start, end, tried)
    ensures outcome.OutOfGuesses? <==> |tried| == guesses && !outcome.AppendError?
    ensures outcome.AppendError? ==> outcome.code != 0 && outcome.code == sc.error(sc.steps)
    ensures outcome.AppendError? ==> Refused(cb, old(k.commandedPos), k.stepDist, start, end, added, tried)
  {
    hide Faithful, Crosses, Secant, Reached, Aimed, Past, Abs, Tried, Refused;
    var halfStep := 0.5 * k.stepDist;
    var oldGuess := Guess(start, k.commandedPos);
    var guess := oldGuess;
    var sdir := sc.stepDir;
    var isDirChange, haveBracket, checkOscillate := false, false, false;
    var target := Target(k.commandedPos, k.stepDist, sdir);
    var lastTime, lowTime, highTime := start, start, start + SEEK_TIME_RESET;
    if highTime > end {
      highTime := end;
    }
    added, tried := [], [];
    outcome := OutOfGuesses;
    var n := 0;
    NothingYet(cb, k.commandedPos, k.stepDist, start, end, sdir);
    while n < guesses
      invariant sc.steps == old(sc.steps) + added && k.commandedPos == old(k.commandedPos)
      invariant Faithful(cb, k.commandedPos, k.stepDist, start, end, added)
      invariant Aimed(k.commandedPos, k.stepDist, added, target, sdir)
      invariant added != [] ==> added[|added| - 1].time <= lastTime
      invariant if start < end then start <= lastTime <= lowTime <= highTime <= end && start <= guess.time <= end
                else highTime <= lowTime && !haveBracket && guess.time == start && added == []
      invariant start < end && guess.time == end && !haveBracket ==> InReach(cb, end, added, target, k.stepDist, sdir)
      invariant haveBracket ==> Past(cb(highTime), target, sdir)
      invariant |tried| == n <= guesses && Tried(cb, start, end, tried)
    {
      n := n + 1;
      var stop, nextTime;
      stop, nextTime, highTime, checkOscillate :=
        PickTime(Secant(oldGuess, guess, target), guess.time, lastTime, lowTime, highTime, end,
                 haveBracket, checkOscillate);
      if stop {
        outcome := Finished;
        break;
      }
      oldGuess := guess;
      guess := Guess(nextTime, cb(nextTime));
      TriedMore(cb, start, end, tried, guess);
      tried := tried + [guess];
      var guessDist := guess.position - target;
      if Abs(guessDist) > POSITION_TOLERANCE {
        var turned;
        turned, target, oldGuess, lowTime, highTime, haveBracket, checkOscillate :=
          Narrow(guess, oldGuess, target, k.stepDist, sdir, lastTime, lowTime, highTime, haveBracket, checkOscillate,
                 cb, k.commandedPos, added);
        sdir, isDirChange := sdir != turned, isDirChange || turned;
        if !haveBracket || highTime - lowTime > TIME_TOLERANCE {
          continue;
        }
        CrossedAt(cb, guess.time, highTime, target, sdir);
      } else {
        CrossedHere(cb, guess.time, target, sdir);
      }
      ghost var step := Step(sdir, guess.time);
      StepTaken(cb, k.commandedPos, k.stepDist, start, end, added, target, step);
      var ret := sc.Append(sdir, guess.time);
      if ret != 0 {
        RefusedAt(cb, k.commandedPos, k.stepDist, start, end, added, tried, step);
        return AppendError(ret), added, tried;
      }
      assert sc.steps == old(sc.steps) + (added + [step]);
      added := added + [step];
      target := if sdir then target + halfStep + halfStep else target - halfStep - halfStep;
      highTime := SeekLimit(guess.time, lastTime, isDirChange, end);
      lastTime, lowTime := guess.time, guess.time;
      isDirChange, haveBracket, checkOscillate := false, false, false;
    }
    if outcome.Finished? {
      if start < end { InReachKeepsUp(cb, k.commandedPos, k.stepDist, end, added, target, sdir); }
      AimedFrom(k.commandedPos, k.stepDist, added, target, sdir);
      k.commandedPos := target - if sdir then halfStep else -halfStep;
    }
  }

  /**
    Narrow the search by a guess off the target: one past it bounds the time of the step from above, one a whole
    step short turns the search round, and any other bounds it from below.
   */
  method Narrow(guess: Guess, prev: Guess, target: real, stepDist: real, forward: bool,
                lastTime: real, lowTime: real, highTime: real, haveBracket: bool, checkOscillate: bool,
                ghost cb: real -> real, ghost from: real, ghost steps: seq<Step>)
    returns (turned: bool, aim: real, other: Guess, low: real, high: real, bracket: bool, check: bool)
    requires Aimed(from, stepDist, steps, target, forward) && guess.position == cb(guess.time)
    requires lastTime <= lowTime <= guess.time <= highTime
    requires haveBracket ==> Past(cb(highTime), target, forward)
    ensures Aimed(from, stepDist, steps, aim, forward != turned)
    ensures lastTime <= low <= guess.time <= high <= highTime
    ensures bracket ==> Past(cb(high), aim, forward != turned)
    ensures var ahead := if forward then guess.position - target else target - guess.position;
            && turned == (ahead <= 0.0 && ahead < -(stepDist + TURN_TOLERANCE))
            && bracket == (haveBracket || turned || ahead > 0.0)
            && (if turned then low == lastTime else low == if ahead > 0.0 then lowTime else guess.time)
            && (if turned || ahead > 0.0 then high == guess.time else high == highTime && aim == target)
            && (var swings := ahead > 0.0 && haveBracket && prev.time <= lowTime;
                check == ((checkOscillate && !turned) || swings)
                && other == if swings && checkOscillate then guess else prev)
  {
    hide Reached;
    turned, aim, other, low, high, bracket, check :=
      false, target, prev, lowTime, highTime, haveBracket, checkOscillate;
    var guessDist := guess.position - target;
    var relDist := if forward then guessDist else -guessDist;
    var halfStep := 0.5 * stepDist;
    if relDist > 0.0 {
      if haveBracket && prev.time <= lowTime {
        if checkOscillate {
          other := guess;
        }
        check := true;
      }
      high := guess.time;
      bracket := true;
    } else if relDist < -(halfStep + halfStep + TURN_TOLERANCE) {
      Turned(from, stepDist, steps, target, forward, guess.position);
      turned := true;
      aim := if forward then target - halfStep - halfStep else target + halfStep + halfStep;
      low, high := lastTime, guess.time;
      bracket, check := true, false;
    } else {
      low := guess.time;
    }
  }

  /** The motion at `hi` is neither past the target nor a step short of it, or the last step was there. */
  ghost predicate InReach(cb: real -> real, hi: real, steps: seq<Step>, target: real, stepDist: real, forward: bool) {
    || (steps != [] && steps[|steps| - 1].time == hi)
    || -(stepDist + TURN_TOLERANCE) <= (if forward then cb(hi) - target else target - cb(hi)) <= 0.0
  }

  lemma InReachKeepsUp(cb: real -> real, from: real, stepDist: real, hi: real, steps: seq<Step>,
                       target: real, forward: bool)
    requires Aimed(from, stepDist, steps, target, forward) && InReach(cb, hi, steps, target, stepDist, forward)
    ensures KeptUp(cb, Reached(from, stepDist, steps), stepDist, hi, steps)
  {
    hide Reached;
  }

  /** The target is halfway from the position reached to the next step. */
  ghost predicate Aimed(from: real, stepDist: real, steps: seq<Step>, target: real, forward: bool) {
    target == Target(Reached(from, stepDist, steps), stepDist, forward)
  }

  lemma NothingYet(cb: real -> real, from: real, stepDist: real, lo: real, hi: real, forward: bool)
    ensures Faithful(cb, from, stepDist, lo, hi, []) && Reached(from, stepDist, []) == from && Tried(cb, lo, hi, [])
    ensures Aimed(from, stepDist, [], Target(from, stepDist, forward), forward)
  {}

  /** Turning round aims at the other side of the position reached. */
  lemma Turned(from: real, stepDist: real, steps: seq<Step>, target: real, forward: bool, pos: real)
    requires Aimed(from, stepDist, steps, target, forward)
    ensures var t := if forward then target - stepDist else target + stepDist;
            && Aimed(from, stepDist, steps, t, !forward)
            && ((if forward then pos - target else target - pos) < -stepDist ==> Past(pos, t, !forward))
  {}

  /** Taking a step aims at the next one in the same direction. */
  lemma StepTaken(cb: real -> real, from: real, stepDist: real, lo: real, hi: real, steps: seq<Step>,
                  target: real, s: Step)
    requires Faithful(cb, from, stepDist, lo, hi, steps) && Aimed(from, stepDist, steps, target, s.forward)
    requires lo <= s.time <= hi && (steps != [] ==> steps[|steps| - 1].time <= s.time)
    requires Crosses(cb, s.time, target, s.forward)
    ensures Faithful(cb, from, stepDist, lo, hi, steps + [s])
    ensures Aimed(from, stepDist, steps + [s], if s.forward then target + stepDist else target - stepDist, s.forward)
  {
    hide Faithful, Crosses, Reached;
    FaithfulSnoc(cb, from, stepDist, lo, hi, steps, s);
    ReachedSnoc(from, stepDist, steps, s);
  }

  lemma AimedFrom(from: real, stepDist: real, steps: seq<Step>, target: real, forward: bool)
    requires Aimed(from, stepDist, steps, target, forward)
    ensures target - (if forward then 0.5 * stepDist else -(0.5 * stepDist)) == Reached(from, stepDist, steps)
  {}

  lemma CrossedHere(cb: real -> real, t: real, target: real, forward: bool)
    requires Abs(cb(t) - target) <= POSITION_TOLERANCE
    ensures Crosses(cb, t, target, forward)
  {}

  lemma CrossedAt(cb: real -> real, t: real, h: real, target: real, forward: bool)
    requires t <= h <= t + TIME_TOLERANCE && Past(cb(h), target, forward)
    ensures Crosses(cb, t, target, forward)
  {}
}
