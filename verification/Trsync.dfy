/**
  Trigger synchronisation (src/trsync.c) of the motors that share one pool of moves.

  Motor numbers stand for the addresses of the motors' stop signals and -1 for NULL: `next` and
  `armed` are the fields of the signal of each motor.  `fired` is a ghost log of the callbacks.
 */
module Trsync {
  import opened Clock32
  import opened MovePool
  import opened Stepper

  /** Commands, timers and events of the trigger and its motors; `Hit` is an endstop that triggers. */
  datatype Event =
    | Start(clock: Ticks, ticks: Ticks, reason: nat)
    | Attach(motor: nat)
    | SetTimeout(clock: Ticks)
    | Trigger(reason: nat)
    | Hit(reason: nat)
    | Expire
    | ReportDue
    | Move(motor: nat, command: Command)

  class Trsync {
    const pool: Pool<StepMove>
    const motors: seq<Stepper>
    const next: array<int>
    const armed: array<bool>
    var head: int
    var canTrigger: bool
    var report: bool
    var triggerReason: nat
    var expireReason: nat
    var reportOn: bool
    var reportTime: Ticks
    var reportTicks: Ticks
    var expireOn: bool
    var expireTime: Ticks
    ghost var chain: seq<int>          // motors attached, in firing order
    ghost var place: seq<Place>        // `Held` for the motors attached
    ghost var fired: seq<(int, nat)>   // motor and reason of each callback since the last start
    ghost var still: map<int, int>     // motors stopped by a trigger and not reset since, and their net steps then

    constructor (pool: Pool<StepMove>, motors: seq<Stepper>)
      requires pool.Valid() && pool.Settled()
      requires forall i :: 0 <= i < |motors| ==> motors[i].pool == pool && motors[i].id == i && motors[i].Valid()
      ensures this.pool == pool && this.motors == motors && Valid() && !canTrigger && chain == []
    {
      this.pool, this.motors := pool, motors;
      next, armed := new int[|motors|](_ => -1), new bool[|motors|](_ => false);
      head, canTrigger, report, triggerReason, expireReason := -1, false, false, 0, 0;
      reportOn, reportTicks, expireOn := false, 0, false;
      chain, place, fired, still := [], seq(|motors|, _ => Free), [], map[];
      new;
      hide ListOk, Stepper.Valid, Pool.Valid;
      NoneAt(next[..], place, Held);
    }

    ghost predicate Wired()
    {
      && next.Length == armed.Length == |motors|
      && (forall i :: 0 <= i < |motors| ==> motors[i].pool == pool && motors[i].id == i)
      && next != pool.next && next != pool.first && next != pool.last
    }

    /** All motors are valid, and no move node is held. */
    ghost predicate Running()
      reads motors, pool, pool.next, pool.data, pool.first, pool.last
      requires Wired()
    {
      pool.Valid() && pool.Settled() && forall i :: 0 <= i < |motors| ==> motors[i].Valid()
    }

    ghost predicate Chained()
      reads `head, `chain, `place, next, armed
    {
      && next.Length == armed.Length == |motors| == |place|
      && ListOk(next[..], head, chain, place, Held)
      && (forall i :: 0 <= i < |motors| ==> (armed[i] <==> place[i] == Held))
    }

    /** Callbacks happen only after a trigger, once for each signal, with the latched reason. */
    ghost predicate Latched()
      reads `canTrigger, `fired, `triggerReason
    {
      && (canTrigger ==> fired == [])
      && (forall k :: 0 <= k < |fired| ==> fired[k].1 == triggerReason)
      && (forall k, l :: 0 <= k < l < |fired| ==> fired[k].0 != fired[l].0)
    }

    /** A motor stopped by a trigger and not reset since has not stepped since. */
    ghost predicate Still()
      reads `still, motors
    {
      forall i :: i in still ==> 0 <= i < |motors| && Stopped(i) && motors[i].net == still[i]
    }

    ghost predicate Valid()
      reads this, next, armed, motors, pool, pool.next, pool.data, pool.first, pool.last
    {
      Wired() && Running() && Chained() && Latched() && Still()
    }

    /** Stop one motor; the others do not notice. */
    method StopMotor(i: nat)
      requires Wired() && Running() && i < |motors|
      modifies motors[i], pool, pool.next, pool.first
      ensures Running() && motors[i].net == old(motors[i].net) && motors[i].count == 0 && motors[i].needReset
    {
      hide Stepper.Own, Stepper.Interrupted, Pool.Valid;
      motors[i].IsInterruptible();
      motors[i].Stop();
    }

    /** Attach a motor; a signal that is already active is a shutdown. */
    method AddSignal(i: nat) returns (ok: bool)
      requires Wired() && Chained() && Latched() && i < |motors|
      modifies next, armed, `head, `chain, `place
      ensures Chained() && Latched() && ok == (i !in old(chain))
      ensures chain == (if ok then [i] + old(chain) else old(chain))
    {
      HeldIff(i);
      if armed[i] {
        return false;
      }
      hide ListOk;
      ListCons(next[..], head, chain, place, Held, i);
      armed[i] := true;
      next[i] := head;
      head := i;
      chain, place := [i] + chain, place[i := Held];
      return true;
    }

    lemma HeldIff(i: nat)
      requires Chained() && i < |motors|
      ensures armed.Length == |motors| && (armed[i] <==> i in chain)
    {}

    /** Unlink the first signal of the list. */
    method PopSignal() returns (i: nat)
      requires Chained() && head >= 0
      modifies next, armed, `head, `chain, `place
      ensures Chained() && i < |motors| && old(chain) == [i] + chain && i !in chain
    {
      HeadOk(next[..], head, chain, place, Held);
      i := head;
      ListTail(next[..], head, chain, place, Held, Free);
      assert chain == [i] + chain[1..];
      ListFrame(next[..], next[i], chain[1..], place[i := Free], Held, i, -1, Free);
      assert place[i := Free][i := Free] == place[i := Free];
      hide ListOk;
      head := next[i];
      next[i] := -1;
      armed[i] := false;
      chain, place := chain[1..], place[i := Free];
      HeldIff(i);
    }

    /** Unlink the first signal and call it back. */
    method FireFirst()
      requires Wired() && Running() && Chained() && Still() && 0 <= head < |motors|
      modifies `head, `chain, `place, `fired, `still, next, armed, motors[head], pool, pool.next, pool.first
      ensures Running() && Chained() && Still() && old(chain) == [old(head)] + chain
      ensures still.Keys == old(still).Keys + {old(head)}
      ensures fired == old(fired) + [(old(head), triggerReason)] && Stopped(old(head))
      ensures motors[old(head)].net == old(motors[head].net)
    {
      hide ListOk, Stepper.Valid;
      ChainFacts();
      var i := PopSignal();
      StopMotor(i);
      fired, still := fired + [(i, triggerReason)], still[i := motors[i].net];
    }

    /** Trigger: the first reason is latched and every attached motor stops, once. */
    method DoTrigger(reason: nat)
      requires Valid()
      modifies `canTrigger, `report, `triggerReason, `head, `chain, `place, `fired, `still, next, armed
      modifies motors, pool, pool.next, pool.first
      ensures Valid() && !canTrigger
      ensures forall i :: 0 <= i < |motors| ==> motors[i].net == old(motors[i].net)
      ensures !old(canTrigger) ==> triggerReason == old(triggerReason) && fired == old(fired) && chain == old(chain)
      ensures forall i :: i in still <==> i in old(still) || (old(canTrigger) && i in old(chain))
      ensures old(canTrigger) ==> triggerReason == reason && chain == [] && FiredAll(old(chain))
      ensures old(canTrigger) ==> forall i :: 0 <= i < |motors| && i in old(chain) ==> Stopped(i)
      ensures forall i :: 0 <= i < |motors| && !(old(canTrigger) && i in old(chain)) ==> unchanged(motors[i])
    {
      hide Chained, Stepper.Valid;
      if !canTrigger {
        return;
      }
      triggerReason := reason;
      canTrigger, report := false, true;
      ChainFacts();
      Dispatch();
    }

    method Dispatch()
      requires Wired() && Running() && Chained() && Still() && fired == []
      modifies `head, `chain, `place, `fired, `still, next, armed, motors, pool, pool.next, pool.first
      ensures Running() && Chained() && Still() && chain == [] && FiredAll(old(chain))
      ensures forall i :: i in still <==> i in old(still) || i in old(chain)
      ensures forall i :: 0 <= i < |motors| ==> motors[i].net == old(motors[i].net)
      ensures forall i :: 0 <= i < |motors| ==> if i in old(chain) then Stopped(i) else unchanged(motors[i])
    {
      hide Chained, Running, Still, Stopped;
      ghost var all := chain;
      ChainFacts();
      while head >= 0
        invariant Running() && Chained() && Still() && head < |motors| && (head < 0 <==> chain == [])
        invariant |fired| <= |all| && chain == all[|fired|..] && (chain != [] ==> head == chain[0])
        invariant forall k :: 0 <= k < |fired| ==> fired[k] == (all[k], triggerReason)
        invariant forall i :: i in still ==> i in old(still) || i in all
        invariant (forall i :: i in old(still) ==> i in still) && (forall k :: 0 <= k < |fired| ==> all[k] in still)
        invariant forall i :: 0 <= i < |motors| ==> motors[i].net == old(motors[i].net)
        invariant forall i :: 0 <= i < |motors| && i !in all ==> unchanged(motors[i])
        decreases |chain|
      {
        FireFirst();
        ChainFacts();
      }
      assert |fired| == |all|;
      forall i | i in all ensures i in still { var k :| 0 <= k < |all| && all[k] == i; }
      StillStopped();
    }

    lemma StillStopped()
      requires Still()
      ensures forall i :: i in still ==> 0 <= i < |motors| && Stopped(i)
    {}

    /** Each of `motors` was called back, in this order, with the latched reason. */
    ghost predicate FiredAll(order: seq<int>)
      reads this
    {
      |fired| == |order| && forall k :: 0 <= k < |order| ==> fired[k] == (order[k], triggerReason)
    }

    ghost predicate Stopped(i: nat)
      reads motors
      requires i < |motors|
    {
      motors[i].count == 0 && motors[i].needReset
    }

    lemma ChainFacts()
      requires Chained()
      ensures armed.Length == |motors| && forall k :: 0 <= k < |chain| ==> 0 <= chain[k] < |motors|
      ensures forall k, l :: 0 <= k < l < |chain| ==> chain[k] != chain[l]
      ensures head < |motors| && (head < 0 <==> chain == []) && (chain != [] ==> head == chain[0])
    {}

    /** Disable the trigger and detach all motors. */
    method Clear()
      requires Wired() && Running() && Chained() && Still()
      modifies this, next, armed
      ensures still == old(still)
      ensures Valid() && chain == [] && fired == [] && !canTrigger && !report && !reportOn && !expireOn
      ensures triggerReason == 0 && forall i :: 0 <= i < armed.Length ==> !armed[i]
    {
      hide Chained, Running, Still, Latched;
      DetachAll();
      assert Running() && Still();
      Disarm();
    }

    method Disarm()
      modifies `canTrigger, `report, `reportOn, `expireOn, `triggerReason, `expireReason, `fired
      ensures Latched() && fired == [] && !canTrigger && !report && !reportOn && !expireOn && triggerReason == 0
    {
      reportOn, expireOn := false, false;
      canTrigger, report, triggerReason, expireReason, fired := false, false, 0, 0, [];
    }

    method DetachAll()
      requires Chained()
      modifies `head, `chain, `place, next, armed
      ensures Chained() && chain == [] && forall i :: 0 <= i < armed.Length ==> !armed[i]
    {
      hide Chained;
      ChainFacts();
      while head >= 0
        invariant Chained() && (head < 0 <==> chain == [])
        decreases |chain|
      {
        var _ := PopSignal();
        ChainFacts();
      }
      forall i | 0 <= i < armed.Length ensures !armed[i] { HeldIff(i); }
    }

    method StartTrigger(clock: Ticks, ticks: Ticks, reason: nat)
      requires Valid()
      modifies this, next, armed
      ensures Valid() && canTrigger && chain == [] && fired == [] && expireReason == reason && !expireOn
      ensures reportOn == (ticks != 0) && reportTime == clock && reportTicks == ticks && still == old(still)
    {
      hide ListOk, Stepper.Valid;
      Clear();
      canTrigger := true;
      reportTime, reportTicks := clock, ticks;
      if reportTicks != 0 {
        reportOn := true;
      }
      expireReason := reason;
    }

    /** A timeout counts only while the trigger is armed. */
    method SetExpire(clock: Ticks)
      requires Valid()
      modifies `expireTime, `expireOn
      ensures Valid() && expireOn == (canTrigger || old(expireOn))
      ensures expireTime == (if canTrigger then clock else old(expireTime))
    {
      hide ListOk, Stepper.Valid;
      if canTrigger {
        expireTime, expireOn := clock, true;
      }
    }

    /** The host's trigger command answers with the reason that came first. */
    method TriggerCommand(reason: nat) returns (answer: nat)
      requires Valid()
      modifies this, next, armed, motors, pool, pool.next, pool.first
      ensures Valid() && !canTrigger && !report && !reportOn && !expireOn
      ensures answer == triggerReason == (if old(canTrigger) then reason else old(triggerReason))
      ensures if old(canTrigger) then FiredAll(old(chain)) && chain == [] else fired == old(fired)
      ensures forall i :: i in still <==> i in old(still) || (old(canTrigger) && i in old(chain))
      ensures forall i :: 0 <= i < |motors| ==> motors[i].net == old(motors[i].net)
      ensures old(canTrigger) ==> forall i :: 0 <= i < |motors| && i in old(chain) ==> Stopped(i)
      ensures forall i :: 0 <= i < |motors| && !(old(canTrigger) && i in old(chain)) ==> unchanged(motors[i])
    {
      hide ListOk, Stepper.Valid;
      DoTrigger(reason);
      reportOn, expireOn, canTrigger, report := false, false, false, false;
      answer := triggerReason;
    }

    /** The timeout triggers with the reason given at the start. */
    method ExpireEvent()
      requires Valid() && expireOn
      modifies this, next, armed, motors, pool, pool.next, pool.first
      ensures Valid() && !canTrigger && !expireOn
      ensures triggerReason == (if old(canTrigger) then old(expireReason) else old(triggerReason))
      ensures if old(canTrigger) then FiredAll(old(chain)) && chain == [] else fired == old(fired)
      ensures forall i :: i in still <==> i in old(still) || (old(canTrigger) && i in old(chain))
      ensures forall i :: 0 <= i < |motors| ==> motors[i].net == old(motors[i].net)
      ensures old(canTrigger) ==> forall i :: 0 <= i < |motors| && i in old(chain) ==> Stopped(i)
      ensures forall i :: 0 <= i < |motors| && !(old(canTrigger) && i in old(chain)) ==> unchanged(motors[i])
    {
      hide ListOk, Stepper.Valid;
      DoTrigger(expireReason);
      expireOn := false;
    }

    method ReportEvent()
      requires Valid() && reportOn
      modifies `report, `reportTime
      ensures Valid() && report && reportTime == Wrap(old(reportTime) + reportTicks)
    {
      hide ListOk, Stepper.Valid;
      report := true;
      reportTime := Wrap(reportTime + reportTicks);
    }

    /** A command or event of one motor; a reset of its clock lets it move again. */
    method MoveMotor(i: nat, c: Command) returns (ok: bool)
      requires Valid() && i < |motors|
      modifies `still, motors[i], pool, pool.next, pool.data, pool.first, pool.last
      ensures ok == !old(motors[i].ShutsDown(c))
      ensures ok ==> Valid() && still == (if c.Reset? then old(still) - {i} else old(still))
      ensures old(motors[i].needReset) && !c.Reset? ==> motors[i].net == old(motors[i].net)
      ensures old(motors[i].needReset) && !c.Reset? && ok ==> motors[i].needReset && pool.place == old(pool.place)
    {
      hide Stepper.Own, Stepper.Interrupted, Stepper.ShutsDown, Stepper.Shifted, Pool.Valid, ListOk;
      var r := motors[i].Obey(c);
      ok := !r.Shutdown?;
      if ok {
        motors[i].IsInterruptible();
      }
      if c.Reset? {
        still := still - {i};
      }
    }

    // ---------- whole runs ----------

    /** The event triggers: the end stop, the host's command, or the timeout if it is set. */
    ghost predicate Fires(e: Event)
      reads `canTrigger, `expireOn
    {
      canTrigger && (e.Hit? || e.Trigger? || (e.Expire? && expireOn))
    }

    ghost function ReasonOf(e: Event): nat
      reads `expireReason
    {
      if e.Hit? || e.Trigger? then e.reason else expireReason
    }

    /** When an event shuts the machine down. */
    ghost predicate ShutsDown(e: Event)
      requires e.Attach? || e.Move? ==> e.motor < |motors|
      reads `chain, motors, pool
      requires Wired()
    {
      (e.Attach? && e.motor in chain) || (e.Move? && motors[e.motor].ShutsDown(e.command))
    }

    method Obey(e: Event) returns (ok: bool)
      requires Valid() && (e.Attach? || e.Move? ==> e.motor < |motors|)
      modifies this, next, armed, motors, pool, pool.next, pool.data, pool.first, pool.last
      ensures ok == !old(ShutsDown(e)) && (ok ==> Valid())
      ensures !e.Start? && !old(canTrigger) ==>
        !canTrigger && triggerReason == old(triggerReason) && fired == old(fired)
      // A trigger, whatever sets it off, stops every attached motor.
      ensures old(Fires(e)) ==> ok && !canTrigger && triggerReason == old(ReasonOf(e)) && FiredAll(old(chain))
      ensures old(Fires(e)) ==> forall i :: 0 <= i < |motors| && i in old(chain) ==>
        Stopped(i) && motors[i].net == old(motors[i].net)
      ensures ok ==> forall i :: i in still <==>
        (i in old(still) && !Resets(e, i)) || (old(Fires(e)) && i in old(chain))
      ensures forall i :: 0 <= i < |motors| && old(motors[i].needReset) && !Resets(e, i) ==>
        motors[i].net == old(motors[i].net) && (ok ==> motors[i].needReset)
    {
      hide Running, Chained, Latched, Still, Wrap, Stepper.ShutsDown;
      ok := true;
      match e {
        case Start(clock, ticks, reason) => StartTrigger(clock, ticks, reason);
        case Attach(i) => ok := AttachMotor(i);
        case SetTimeout(clock) => SetExpire(clock);
        case Trigger(reason) => var _ := TriggerCommand(reason);
        case Hit(reason) => DoTrigger(reason);
        case Expire => if expireOn { ExpireEvent(); }
        case ReportDue => if reportOn { ReportEvent(); }
        case Move(i, c) => ok := MoveMotor(i, c);
      }
    }

    method AttachMotor(i: nat) returns (ok: bool)
      requires Valid() && i < |motors|
      modifies next, armed, `head, `chain, `place
      ensures Valid() && ok == (i !in old(chain))
      ensures chain == (if ok then [i] + old(chain) else old(chain))
    {
      hide ListOk, Stepper.Valid;
      ok := AddSignal(i);
    }

    static predicate Resets(e: Event, i: int) { e.Move? && e.motor == i && e.command.Reset? }

    /** The run does not reset the clock of motor `i`. */
    static predicate NoReset(run: seq<Event>, i: int) {
      forall k :: 0 <= k < |run| ==> !Resets(run[k], i)
    }

    static lemma NoResetPrefix(run: seq<Event>, i: int, n: nat)
      requires n < |run| && NoReset(run[..n + 1], i)
      ensures NoReset(run[..n], i) && !Resets(run[n], i)
    {
      assert run[..n + 1][n] == run[n];
      forall k | 0 <= k < n ensures !Resets(run[..n][k], i) { assert run[..n + 1][k] == run[k]; }
    }

    /** Any run of events, up to a shutdown. */
    method Drive(run: seq<Event>) returns (ok: bool)
      requires Valid() && forall k :: 0 <= k < |run| && (run[k].Attach? || run[k].Move?) ==> run[k].motor < |motors|
      modifies this, next, armed, motors, pool, pool.next, pool.data, pool.first, pool.last
      ensures ok ==> Valid()
      // Once triggered, the reason and the callbacks are settled until the next start.
      ensures !old(canTrigger) && (forall k :: 0 <= k < |run| ==> !run[k].Start?) ==>
        triggerReason == old(triggerReason) && fired == old(fired)
      // A motor stopped by a trigger, before or in the run, is where that trigger found it until it is reset.
      ensures ok ==> pool.Settled() && forall i :: i in still ==>
        0 <= i < |motors| && Stopped(i) && motors[i].net == still[i]
      ensures ok ==> forall i :: i in old(still) && NoReset(run, i) ==> i in still && still[i] == old(still)[i]
      // A stopped motor does not step before its clock is reset.
      ensures forall i :: 0 <= i < |motors| && old(motors[i].needReset) && NoReset(run, i) ==>
        motors[i].net == old(motors[i].net)
    {
      hide Running, Chained, Latched, Still, Wired, ShutsDown, Fires, FiredAll;
      StillFacts();
      for n := 0 to |run|
        invariant Valid()
        invariant forall i :: i in old(still) && NoReset(run[..n], i) ==> i in still && still[i] == old(still)[i]
        invariant !old(canTrigger) && (forall k :: 0 <= k < n ==> !run[k].Start?) ==>
          !canTrigger && triggerReason == old(triggerReason) && fired == old(fired)
        invariant forall i :: 0 <= i < |motors| && old(motors[i].needReset) && NoReset(run[..n], i) ==>
          motors[i].net == old(motors[i].net) && motors[i].needReset
      {
        forall i | NoReset(run[..n + 1], i) ensures NoReset(run[..n], i) && !Resets(run[n], i) {
          NoResetPrefix(run, i, n);
        }
        StillFacts();
        ok := Obey(run[n]);
        if !ok {
          return;
        }
        StillFacts();
      }
      assert run[..|run|] == run;
      StillFacts();
      ok := true;
    }

    lemma StillFacts()
      requires Valid()
      ensures pool.Settled()
      ensures forall i :: i in still ==> 0 <= i < |motors| && Stopped(i) && motors[i].net == still[i]
    {}

    /** Homing: from any trigger on, whatever happens, the motors attached to it do not step until they are reset. */
    method Home(e: Event, run: seq<Event>) returns (ok: bool)
      requires Valid() && Fires(e)
      requires forall k :: 0 <= k < |run| && (run[k].Attach? || run[k].Move?) ==> run[k].motor < |motors|
      modifies this, next, armed, motors, pool, pool.next, pool.data, pool.first, pool.last
      ensures ok ==> Valid()
      ensures (forall k :: 0 <= k < |run| ==> !run[k].Start?) ==>
        triggerReason == old(ReasonOf(e)) && FiredAll(old(chain))
      ensures forall i :: 0 <= i < |motors| && i in old(chain) && NoReset(run, i) ==>
        motors[i].net == old(motors[i].net)
    {
      hide Running, Chained, Latched, Still, Wired;
      var _ := Obey(e);
      ok := Drive(run);
    }

    // ---------- shutdown ----------

    /**
      The shutdown handlers, from any state a command or an event was interrupted in: every motor is
      at rest where its pulses brought it, and every move node is free.
     */
    method ShutdownAll(order: seq<Handler>)
      requires Wired() && Chained() && pool.Shaped() && |motors| <= |pool.queues|
      requires forall i :: 0 <= i < |motors| ==> motors[i].Interrupted()
      requires ResetAll in order && forall k :: 0 <= k < |pool.queues| ==> MovePool.Clear(k) in order
      requires forall i :: 0 <= i < |order| && order[i].Clear? ==> order[i].queue < |pool.queues|
      modifies this, next, armed, motors, pool, pool.next, pool.first
      ensures Valid() && chain == [] && !canTrigger
      ensures forall i :: 0 <= i < |motors| ==> Stopped(i) && motors[i].net == old(motors[i].net)
      ensures forall n :: 0 <= n < |pool.place| ==> pool.place[n] == Free
    {
      hide Chained, Running, Pool.Valid, Stepper.Own, Stepper.Interrupted, ListOk;
      pool.Shutdown(order);
      HaltAll();
      still := map[];
      Clear();
    }

    /** Halt every motor once its queue is cleared. */
    method HaltAll()
      requires Wired() && pool.Valid() && pool.Settled() && |motors| <= |pool.queues|
      requires forall k :: 0 <= k < |pool.queues| ==> pool.contents[k] == []
      requires forall i :: 0 <= i < |motors| ==> motors[i].Interrupted()
      modifies motors
      ensures Running()
      ensures forall i :: 0 <= i < |motors| ==> Stopped(i) && motors[i].net == old(motors[i].net)
    {
      hide Pool.Valid, Stepper.Own, Stepper.Interrupted;
      for i := 0 to |motors|
        invariant forall j :: 0 <= j < i ==>
          motors[j].Valid() && Stopped(j) && motors[j].net == old(motors[j].net)
        invariant forall j :: i <= j < |motors| ==> unchanged(motors[j])
      {
        motors[i].Halt();
      }
    }
  }
}
