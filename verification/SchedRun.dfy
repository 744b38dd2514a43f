/**
  Whole runs of the timer list: commands set and cancel timers, time passes, and the callbacks of the
  timers that come due set and cancel further ones.

  A history records what happened to the timers; `Due` reads off it which timers are still to run.
  The list is shown to run every timer at its time and in order, and to miss none.
 */
module SchedRun {
  import opened Clock32
  import opened Sched

  // ---------- histories, on values ----------

  /** What commands and callbacks do: set a timer some ticks ahead, whether it is scheduled or not, or cancel it. */
  datatype Change = Set(timer: Timer, delay: int) | Cancel(timer: Timer)

  /** What a callback does: changes to other timers, and then it is done or runs again after `again` ticks. */
  datatype Callback = Callback(changes: seq<Change>, done: bool, again: int)

  /** A run: changes made by commands, and time that passes. */
  datatype Op = Do(change: Change) | Pass(ticks: int)

  /** What happened to a timer. */
  datatype Event = Asked(timer: Timer, time: int) | Cancelled(timer: Timer) | Ran(timer: Timer, time: int)

  /** The timers that are still to run after a history, and their times. */
  ghost function Due(start: map<Timer, int>, hist: seq<Event>): map<Timer, int> {
    if hist == [] then start
    else
      var before := Due(start, hist[..|hist| - 1]);
      match hist[|hist| - 1]
      case Asked(t, time) => before[t := time]
      case Cancelled(t) => before - {t}
      case Ran(t, _) => before - {t}
  }

  lemma {:induction false} DueConcat(start: map<Timer, int>, a: seq<Event>, b: seq<Event>)
    ensures Due(start, a + b) == Due(Due(start, a), b)
    decreases |b|
  {
    if b == [] {
      assert a + b == a;
    } else {
      assert (a + b)[..|a + b| - 1] == a + b[..|b| - 1];
      DueConcat(start, a, b[..|b| - 1]);
    }
  }

  lemma DueNone(start: map<Timer, int>)
    ensures Due(start, []) == start
  {}

  lemma DueOne(start: map<Timer, int>, e: Event)
    ensures Due(start, [e]) == if e.Asked? then start[e.timer := e.time] else start - {e.timer}
  {
    assert [e][..0] == [];
  }

  ghost predicate EarliestIn(agenda: map<Timer, int>, t: Timer, time: int) {
    t in agenda && agenda[t] == time && forall x :: x in agenda ==> time <= agenda[x]
  }

  /** Every timer ran at the time it was due, when no other was due before it. */
  ghost predicate Sound(start: map<Timer, int>, hist: seq<Event>) {
    forall i :: 0 <= i < |hist| && hist[i].Ran? ==> EarliestIn(Due(start, hist[..i]), hist[i].timer, hist[i].time)
  }

  /** Timers ran in order of time, from `low` to `high`. */
  ghost predicate Ascending(hist: seq<Event>, low: int, high: int) {
    && (forall i :: 0 <= i < |hist| && hist[i].Ran? ==> low <= hist[i].time <= high)
    && (forall i, j :: 0 <= i < j < |hist| && hist[i].Ran? && hist[j].Ran? ==> hist[i].time <= hist[j].time)
  }

  /** A history from the timers `start` to the timers `end`, with all runs between the times `low` and `high`. */
  ghost predicate Kept(start: map<Timer, int>, hist: seq<Event>, end: map<Timer, int>, low: int, high: int) {
    end == Due(start, hist) && Sound(start, hist) && Ascending(hist, low, high) && low <= high
  }

  lemma KeptConcat(start: map<Timer, int>, a: seq<Event>, mid: map<Timer, int>, b: seq<Event>, end: map<Timer, int>,
                   low: int, m: int, n: int, high: int)
    requires Kept(start, a, mid, low, m) && Kept(mid, b, end, n, high) && m <= n
    ensures Kept(start, a + b, end, low, high)
  {
    DueConcat(start, a, b);
    SoundConcat(start, a, b);
    hide Due, Sound;
  }

  lemma SoundConcat(start: map<Timer, int>, a: seq<Event>, b: seq<Event>)
    requires Sound(start, a) && Sound(Due(start, a), b)
    ensures Sound(start, a + b)
  {
    hide Due, EarliestIn;
    var r := a + b;
    forall i | 0 <= i < |r| && r[i].Ran? ensures EarliestIn(Due(start, r[..i]), r[i].timer, r[i].time) {
      if i < |a| {
        assert r[..i] == a[..i];
      } else {
        assert r[..i] == a + b[..i - |a|];
        DueConcat(start, a, b[..i - |a|]);
      }
    }
  }

  lemma KeptNothing(start: map<Timer, int>, now: int)
    ensures Kept(start, [], start, now, now)
  {}

  /** A part of a history in which no timer runs. */
  lemma KeptQuiet(start: map<Timer, int>, hist: seq<Event>, now: int)
    requires forall i :: 0 <= i < |hist| ==> !hist[i].Ran?
    ensures Kept(start, hist, Due(start, hist), now, now)
  {}

  /** The earliest timer runs, and its callback makes further changes. */
  lemma KeptRan(start: map<Timer, int>, t: Timer, time: int, more: seq<Event>)
    requires EarliestIn(start, t, time) && forall i :: 0 <= i < |more| ==> !more[i].Ran?
    ensures Kept(start, [Ran(t, time)] + more, Due(start, [Ran(t, time)] + more), time, time)
  {
    var h := [Ran(t, time)];
    assert h[..0] == [];
    KeptQuiet(Due(start, h), more, time);
    KeptConcat(start, h, Due(start, h), more, Due(Due(start, h), more), time, time, time, time);
    DueConcat(start, h, more);
  }

  // ---------- what a history promises ----------

  /** The next thing that happened to `t` after the event `i` is the event `j`. */
  ghost predicate Next(hist: seq<Event>, t: Timer, i: int, j: int) {
    -1 <= i < j < |hist| && hist[j].timer == t && forall k :: i < k < j ==> hist[k].timer != t
  }

  /** After the event `i` the timer ran at `time`, or was set again or cancelled before it could. */
  ghost predicate Answered(hist: seq<Event>, t: Timer, time: int, i: int) {
    exists j :: Next(hist, t, i, j) && (hist[j].Ran? ==> hist[j].time == time)
  }

  lemma {:induction false} DueStays(start: map<Timer, int>, hist: seq<Event>, t: Timer, i: int, n: nat)
    requires -1 <= i < n <= |hist| && forall k :: i < k < n ==> hist[k].timer != t
    ensures t in Due(start, hist[..n]) <==> t in Due(start, hist[..i + 1])
    ensures t in Due(start, hist[..n]) ==> Due(start, hist[..n])[t] == Due(start, hist[..i + 1])[t]
    decreases n
  {
    if i + 1 < n {
      assert hist[..n][..n - 1] == hist[..n - 1];
      DueStays(start, hist, t, i, n - 1);
    }
  }

  /** Once the clock has passed the time of a timer, the timer has run at that time, unless it was changed before. */
  lemma AskedIsAnswered(start: map<Timer, int>, hist: seq<Event>, t: Timer, i: int, now: int)
    requires Sound(start, hist) && -1 <= i < |hist|
    requires t in Due(start, hist[..i + 1]) && Due(start, hist[..i + 1])[t] < now
    requires forall x :: x in Due(start, hist) ==> now <= Due(start, hist)[x]
    ensures Answered(hist, t, Due(start, hist[..i + 1])[t], i)
  {
    assert hist[..|hist|] == hist;
    if forall k :: i < k < |hist| ==> hist[k].timer != t {
      DueStays(start, hist, t, i, |hist|);
      assert false;
    } else {
      var j := FirstOf(hist, t, i);
      DueStays(start, hist, t, i, j);
      assert Next(hist, t, i, j);
    }
  }

  lemma FirstOf(hist: seq<Event>, t: Timer, i: int) returns (j: nat)
    requires -1 <= i && exists k :: i < k < |hist| && hist[k].timer == t
    ensures Next(hist, t, i, j)
  {
    j := i + 1;
    while hist[j].timer != t
      invariant i < j < |hist| && (forall k :: i < k < j ==> hist[k].timer != t)
      invariant exists k :: j <= k < |hist| && hist[k].timer == t
      decreases |hist| - j
    {
      j := j + 1;
    }
  }

  /** The last thing that happened to `t` before the event `j` set it to `time`, or it was so from the start. */
  ghost predicate Source(start: map<Timer, int>, hist: seq<Event>, t: Timer, time: int, j: nat)
    requires j <= |hist|
  {
    || (t in start && start[t] == time && forall k :: 0 <= k < j ==> hist[k].timer != t)
    || (exists i :: 0 <= i < j && hist[i] == Asked(t, time) && forall k :: i < k < j ==> hist[k].timer != t)
  }

  lemma {:induction false} DueHasSource(start: map<Timer, int>, hist: seq<Event>, t: Timer, j: nat)
    requires j <= |hist| && t in Due(start, hist[..j])
    ensures Source(start, hist, t, Due(start, hist[..j])[t], j)
    decreases j
  {
    if j > 0 {
      assert hist[..j][..j - 1] == hist[..j - 1];
      if hist[j - 1].timer == t {
        assert hist[j - 1] == Asked(t, Due(start, hist[..j])[t]);
      } else {
        DueHasSource(start, hist, t, j - 1);
      }
    }
  }

  /** No timer runs at a time nobody asked for. */
  lemma RanWasAsked(start: map<Timer, int>, hist: seq<Event>, j: nat)
    requires Sound(start, hist) && j < |hist| && hist[j].Ran?
    ensures Source(start, hist, hist[j].timer, hist[j].time, j)
  {
    DueHasSource(start, hist, hist[j].timer, j);
  }

  // ---------- what callbacks may do ----------

  ghost function EventOf(c: Change, now: int): Event {
    match c
    case Set(t, delay) => Asked(t, now + delay)
    case Cancel(t) => Cancelled(t)
  }

  ghost function Events(cs: seq<Change>, now: int): (r: seq<Event>)
    ensures forall i :: 0 <= i < |r| ==> !r[i].Ran?
  {
    if cs == [] then [] else Events(cs[..|cs| - 1], now) + [EventOf(cs[|cs| - 1], now)]
  }

  /** A callback of `t` changes other timers of the given ones, and sets none to the time at which it runs. */
  predicate Fair(c: Callback, t: Timer, timers: set<Timer>) {
    && (forall i :: 0 <= i < |c.changes| ==> MayChange(c.changes[i], timers - {t}, 1))
    && (!c.done ==> 0 < c.again < TWO31)
  }

  predicate MayChange(c: Change, timers: set<Timer>, least: int) {
    c.timer in timers && (c.Set? ==> least <= c.delay < TWO31)
  }

  ghost predicate Behaved(behave: (Timer, int) -> Callback, timers: set<Timer>) {
    forall t: Timer, time: int :: t in timers ==> Fair(behave(t, time), t, timers)
  }

  /** The calls that make a change at time `now`. */
  function ActionsOf(c: Change, now: int): seq<Action> {
    match c
    case Set(t, delay) => [Del(t), Add(t, now + delay)]
    case Cancel(t) => [Del(t)]
  }

  function Actions(cs: seq<Change>, now: int): seq<Action> {
    if cs == [] then [] else Actions(cs[..|cs| - 1], now) + ActionsOf(cs[|cs| - 1], now)
  }

  /** All timers are due in the half range after `now`. */
  ghost predicate Coming(agenda: map<Timer, int>, now: int) {
    forall x :: x in agenda ==> now <= agenda[x] < now + TWO31
  }

  lemma OneMore(agenda: map<Timer, int>, acts: seq<Action>, a: Action, head: Timer, now: int)
    requires MayDoAll(agenda, acts, head, now) && MayDo(AfterAll(agenda, acts), a, head, now)
    ensures MayDoAll(agenda, acts + [a], head, now)
    ensures AfterAll(agenda, acts + [a]) == AfterOne(AfterAll(agenda, acts), a)
  {
    assert (acts + [a])[..|acts|] == acts;
  }

  lemma ChangeWorks(agenda: map<Timer, int>, acts: seq<Action>, c: Change, head: Timer, now: int)
    requires MayDoAll(agenda, acts, head, now) && Coming(AfterAll(agenda, acts), now)
    requires c.timer != head && (c.Set? ==> 0 <= c.delay < TWO31)
    ensures MayDoAll(agenda, acts + ActionsOf(c, now), head, now)
    ensures AfterAll(agenda, acts + ActionsOf(c, now)) == Due(AfterAll(agenda, acts), [EventOf(c, now)])
    ensures Coming(AfterAll(agenda, acts + ActionsOf(c, now)), now)
  {
    hide MayDoAll, AfterAll, Due;
    var m, del := AfterAll(agenda, acts), Del(c.timer);
    DueOne(m, EventOf(c, now));
    OneMore(agenda, acts, del, head, now);
    if c.Set? {
      var add := Add(c.timer, now + c.delay);
      OneMore(agenda, acts + [del], add, head, now);
      assert acts + [del, add] == acts + [del] + [add];
      ResetEntry(m, c.timer, now + c.delay);
    }
  }

  /** The calls may be made, and do to the timers what the changes say. */
  lemma {:induction false} ActionsWork(agenda: map<Timer, int>, cs: seq<Change>, head: Timer, timers: set<Timer>,
                                       now: int)
    requires Coming(agenda, now) && forall i :: 0 <= i < |cs| ==> MayChange(cs[i], timers - {head}, 1)
    ensures MayDoAll(agenda, Actions(cs, now), head, now)
    ensures AfterAll(agenda, Actions(cs, now)) == Due(agenda, Events(cs, now))
    ensures Coming(Due(agenda, Events(cs, now)), now)
    decreases |cs|
  {
    hide Coming, Due;
    if cs == [] {
      DueNone(agenda);
    } else {
      var n := |cs| - 1;
      hide MayDoAll, AfterAll;
      ActionsWork(agenda, cs[..n], head, timers, now);
      ChangeWorks(agenda, Actions(cs[..n], now), cs[n], head, now);
      DueConcat(agenda, Events(cs[..n], now), [EventOf(cs[n], now)]);
    }
  }

  lemma {:induction false} OwnTimers(cs: seq<Change>, head: Timer, timers: set<Timer>, now: int)
    requires forall i :: 0 <= i < |cs| ==> MayChange(cs[i], timers - {head}, 1)
    ensures forall a :: a in Actions(cs, now) ==> a.timer in timers
    ensures forall i :: 0 <= i < |Events(cs, now)| ==> Events(cs, now)[i].timer != head
    decreases |cs|
  {
    if cs != [] { OwnTimers(cs[..|cs| - 1], head, timers, now); }
  }

  lemma {:induction false} DueWithout(m: map<Timer, int>, hist: seq<Event>, t: Timer)
    requires forall i :: 0 <= i < |hist| ==> hist[i].timer != t
    ensures Due(m - {t}, hist) == Due(m, hist) - {t}
    decreases |hist|
  {
    if hist != [] { DueWithout(m, hist[..|hist| - 1], t); }
  }

  /** What a timer that ran and its callback leave. */
  ghost function Reply(c: Callback, t: Timer, now: int): (r: seq<Event>)
    ensures forall i :: 0 <= i < |r| ==> !r[i].Ran?
  {
    Events(c.changes, now) + if c.done then [] else [Asked(t, now + c.again)]
  }

  lemma DueReply(m: map<Timer, int>, c: Callback, t: Timer, now: int)
    requires forall i :: 0 <= i < |Events(c.changes, now)| ==> Events(c.changes, now)[i].timer != t
    ensures var after := Due(m, Events(c.changes, now));
            Due(m, [Ran(t, now)] + Reply(c, t, now)) == if c.done then after - {t} else after[t := now + c.again]
  {
    hide Events;
    var evs := Events(c.changes, now);
    DueConcat(m, [Ran(t, now)], Reply(c, t, now));
    DueOne(m, Ran(t, now));
    DueWithout(m, evs, t);
    if c.done {
      assert Reply(c, t, now) == evs;
    } else {
      var again := Asked(t, now + c.again);
      DueConcat(m - {t}, evs, [again]);
      DueOne(Due(m - {t}, evs), again);
      ResetEntry(Due(m, evs), t, now + c.again);
    }
  }

  /** The clock after a run that starts at `now`. */
  function Clock(ops: seq<Op>, now: int): int {
    if ops == [] then now
    else Clock(ops[..|ops| - 1], now) + if ops[|ops| - 1].Pass? then ops[|ops| - 1].ticks else 0
  }

  predicate MayAsk(o: Op, timers: set<Timer>) {
    match o
    case Do(change) => MayChange(change, timers, 0)
    case Pass(ticks) => 0 <= ticks <= TWO31
  }

  // ---------- the history of a run ----------

  /** What the callback of `t` does at `time`: the periodic timer runs again after its period. */
  function CallbackOf(s: Scheduler, behave: (Timer, int) -> Callback, t: Timer, time: int): Callback {
    if t == s.periodic then Callback([], false, s.periodTicks) else behave(t, time)
  }

  ghost function Block(s: Scheduler, behave: (Timer, int) -> Callback, t: Timer, time: int): seq<Event> {
    [Ran(t, time)] + Reply(CallbackOf(s, behave, t, time), t, time)
  }

  /** The history that the given timers leave when they run one after the other. */
  ghost function Blocks(s: Scheduler, behave: (Timer, int) -> Callback, ran: seq<(Timer, int)>): seq<Event> {
    if ran == [] then []
    else Blocks(s, behave, ran[..|ran| - 1]) + Block(s, behave, ran[|ran| - 1].0, ran[|ran| - 1].1)
  }

  /** The history of a run in which the timers `ran[i]` run during the operation `i`. */
  ghost function History(s: Scheduler, behave: (Timer, int) -> Callback, ops: seq<Op>, now: int,
                         ran: seq<seq<(Timer, int)>>): seq<Event>
    requires |ran| == |ops|
  {
    if ops == [] then []
    else
      var n := |ops| - 1;
      History(s, behave, ops[..n], now, ran[..n]) +
      if ops[n].Do? then [EventOf(ops[n].change, Clock(ops[..n], now))] else Blocks(s, behave, ran[n])
  }

  lemma HistoryMore(s: Scheduler, behave: (Timer, int) -> Callback, ops: seq<Op>, now: int,
                    ran: seq<seq<(Timer, int)>>, o: Op, r: seq<(Timer, int)>)
    requires |ran| == |ops|
    ensures History(s, behave, ops + [o], now, ran + [r]) == History(s, behave, ops, now, ran) +
      if o.Do? then [EventOf(o.change, Clock(ops, now))] else Blocks(s, behave, r)
    ensures Clock(ops + [o], now) == Clock(ops, now) + if o.Pass? then o.ticks else 0
  {
    hide Blocks;
    assert (ops + [o])[..|ops|] == ops && (ran + [r])[..|ran|] == ran;
  }

  lemma BlocksMore(s: Scheduler, behave: (Timer, int) -> Callback, ran: seq<(Timer, int)>, t: Timer, time: int)
    ensures Blocks(s, behave, ran + [(t, time)]) == Blocks(s, behave, ran) + Block(s, behave, t, time)
  {
    hide Block;
    assert (ran + [(t, time)])[..|ran|] == ran;
  }

  // ---------- running the list ----------

  /** The timers that commands and callbacks own. */
  ghost function Ordinary(s: Scheduler, universe: set<Timer>): set<Timer> {
    universe - {s.deleted, s.periodic, s.sentinel}
  }

  /** Between events: the list is valid, all timers are due in the half range after `now`, and callbacks behave. */
  ghost predicate Idle(s: Scheduler, behave: (Timer, int) -> Callback, now: int, universe: set<Timer>)
    reads s, s.nodes, s.when.Keys
  {
    && s.Valid() && !s.dispatching && s.Within(now) && s.when.Keys <= universe && s.deleted in universe
    && Behaved(behave, Ordinary(s, universe))
  }

  lemma HeadTime(s: Scheduler, now: int)
    requires s.Valid() && s.Within(now)
    ensures s.when[s.timerList] == now + Wrap(s.timerList.waketime - Wrap(now)) && s.timerList != s.sentinel
    ensures s.timerList != s.deleted ==> EarliestIn(s.Agenda(), s.timerList, s.when[s.timerList])
    ensures Coming(s.Agenda(), s.when[s.timerList])
  {
    hide Scheduler.ValidList;
    s.InAgenda();
    s.Earliest();
    WrapDiff(s.when[s.timerList], now);
    HeadWindow(s);
  }

  lemma HeadWindow(s: Scheduler)
    requires s.ValidList()
    ensures Coming(s.Agenda(), s.when[s.timerList])
  {
    hide Ordered, Timed;
    forall x | x in s.Agenda() ensures s.when[s.timerList] <= s.when[x] < s.when[s.timerList] + TWO31 {
      HeadIsEarliest(s.nodes, s.when, x);
    }
  }

  /** The changes of a callback make no timer due at the time at which it runs. */
  lemma {:induction false} NothingNew(agenda: map<Timer, int>, cs: seq<Change>, head: Timer, timers: set<Timer>,
                                      now: int)
    requires forall i :: 0 <= i < |cs| ==> MayChange(cs[i], timers - {head}, 1)
    ensures var after := Due(agenda, Events(cs, now));
            forall x :: x in after && after[x] == now ==> x in agenda && agenda[x] == now
    decreases |cs|
  {
    if cs != [] {
      var n := |cs| - 1;
      NothingNew(agenda, cs[..n], head, timers, now);
      DueConcat(agenda, Events(cs[..n], now), [EventOf(cs[n], now)]);
      DueOne(Due(agenda, Events(cs[..n], now)), EventOf(cs[n], now));
    }
  }

  /** Run the callback of the earliest timer, which is due at `time`. */
  method RunCallback(s: Scheduler, c: Callback, t: Timer, time: int, ghost universe: set<Timer>)
    requires s.Valid() && !s.dispatching && s.when.Keys <= universe && s.deleted in universe
    requires t == s.timerList != s.deleted && t != s.sentinel && time == s.when[t] && Coming(s.Agenda(), time)
    requires if t == s.periodic then c == Callback([], false, s.periodTicks) else Fair(c, t, Ordinary(s, universe))
    modifies s, universe
    ensures s.Valid() && !s.dispatching && s.when.Keys <= universe && s.deleted !in s.when
    ensures s.Agenda() == Due(old(s.Agenda()), [Ran(t, time)] + Reply(c, t, time))
    ensures Coming(s.Agenda(), time) && (t in s.Agenda() ==> s.Agenda()[t] > time)
    ensures forall x :: x in s.Agenda() && s.Agenda()[x] == time ==> x in old(s.Agenda()) && old(s.Agenda())[x] == time
  {
    hide Wrap, Scheduler.ValidList, MayDoAll, Due, Reply, Actions, Events;
    s.Specials();
    ActionsWork(s.Agenda(), c.changes, t, Ordinary(s, universe), time);
    OwnTimers(c.changes, t, Ordinary(s, universe), time);
    NothingNew(s.Agenda(), c.changes, t, Ordinary(s, universe), time);
    DueReply(s.Agenda(), c, t, time);
    var _ := s.Dispatch(Actions(c.changes, time), c.done, time + c.again, t.waketime, universe);
  }

  /** Run the earliest timer, which may be the placeholder of a deleted one. */
  method RunNext(s: Scheduler, behave: (Timer, int) -> Callback, now: int, ghost universe: set<Timer>)
    returns (t: Timer, time: int)
    requires Idle(s, behave, now, universe)
    modifies s, universe
    ensures Idle(s, behave, time, universe) && s.deleted !in s.when
    ensures t == old(s.timerList) && time == old(s.when[s.timerList]) >= now
    ensures if t == s.deleted then s.Agenda() == old(s.Agenda())
            else EarliestIn(old(s.Agenda()), t, time)
                 && s.Agenda() == Due(old(s.Agenda()), Block(s, behave, t, time))
    ensures t in s.Agenda() ==> s.Agenda()[t] > time
    ensures forall x :: x in s.Agenda() && s.Agenda()[x] == time ==> x in old(s.Agenda()) && old(s.Agenda())[x] == time
  {
    hide Wrap, Scheduler.ValidList, Due, Reply;
    HeadTime(s, now);
    s.Specials();
    t, time := s.timerList, now + Wrap(s.timerList.waketime - Wrap(now));
    if t == s.deleted {
      assert AfterAll(s.Agenda(), []) == s.Agenda();
      var _ := s.Dispatch([], true, 0, t.waketime, universe);
    } else {
      RunCallback(s, CallbackOf(s, behave, t, time), t, time, universe);
    }
    s.Earliest();
    s.InAgenda();
    s.WithinFrom(time);
  }

  /** The timers due at `time`, the placeholder among them. */
  ghost function DueAt(s: Scheduler, time: int): set<Timer>
    reads s
  {
    set x | x in s.when && x != s.sentinel && s.when[x] == time
  }

  /** The first timer is due before `end` exactly when its counter value is. */
  ghost predicate HeadKnown(s: Scheduler, end: int)
    reads s, s.when.Keys, s.timerList
  {
    s.timerList in s.when && (IsBefore(s.timerList.waketime, Wrap(end)) <==> s.when[s.timerList] < end)
  }

  lemma NextDue(s: Scheduler, now: int, end: int)
    requires s.Valid() && s.Within(now) && now <= end <= now + TWO31
    ensures HeadKnown(s, end) && now <= s.when[s.timerList]
  {
    hide Wrap, IsBefore, Scheduler.ValidList;
    s.InAgenda();
    s.Earliest();
    NearIsExact(s.when[s.timerList], end);
  }

  lemma Arrived(s: Scheduler, now: int, end: int)
    requires s.Valid() && s.Within(now) && now <= end <= s.when[s.timerList]
    ensures s.Within(end)
  {
    hide Scheduler.ValidList;
    s.Earliest();
  }

  /** A timer that ran is due no more at that time, and no other has become so. */
  lemma FewerDue(s: Scheduler, due: set<Timer>, agenda: map<Timer, int>, t: Timer, time: int)
    requires s.deleted !in s.when && t in due && forall x :: x in agenda && agenda[x] == time ==> x in due
    requires t in s.Agenda() ==> s.Agenda()[t] > time
    requires forall x :: x in s.Agenda() && s.Agenda()[x] == time ==> x in agenda && agenda[x] == time
    ensures DueAt(s, time) < due
  {
    forall x | x in DueAt(s, time) ensures x in due && x != t {
      assert x in s.Agenda() && s.Agenda()[x] == time;
    }
  }

  lemma BlocksNone(s: Scheduler, behave: (Timer, int) -> Callback)
    ensures Blocks(s, behave, []) == []
  {}

  lemma KeptLonger(start: map<Timer, int>, hist: seq<Event>, after: map<Timer, int>, low: int, high: int, end: int)
    requires Kept(start, hist, after, low, high) && high <= end
    ensures Kept(start, hist, after, low, end)
  {}

  lemma KeptBlock(s: Scheduler, behave: (Timer, int) -> Callback, agenda: map<Timer, int>, t: Timer, time: int)
    requires EarliestIn(agenda, t, time)
    ensures Kept(agenda, Block(s, behave, t, time), Due(agenda, Block(s, behave, t, time)), time, time)
  {
    hide Kept, EarliestIn, Reply;
    KeptRan(agenda, t, time, Reply(CallbackOf(s, behave, t, time), t, time));
  }

  /** The timers ran at times from `low` on and before `high`. */
  ghost predicate During(ran: seq<(Timer, int)>, low: int, high: int) {
    forall k :: 0 <= k < |ran| ==> low <= ran[k].1 < high
  }

  /** Time passes until `end`: every timer that is due before then runs. */
  method Advance(s: Scheduler, behave: (Timer, int) -> Callback, now: int, end: int, ghost universe: set<Timer>)
    returns (ghost ran: seq<(Timer, int)>)
    requires Idle(s, behave, now, universe) && now <= end <= now + TWO31
    modifies s, universe
    ensures Idle(s, behave, end, universe)
    ensures Kept(old(s.Agenda()), Blocks(s, behave, ran), s.Agenda(), now, end) && During(ran, now, end)
  {
    hide Wrap, IsBefore, Scheduler.Valid, Kept, Block, Blocks, Due, Behaved, EarliestIn, DueAt;
    ran := [];
    var clock := now;
    KeptNothing(s.Agenda(), now);
    BlocksNone(s, behave);
    NextDue(s, clock, end);
    while IsBefore(s.timerList.waketime, Wrap(end))
      invariant Idle(s, behave, clock, universe) && now <= clock <= end && HeadKnown(s, end)
      invariant Kept(old(s.Agenda()), Blocks(s, behave, ran), s.Agenda(), now, clock) && During(ran, now, end)
      decreases end - s.when[s.timerList], DueAt(s, s.when[s.timerList])
    {
      ghost var agenda, last, due := s.Agenda(), clock, DueAt(s, s.when[s.timerList]);
      AllDue(s);
      var t;
      t, clock := RunNext(s, behave, clock, universe);
      FewerDue(s, due, agenda, t, clock);
      if t == s.deleted {
        KeptLonger(old(s.Agenda()), Blocks(s, behave, ran), agenda, now, last, clock);
      } else {
        KeptBlock(s, behave, agenda, t, clock);
        KeptConcat(old(s.Agenda()), Blocks(s, behave, ran), agenda, Block(s, behave, t, clock), s.Agenda(),
                   now, last, clock, clock);
        BlocksMore(s, behave, ran, t, clock);
        ran := ran + [(t, clock)];
      }
      NextDue(s, clock, end);
    }
    Arrived(s, clock, end);
    KeptLonger(old(s.Agenda()), Blocks(s, behave, ran), s.Agenda(), now, clock, end);
  }

  lemma AllDue(s: Scheduler)
    requires s.Valid()
    ensures s.timerList in DueAt(s, s.when[s.timerList])
    ensures forall x :: x in s.Agenda() && s.Agenda()[x] == s.when[s.timerList] ==> x in DueAt(s, s.when[s.timerList])
  {
    hide Scheduler.ValidList;
    s.InAgenda();
  }

  // ---------- whole runs ----------

  /** A change made by a command. */
  method Apply(s: Scheduler, c: Change, now: int, ghost universe: set<Timer>)
    requires s.Valid() && !s.dispatching && s.Within(now) && s.when.Keys <= universe && s.deleted in universe
    requires MayChange(c, Ordinary(s, universe), 0)
    modifies s, universe
    ensures s.Valid() && !s.dispatching && s.Within(now) && s.when.Keys <= universe
    ensures s.Agenda() == Due(old(s.Agenda()), [EventOf(c, now)])
  {
    hide Scheduler.ValidList, Wrap;
    DueOne(s.Agenda(), EventOf(c, now));
    match c {
      case Set(t, delay) => s.SetTimer(t, delay, Wrap(now), now, universe);
      case Cancel(t) => s.CancelTimer(t, now, universe);
    }
  }

  /** The timers that are due before `now` are no longer to run, and what they were asked is answered. */
  ghost predicate Punctual(start: map<Timer, int>, hist: seq<Event>, now: int) {
    && (forall t :: t in start && start[t] < now ==> Answered(hist, t, start[t], -1))
    && (forall i :: 0 <= i < |hist| && hist[i].Asked? && hist[i].time < now ==>
          Answered(hist, hist[i].timer, hist[i].time, i))
  }

  lemma KeptIsPunctual(start: map<Timer, int>, hist: seq<Event>, now: int)
    requires Sound(start, hist) && forall x :: x in Due(start, hist) ==> now <= Due(start, hist)[x]
    ensures Punctual(start, hist, now)
  {
    hide Sound, Answered;
    forall t | t in start && start[t] < now ensures Answered(hist, t, start[t], -1) {
      assert hist[..0] == [];
      AskedIsAnswered(start, hist, t, -1, now);
    }
    forall i | 0 <= i < |hist| && hist[i].Asked? && hist[i].time < now
      ensures Answered(hist, hist[i].timer, hist[i].time, i)
    {
      assert hist[..i + 1][..i] == hist[..i];
      AskedIsAnswered(start, hist, hist[i].timer, i, now);
    }
  }

  /**
    Any run: timers run in order of time, each at the time it was last set to, while that time passes; none runs at
    a time nobody asked for; and once the clock has passed the time of a timer it has run, unless it was set again or
    cancelled before.
   */
  method Run(s: Scheduler, behave: (Timer, int) -> Callback, ops: seq<Op>, now: int, ghost universe: set<Timer>)
    returns (ghost ran: seq<seq<(Timer, int)>>)
    requires Idle(s, behave, now, universe) && forall o :: o in ops ==> MayAsk(o, Ordinary(s, universe))
    modifies s, universe
    ensures Idle(s, behave, Clock(ops, now), universe) && |ran| == |ops|
    ensures forall i :: 0 <= i < |ops| ==> During(ran[i], Clock(ops[..i], now), Clock(ops[..i + 1], now))
    ensures var hist := History(s, behave, ops, now, ran);
            && Kept(old(s.Agenda()), hist, s.Agenda(), now, Clock(ops, now))
            && Punctual(old(s.Agenda()), hist, Clock(ops, now))
  {
    hide Wrap, Scheduler.Valid, Kept, Due, Blocks, Behaved, Punctual, Clock, History, Scheduler.Within;
    ran := [];
    var clock := now;
    ghost var start := s.Agenda();
    KeptNothing(start, now);
    RunNone(s, behave, now);
    for i := 0 to |ops|
      invariant Idle(s, behave, clock, universe) && |ran| == i && clock == Clock(ops[..i], now)
      invariant Kept(start, History(s, behave, ops[..i], now, ran), s.Agenda(), now, clock)
      invariant forall j :: 0 <= j < i ==> During(ran[j], Clock(ops[..j], now), Clock(ops[..j + 1], now))
    {
      ghost var hist, agenda, past := History(s, behave, ops[..i], now, ran), s.Agenda(), clock;
      assert ops[..i + 1] == ops[..i] + [ops[i]] && ops[i] in ops;
      match ops[i] {
        case Do(change) =>
          Apply(s, change, clock, universe);
          KeptQuiet(agenda, [EventOf(change, clock)], clock);
          KeptConcat(start, hist, agenda, [EventOf(change, clock)], s.Agenda(), now, clock, clock, clock);
          HistoryMore(s, behave, ops[..i], now, ran, ops[i], []);
          ran := ran + [[]];
        case Pass(ticks) =>
          ghost var r := Advance(s, behave, clock, clock + ticks, universe);
          KeptConcat(start, hist, agenda, Blocks(s, behave, r), s.Agenda(), now, clock, clock, clock + ticks);
          HistoryMore(s, behave, ops[..i], now, ran, ops[i], r);
          ran := ran + [r];
          clock := clock + ticks;
      }
    }
    assert ops[..|ops|] == ops;
    RunPunctual(s, start, History(s, behave, ops, now, ran), now, clock);
  }

  lemma RunNone(s: Scheduler, behave: (Timer, int) -> Callback, now: int)
    ensures History(s, behave, [], now, []) == [] && Clock([], now) == now
  {}

  lemma RunPunctual(s: Scheduler, start: map<Timer, int>, hist: seq<Event>, now: int, end: int)
    requires s.Valid() && s.Within(end) && Kept(start, hist, s.Agenda(), now, end)
    ensures Punctual(start, hist, end)
  {
    hide Punctual, Due, Sound;
    s.PendingLater(end);
    KeptIsPunctual(start, hist, end);
  }
}
