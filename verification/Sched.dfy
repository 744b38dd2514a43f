/**
  The timer list of the micro-controller scheduler (src/sched.c).

  Timers form a linked list that always ends in the sentinel.  Two ghost values describe it: the
  sequence of timers along the links and the unbounded time of each.  `Valid` says that the list is
  sorted by time although the code only ever compares 32-bit counter values.  `Agenda` is the
  priority queue that the list represents.
 */
module Sched {
  import opened Clock32

  class Timer {
    var next: Timer?
    var waketime: Ticks

    constructor (waketime: Ticks)
      ensures this.waketime == waketime && next == null
    {
      this.waketime, next := waketime, null;
    }
  }

  // ---------- order, on values ----------

  ghost predicate Distinct(ns: seq<Timer>) {
    forall i, j :: 0 <= i < j < |ns| ==> ns[i] != ns[j]
  }

  ghost predicate Dated(ns: seq<Timer>, when: map<Timer, int>) {
    && (forall i :: 0 <= i < |ns| ==> ns[i] in when)
    && (forall t :: t in when ==> t in ns)
  }

  ghost predicate Sorted(ns: seq<Timer>, when: map<Timer, int>)
    requires Dated(ns, when)
  {
    forall i, j :: 0 <= i < j < |ns| ==> when[ns[i]] <= when[ns[j]]
  }

  /** All timers but the last are less than half the counter range past the first. */
  ghost predicate InWindow(ns: seq<Timer>, when: map<Timer, int>)
    requires Dated(ns, when)
  {
    forall i :: 0 <= i < |ns| - 1 ==> when[ns[i]] < when[ns[0]] + TWO31
  }

  ghost predicate Ordered(ns: seq<Timer>, when: map<Timer, int>) {
    Distinct(ns) && Dated(ns, when) && Sorted(ns, when) && InWindow(ns, when)
  }

  ghost function Spliced(ns: seq<Timer>, at: nat, t: Timer): seq<Timer>
    requires at <= |ns|
  {
    ns[..at] + [t] + ns[at..]
  }

  lemma SplicedAt(ns: seq<Timer>, at: nat, t: Timer)
    requires at <= |ns|
    ensures var r := Spliced(ns, at, t);
            && |r| == |ns| + 1
            && (forall i :: 0 <= i < at ==> r[i] == ns[i])
            && r[at] == t
            && (forall i :: at < i < |r| ==> r[i] == ns[i - 1])
  {}

  lemma SplicedDated(ns: seq<Timer>, when: map<Timer, int>, at: nat, t: Timer, time: int)
    requires Distinct(ns) && Dated(ns, when) && t !in ns && at <= |ns|
    ensures Distinct(Spliced(ns, at, t)) && Dated(Spliced(ns, at, t), when[t := time])
  {
    SplicedAt(ns, at, t);
    hide Spliced;
    var r := Spliced(ns, at, t);
    forall x | x in when ensures x in r {
      var i :| 0 <= i < |ns| && ns[i] == x;
      assert r[if i < at then i else i + 1] == x;
    }
  }

  lemma SplicedSorted(ns: seq<Timer>, when: map<Timer, int>, at: nat, t: Timer, time: int)
    requires Dated(ns, when) && Sorted(ns, when) && t !in ns && at < |ns|
    requires at > 0 ==> when[ns[at - 1]] <= time
    requires time <= when[ns[at]]
    requires Dated(Spliced(ns, at, t), when[t := time])
    ensures Sorted(Spliced(ns, at, t), when[t := time])
  {
    var r, w := Spliced(ns, at, t), when[t := time];
    SplicedAt(ns, at, t);
    hide Spliced, Dated;
    forall i, j | 0 <= i < j < |r| ensures w[r[i]] <= w[r[j]] {
      SplicedTime(ns, when, at, t, time, i);
      SplicedTime(ns, when, at, t, time, j);
      SplicedPair(ns, when, at, time, i, j);
    }
  }

  lemma SplicedPair(ns: seq<Timer>, when: map<Timer, int>, at: nat, time: int, i: nat, j: nat)
    requires Dated(ns, when) && Sorted(ns, when) && at < |ns| && i < j <= |ns|
    requires (at > 0 ==> when[ns[at - 1]] <= time) && time <= when[ns[at]]
    ensures (if i < at then when[ns[i]] else if i == at then time else when[ns[i - 1]]) <=
            (if j < at then when[ns[j]] else if j == at then time else when[ns[j - 1]])
  {
    hide Sorted;
    if i == at {
      SortedPair(ns, when, at, j - 1);
    } else if j == at {
      SortedPair(ns, when, i, at - 1);
    } else {
      SortedPair(ns, when, if i < at then i else i - 1, if j < at then j else j - 1);
    }
  }

  lemma SplicedTime(ns: seq<Timer>, when: map<Timer, int>, at: nat, t: Timer, time: int, i: nat)
    requires Dated(ns, when) && t !in ns && at < |ns| && i <= |ns|
    ensures var r, w := Spliced(ns, at, t), when[t := time];
            && |r| == |ns| + 1 && r[i] in w
            && w[r[i]] == if i < at then when[ns[i]] else if i == at then time else when[ns[i - 1]]
  {
    SplicedAt(ns, at, t);
  }

  lemma SortedPair(ns: seq<Timer>, when: map<Timer, int>, i: nat, j: int)
    requires Dated(ns, when) && Sorted(ns, when) && i < |ns| && 0 <= j < |ns|
    ensures i <= j ==> when[ns[i]] <= when[ns[j]]
  {}

  lemma SplicedInWindow(ns: seq<Timer>, when: map<Timer, int>, at: nat, t: Timer, time: int)
    requires Dated(ns, when) && InWindow(ns, when) && t !in ns && at < |ns|
    requires if at > 0 then time < when[ns[0]] + TWO31
             else forall i :: 0 <= i < |ns| - 1 ==> when[ns[i]] < time + TWO31
    requires Dated(Spliced(ns, at, t), when[t := time])
    ensures InWindow(Spliced(ns, at, t), when[t := time])
  {
    SplicedAt(ns, at, t);
    assert forall i :: 0 <= i < |ns| ==> ns[i] != t && ns[i] in when;
    hide Spliced, Dated;
  }

  /** Inserting a timer between its neighbours in time keeps the list in order. */
  lemma SplicedOrdered(ns: seq<Timer>, when: map<Timer, int>, at: nat, t: Timer, time: int)
    requires Ordered(ns, when) && t !in ns && at < |ns|
    requires if at > 0 then when[ns[at - 1]] <= time < when[ns[0]] + TWO31
             else forall i :: 0 <= i < |ns| - 1 ==> when[ns[i]] < time + TWO31
    requires time <= when[ns[at]]
    ensures Ordered(Spliced(ns, at, t), when[t := time])
  {
    hide Spliced, Sorted, InWindow, Dated, Distinct;
    SplicedDated(ns, when, at, t, time);
    SplicedSorted(ns, when, at, t, time);
    SplicedInWindow(ns, when, at, t, time);
  }

  ghost function Dropped(ns: seq<Timer>, at: nat): seq<Timer>
    requires at < |ns|
  {
    ns[..at] + ns[at + 1..]
  }

  lemma DroppedAt(ns: seq<Timer>, at: nat)
    requires at < |ns|
    ensures var r := Dropped(ns, at);
            && |r| == |ns| - 1
            && (forall i :: 0 <= i < at ==> r[i] == ns[i])
            && (forall i :: at <= i < |r| ==> r[i] == ns[i + 1])
  {}

  /** Taking a timer off the list keeps the rest in order. */
  lemma DroppedOrdered(ns: seq<Timer>, when: map<Timer, int>, at: nat)
    requires Ordered(ns, when) && at < |ns|
    ensures Ordered(Dropped(ns, at), when - {ns[at]})
    ensures ns[at] !in Dropped(ns, at)
  {
    DroppedDated(ns, when, at);
    DroppedAt(ns, at);
    hide Dropped, Distinct, Dated;
  }

  lemma DroppedDated(ns: seq<Timer>, when: map<Timer, int>, at: nat)
    requires Distinct(ns) && Dated(ns, when) && at < |ns|
    ensures Distinct(Dropped(ns, at)) && Dated(Dropped(ns, at), when - {ns[at]})
    ensures ns[at] !in Dropped(ns, at)
  {
    DroppedAt(ns, at);
    hide Dropped;
    var r := Dropped(ns, at);
    forall x | x in when && x != ns[at] ensures x in r {
      var i :| 0 <= i < |ns| && ns[i] == x;
      assert r[if i < at then i else i - 1] == x;
    }
  }

  /** Moving the last timer further away keeps the list in order. */
  lemma LastRedated(ns: seq<Timer>, when: map<Timer, int>, time: int)
    requires Ordered(ns, when) && ns != []
    requires forall i :: 0 <= i < |ns| - 1 ==> when[ns[i]] <= time
    ensures Ordered(ns, when[ns[|ns| - 1] := time])
  {}

  lemma OrderedDates(ns: seq<Timer>, when: map<Timer, int>)
    requires Ordered(ns, when)
    ensures forall i :: 0 <= i < |ns| ==> ns[i] in when
  {}

  lemma HeadIsEarliest(ns: seq<Timer>, when: map<Timer, int>, t: Timer)
    requires Ordered(ns, when) && ns != [] && t in when
    ensures when[ns[0]] <= when[t]
    ensures t != ns[|ns| - 1] ==> when[t] < when[ns[0]] + TWO31
  {
    var i :| 0 <= i < |ns| && ns[i] == t;
  }

  lemma OrderedDistinct(ns: seq<Timer>, when: map<Timer, int>)
    requires Ordered(ns, when)
    ensures Distinct(ns)
  {}

  /** The times of a list that holds only the periodic timer and the sentinel. */
  ghost function PairDates(p: Timer, s: Timer, time: int): map<Timer, int> {
    map[p := time, s := time + TWO31]
  }

  lemma PairOrdered(p: Timer, s: Timer, time: int)
    requires p != s
    ensures Ordered([p, s], PairDates(p, s, time))
    ensures var w := PairDates(p, s, time);
            p in w && s in w && w[p] == time && w[s] == time + TWO31 && forall t :: t in w ==> t == p || t == s
  {}

  lemma TripleOrdered(d: Timer, p: Timer, s: Timer, time: int)
    requires p != s && d != s && d != p
    ensures Ordered([d, p, s], map[d := time, p := time, s := time + TWO31])
  {}

  lemma HeadIsNotLast(ns: seq<Timer>, when: map<Timer, int>, t: Timer)
    requires Ordered(ns, when) && ns != [] && t in when && t != ns[|ns| - 1]
    ensures |ns| >= 2
  {
    var i :| 0 <= i < |ns| && ns[i] == t;
  }

  lemma IndexOf(ns: seq<Timer>, when: map<Timer, int>, t: Timer) returns (i: nat)
    requires Ordered(ns, when) && ns != [] && t in when && t != ns[|ns| - 1]
    ensures i < |ns| - 1 && ns[i] == t
  {
    i :| 0 <= i < |ns| && ns[i] == t;
  }

  lemma NotDated(ns: seq<Timer>, when: map<Timer, int>, t: Timer)
    requires Ordered(ns, when) && forall i :: 0 <= i < |ns| ==> ns[i] != t
    ensures t !in when
  {}

  lemma Rescheduled(when: map<Timer, int>, t: Timer, time: int, d: Timer, s: Timer, later: int)
    requires t != d && t != s && s in when
    ensures (when - {t})[t := time] - {d, s} == (when - {d, s})[t := time]
    ensures (when - {t})[s := later][t := time] - {d, s} == (when - {d, s})[t := time]
    ensures when[t := time] - {d, s} == (when - {d, s})[t := time]
    ensures when[t := time][d := time] - {d, s} == (when - {d, s})[t := time]
    ensures (when - {d})[t := time][d := time] - {d, s} == (when - {d, s})[t := time]
  {}

  // ---------- links and counter values, on the heap ----------

  ghost predicate Linked(ns: seq<Timer>)
    reads ns`next
  {
    && ns != [] && ns[|ns| - 1].next == null
    && (forall i :: 0 <= i < |ns| - 1 ==> ns[i].next == ns[i + 1])
  }

  ghost predicate Timed(when: map<Timer, int>)
    reads when.Keys`waketime
  {
    forall t :: t in when ==> t.waketime == Wrap(when[t])
  }

  lemma LinkedTail(ns: seq<Timer>)
    requires Linked(ns) && |ns| >= 2
    ensures Linked(Dropped(ns, 0)) && Dropped(ns, 0)[0] == ns[0].next
  {
    DroppedAt(ns, 0);
    hide Dropped;
    var r := Dropped(ns, 0);
    forall i | 0 <= i < |r| - 1 ensures r[i].next == r[i + 1] {
      assert ns[i + 1].next == ns[i + 2];
    }
  }

  lemma NextExists(ns: seq<Timer>, i: nat)
    requires Linked(ns) && i < |ns| - 1
    ensures ns[i].next != null
  {
    assert ns[i].next == ns[i + 1];
  }

  lemma LinkedFront(ns: seq<Timer>, t: Timer)
    requires Linked(ns) && t.next == ns[0]
    ensures Linked(Spliced(ns, 0, t))
  {
    SplicedAt(ns, 0, t);
    hide Spliced;
    var r := Spliced(ns, 0, t);
    forall i | 0 <= i < |r| - 1 ensures r[i].next == r[i + 1] {
      if i > 0 { assert ns[i - 1].next == ns[i]; }
    }
  }

  /** A new earliest timer in front of a list. */
  lemma FrontOne(ns: seq<Timer>, when: map<Timer, int>, t: Timer, time: int)
    requires Ordered(ns, when) && Linked(ns) && t !in when && t.next == ns[0]
    requires time <= when[ns[0]] && forall x :: x in when && x != ns[|ns| - 1] ==> when[x] < time + TWO31
    ensures var r := Spliced(ns, 0, t);
            && Ordered(r, when[t := time]) && Linked(r) && r[0] == t && r[|r| - 1] == ns[|ns| - 1] && |r| > 1
  {
    SplicedOrdered(ns, when, 0, t, time);
    SplicedAt(ns, 0, t);
    LinkedFront(ns, t);
  }

  /** What a callback does to other timers; adding one gives it its time. */
  datatype Action = Add(timer: Timer, time: int) | Del(timer: Timer)

  ghost function AfterOne(agenda: map<Timer, int>, a: Action): map<Timer, int> {
    match a
    case Add(t, time) => agenda[t := time]
    case Del(t) => agenda - {t}
  }

  /** The map of timers after a list of actions. */
  ghost function AfterAll(agenda: map<Timer, int>, acts: seq<Action>): map<Timer, int> {
    if acts == [] then agenda
    else AfterOne(AfterAll(agenda, acts[..|acts| - 1]), acts[|acts| - 1])
  }

  /** A callback of `head`, due at `now`, may add a timer that is not scheduled, in the coming half range. */
  ghost predicate MayDo(agenda: map<Timer, int>, a: Action, head: Timer, now: int) {
    && a.timer != head
    && (a.Add? ==> a.timer !in agenda && now <= a.time < now + TWO31
                   && forall t :: t in agenda ==> -TWO31 < a.time - agenda[t] < TWO31)
  }

  ghost predicate MayDoAll(agenda: map<Timer, int>, acts: seq<Action>, head: Timer, now: int) {
    acts == [] || (MayDoAll(agenda, acts[..|acts| - 1], head, now)
                   && MayDo(AfterAll(agenda, acts[..|acts| - 1]), acts[|acts| - 1], head, now))
  }

  lemma {:induction false} MayDoPrefix(agenda: map<Timer, int>, acts: seq<Action>, head: Timer, now: int, n: nat)
    requires MayDoAll(agenda, acts, head, now) && n <= |acts|
    ensures MayDoAll(agenda, acts[..n], head, now)
    decreases |acts|
  {
    if n < |acts| {
      assert acts[..|acts| - 1][..n] == acts[..n];
      MayDoPrefix(agenda, acts[..|acts| - 1], head, now, n);
    } else {
      assert acts[..n] == acts;
    }
  }

  lemma ResetEntry(m: map<Timer, int>, t: Timer, time: int)
    ensures (m - {t})[t := time] == m[t := time]
  {}

  class Scheduler {
    const periodic: Timer
    const sentinel: Timer
    const deleted: Timer
    const periodTicks: Ticks
    var timerList: Timer
    var lastInsert: Timer
    // The timers along the list, and their unbounded times.
    ghost var nodes: seq<Timer>
    ghost var when: map<Timer, int>
    // A timer callback is running, so its timer must stay at the head of the list.
    ghost var dispatching: bool

    ghost predicate ValidList()
      reads `timerList, `nodes, `when, nodes, when.Keys
      ensures ValidList() ==> timerList in when && sentinel in when
    {
      && Linked(nodes) && Timed(when) && Ordered(nodes, when)
      && nodes[0] == timerList && nodes[|nodes| - 1] == sentinel
      && periodic in when && periodic != sentinel && deleted != sentinel && deleted != periodic
      && when[sentinel] == when[periodic] + TWO31
      && (deleted in when ==> deleted == timerList)
      && 0 < periodTicks < TWO31
    }

    ghost predicate Valid()
      reads `timerList, `lastInsert, `nodes, `when, nodes, when.Keys
    {
      ValidList() && lastInsert in when && lastInsert != sentinel && lastInsert != deleted
    }

    /** The priority queue that the list stands for: each scheduled timer and its time. */
    ghost function Agenda(): map<Timer, int>
      reads this
    {
      when - {deleted, sentinel}
    }

    /** The statically initialised timers make a list of their own. */
    constructor (p: Timer, s: Timer, d: Timer, periodTicks: Ticks)
      requires p != s && d != s && d != p && 0 < periodTicks < TWO31
      requires p.next == s && s.next == null && p.waketime == 0 && s.waketime == TWO31
      ensures Valid() && !dispatching
      ensures periodic == p && sentinel == s && deleted == d && Agenda() == map[p := 0]
    {
      hide PairDates, Ordered;
      PairOrdered(p, s, 0);
      periodic, sentinel, deleted, this.periodTicks := p, s, d, periodTicks;
      timerList, lastInsert, dispatching := p, p, false;
      nodes, when := [p, s], PairDates(p, s, 0);
    }

    /** What inserting `t` at `time` into the list `ns` relies on. */
    ghost predicate CanInsert(ns: seq<Timer>, when: map<Timer, int>, t: Timer, time: int) {
      && Ordered(ns, when) && |ns| >= 2 && t !in ns && ns[|ns| - 1] == sentinel
      && periodic != sentinel && (periodic == t || periodic in when)
      && when[sentinel] == (if periodic == t then time else when[periodic]) + TWO31
      && when[ns[0]] <= time < when[ns[0]] + TWO31
    }

    /** Before the sentinel the comparison is exact; at the sentinel it always succeeds. */
    lemma SearchStops(ns: seq<Timer>, when: map<Timer, int>, t: Timer, time: int, at: nat)
      requires CanInsert(ns, when, t, time) && at < |ns| && (at > 0 ==> when[ns[at - 1]] <= time)
      ensures IsBefore(Wrap(time), Wrap(when[ns[at]])) <==> time < when[ns[at]]
      ensures at == |ns| - 1 ==> IsBefore(Wrap(time), Wrap(when[ns[at]]))
    {
      hide Wrap, IsBefore;
      if at < |ns| - 1 {
        NearIsExact(time, when[ns[at]]);
      } else {
        var p := if periodic == t then time else when[periodic];
        if periodic != t {
          var i :| 0 <= i < |ns| && ns[i] == periodic;
          assert when[periodic] <= when[ns[at - 1]];
        }
        NearIsExact(time, p);
        HalfRangeDual(Wrap(time), p);
      }
    }

    /** Walk the list from `pos` to the first timer that is later than `waketime`. */
    method FindPlace(pos: Timer, waketime: Ticks, ghost t: Timer, ghost time: int,
                     ghost ns: seq<Timer>, ghost when: map<Timer, int>, ghost start: nat)
      returns (prev: Timer, cur: Timer, ghost at: nat)
      requires Linked(ns) && Timed(when) && CanInsert(ns, when, t, time) && waketime == Wrap(time)
      requires start < |ns| && (start > 0 ==> pos == ns[start - 1] && when[pos] <= time) && pos.next == ns[start]
      ensures 0 < at < |ns| && prev == ns[at - 1] && cur == ns[at]
      ensures when[prev] <= time < when[cur]
    {
      hide Wrap, IsBefore, Distinct, Sorted, InWindow;
      prev, cur, at := pos, pos.next, start;
      SearchStops(ns, when, t, time, at);
      while !IsBefore(waketime, cur.waketime)
        invariant at < |ns| && cur == ns[at] && (at > 0 ==> prev == ns[at - 1] && when[prev] <= time)
        invariant IsBefore(waketime, cur.waketime) <==> time < when[cur]
        invariant at == |ns| - 1 ==> IsBefore(waketime, cur.waketime)
        decreases |ns| - at
      {
        assert ns[at].next == ns[at + 1];
        prev, cur, at := cur, cur.next, at + 1;
        SearchStops(ns, when, t, time, at);
      }
    }

    /** Link `t` behind every timer that is not later than it, searching from `pos`. */
    method InsertTimer(pos: Timer, t: Timer, waketime: Ticks, ghost time: int,
                       ghost ns: seq<Timer>, ghost dates: map<Timer, int>, ghost start: nat)
      requires Linked(ns) && Timed(dates) && CanInsert(ns, dates, t, time) && waketime == t.waketime == Wrap(time)
      requires start < |ns| && (start > 0 ==> pos == ns[start - 1] && dates[pos] <= time) && pos.next == ns[start]
      requires t != deleted && deleted != periodic && deleted != sentinel && 0 < periodTicks < TWO31
      requires ns[0] == timerList && (deleted in dates ==> deleted == timerList)
      modifies this`nodes, this`when, t`next, ns`next
      ensures ValidList() && when == dates[t := time]
    {
      hide Wrap, IsBefore, Ordered;
      OrderedDates(ns, dates);
      OrderedDistinct(ns, dates);
      ghost var at;
      var prev, cur;
      prev, cur, at := FindPlace(pos, waketime, t, time, ns, dates, start);
      SplicedOrdered(ns, dates, at, t, time);
      SplicedAt(ns, at, t);
      hide Spliced, Distinct;
      LinkBetween(prev, t, cur, ns, at);
      nodes, when := Spliced(ns, at, t), dates[t := time];
    }

    /** Relink `prev` and `cur`, neighbours in the list, through `t`. */
    method LinkBetween(prev: Timer, t: Timer, cur: Timer, ghost ns: seq<Timer>, ghost at: nat)
      requires Linked(ns) && Distinct(ns) && t !in ns && 0 < at < |ns| && prev == ns[at - 1] && cur == ns[at]
      modifies t`next, prev`next
      ensures Linked(Spliced(ns, at, t))
    {
      t.next := cur;
      prev.next := t;
      SplicedAt(ns, at, t);
      hide Spliced;
      ghost var r := Spliced(ns, at, t);
      forall i | 0 <= i < |r| - 1 ensures r[i].next == r[i + 1] {
        if i < at - 1 {
          assert ns[i].next == ns[i + 1];
        } else if i > at {
          assert ns[i - 1].next == ns[i];
        }
      }
    }

    /** Schedule a timer; `now` is the counter, and a running shutdown suppresses a second one. */
    method AddTimer(add: Timer, ghost time: int, now: Ticks, isShutdown: bool) returns (tooClose: bool)
      requires Valid() && add !in when && add != deleted && add.waketime == Wrap(time)
      requires forall t :: t in when && t != sentinel ==> -TWO31 < time - when[t] < TWO31
      requires dispatching ==> when[timerList] <= time
      modifies this, add`next, nodes`next, deleted
      ensures Valid() && dispatching == old(dispatching)
      ensures tooClose <==> !isShutdown && time < old(when[timerList]) && IsBefore(add.waketime, now)
      ensures Agenda() == if tooClose then old(Agenda()) else old(Agenda())[add := time]
      ensures when[timerList] == if !tooClose && time < old(when[timerList]) then time else old(when[timerList])
      ensures dispatching ==> timerList == old(timerList) && when[timerList] == old(when[timerList])
    {
      hide Wrap, IsBefore, Ordered, Spliced;
      var tl := timerList;
      OrderedDates(nodes, when);
      HeadIsEarliest(nodes, when, periodic);
      NearIsExact(time, when[tl]);
      if IsBefore(add.waketime, tl.waketime) {
        if IsBefore(add.waketime, now) && !isShutdown {
          return true;
        }
        AddFirst(add, time);
      } else {
        HeadIsNotLast(nodes, when, periodic);
        InsertTimer(tl, add, add.waketime, time, nodes, when, 1);
      }
      return false;
    }

    /** Put `add`, the earliest timer, behind the placeholder that heads the list. */
    method AddFirst(add: Timer, ghost time: int)
      requires Valid() && add !in when && add != deleted && add.waketime == Wrap(time)
      requires time < when[timerList] && forall t :: t in when && t != sentinel ==> when[t] < time + TWO31
      modifies this, add`next, deleted
      ensures Valid() && dispatching == old(dispatching)
      ensures Agenda() == old(Agenda())[add := time] && when[timerList] == time
    {
      hide Wrap, Ordered, Spliced, Dropped;
      ghost var rest, dates := nodes, when;
      OrderedDates(nodes, when);
      if timerList == deleted {
        HeadIsNotLast(nodes, when, periodic);
        LinkedTail(nodes);
        DroppedOrdered(nodes, when, 0);
        DroppedAt(nodes, 0);
        HeadIsEarliest(nodes, when, nodes[1]);
        rest, dates := Dropped(nodes, 0), when - {deleted};
        add.next := deleted.next;
      } else {
        add.next := timerList;
      }
      HeadPair(add, time, rest, dates);
      Rescheduled(old(when), add, time, deleted, sentinel, 0);
    }

    /** Make the placeholder and `add` the first two timers before `rest`. */
    method HeadPair(add: Timer, ghost time: int, ghost rest: seq<Timer>, ghost dates: map<Timer, int>)
      requires Linked(rest) && Timed(dates) && Ordered(rest, dates)
      requires add !in dates && deleted !in dates && add != deleted && add.waketime == Wrap(time) && add.next == rest[0]
      requires time <= dates[rest[0]] && forall x :: x in dates && x != sentinel ==> dates[x] < time + TWO31
      requires rest[|rest| - 1] == sentinel && periodic in dates && dates[sentinel] == dates[periodic] + TWO31
      requires periodic != sentinel && deleted != sentinel && deleted != periodic && 0 < periodTicks < TWO31
      modifies this`timerList, this`nodes, this`when, deleted
      ensures ValidList() && when == dates[add := time][deleted := time]
    {
      hide Wrap, Ordered, Spliced;
      OrderedDates(rest, dates);
      deleted.waketime := add.waketime;
      deleted.next := add;
      timerList := deleted;
      FrontOne(rest, dates, add, time);
      FrontOne(Spliced(rest, 0, add), dates[add := time], deleted, time);
      nodes, when := Spliced(Spliced(rest, 0, add), 0, deleted), dates[add := time][deleted := time];
    }

    /** Remove a timer that may be scheduled. */
    method DelTimer(del: Timer)
      requires Valid() && del != deleted && del != periodic && del != sentinel
      requires dispatching ==> del != timerList
      modifies this, nodes`next, deleted
      ensures Valid() && dispatching == old(dispatching)
      ensures Agenda() == old(Agenda()) - {del} && when[timerList] == old(when[timerList])
      ensures dispatching ==> timerList == old(timerList) && when[timerList] == old(when[timerList])
    {
      hide Wrap, Ordered, Spliced, Dropped;
      OrderedDates(nodes, when);
      if timerList == del {
        DelFirst(del);
      } else {
        var pos := timerList;
        ghost var i := 0;
        while pos.next != null && pos.next != del
          invariant 0 <= i < |nodes| && pos == nodes[i] && forall j :: 0 <= j <= i ==> nodes[j] != del
          modifies {}
          decreases |nodes| - i
        {
          pos := pos.next;
          i := i + 1;
        }
        if pos.next != null {
          Unlink(pos, del, i);
        } else {
          if i < |nodes| - 1 { NextExists(nodes, i); }
          NotDated(nodes, when, del);
        }
      }
      if lastInsert == del {
        lastInsert := periodic;
      }
    }

    /** Replace the first timer by a placeholder for its time. */
    method DelFirst(del: Timer)
      requires ValidList() && del == timerList && del != deleted && del != periodic && del != sentinel
      modifies this`timerList, this`nodes, this`when, deleted
      ensures ValidList() && when == (old(when) - {del})[deleted := old(when)[del]]
    {
      hide Wrap, Ordered, Spliced, Dropped;
      OrderedDates(nodes, when);
      OrderedDistinct(nodes, when);
      HeadIsNotLast(nodes, when, periodic);
      ghost var rest, dates, time := Dropped(nodes, 0), when - {del}, when[del];
      DroppedOrdered(nodes, when, 0);
      DroppedAt(nodes, 0);
      LinkedTail(nodes);
      forall t | t in when ensures time <= when[t] && (t != sentinel ==> when[t] < time + TWO31) {
        HeadIsEarliest(nodes, when, t);
      }
      deleted.waketime := del.waketime;
      deleted.next := del.next;
      FrontOne(rest, dates, deleted, time);
      timerList := deleted;
      nodes, when := Spliced(rest, 0, deleted), dates[deleted := time];
    }

    /** Take the successor `del` of `pos` off the list. */
    method Unlink(pos: Timer, del: Timer, ghost i: nat)
      requires ValidList() && i + 1 < |nodes| && pos == nodes[i] && del == nodes[i + 1]
      requires del != periodic && del != sentinel
      modifies this`nodes, this`when, pos`next
      ensures ValidList() && when == old(when) - {del}
    {
      hide Wrap, Ordered, Dropped;
      DroppedOrdered(nodes, when, i + 1);
      DroppedAt(nodes, i + 1);
      ghost var ns := Dropped(nodes, i + 1);
      OrderedDistinct(nodes, when);
      OrderedDates(nodes, when);
      pos.next := del.next;
      forall j | 0 <= j < |ns| - 1 ensures ns[j].next == ns[j + 1] {
        if j < i {
          assert nodes[j].next == nodes[j + 1];
        } else {
          assert nodes[j + 1].next == nodes[j + 2];
        }
      }
      nodes, when := ns, when - {del};
    }

    /** Start the callback of the earliest timer. */
    method BeginDispatch() returns (t: Timer)
      requires Valid() && !dispatching
      modifies this`dispatching
      ensures Valid() && dispatching && t == timerList
      ensures forall x :: x in Agenda() ==> when[t] <= Agenda()[x]
    {
      dispatching := true;
      t := timerList;
      Earliest();
    }

    /**
      Finish the callback of the first timer: take it off the list, or move it to its new time.
      Returns the time of the next timer to run.
     */
    method EndDispatch(done: bool, ghost time: int, waketime: Ticks) returns (nextWake: Ticks)
      requires Valid() && dispatching && waketime == Wrap(time)
      requires if done then timerList != periodic else timerList != deleted
      requires !done && timerList == periodic ==> time == when[periodic] + periodTicks
      requires !done ==> forall x :: x in Agenda() && x != timerList ==> -TWO31 < time - when[x] < TWO31
      modifies this, nodes
      ensures Valid() && !dispatching
      ensures Agenda() == if done then old(Agenda()) - {old(timerList)} else old(Agenda())[old(timerList) := time]
      ensures nextWake == timerList.waketime == Wrap(when[timerList]) && deleted !in when
      ensures forall x :: x in Agenda() ==> when[timerList] <= Agenda()[x]
    {
      hide Wrap, ValidList;
      Specials();
      if done {
        nextWake := Retire();
      } else {
        nextWake := Requeue(time, waketime);
      }
      dispatching := false;
      Earliest();
    }

    lemma TailOfList()
      requires ValidList()
      ensures |nodes| >= 2
      ensures var rest, dates := Dropped(nodes, 0), when - {timerList};
              && Linked(rest) && Ordered(rest, dates) && sentinel in dates
              && rest[0] == timerList.next && rest[|rest| - 1] == sentinel
              && timerList != sentinel && timerList in nodes
              && (forall i :: 0 <= i < |rest| - 1 ==> dates[rest[i]] < when[timerList] + TWO31)
              && (forall t :: t in rest ==> t in dates && t in nodes)
    {
      hide Wrap, Ordered, Dropped;
      OrderedDates(nodes, when);
      OrderedDistinct(nodes, when);
      HeadIsNotLast(nodes, when, periodic);
      DroppedOrdered(nodes, when, 0);
      DroppedAt(nodes, 0);
      LinkedTail(nodes);
      OrderedDates(Dropped(nodes, 0), when - {timerList});
      forall i | 1 <= i < |nodes| - 1 ensures when[nodes[i]] < when[timerList] + TWO31 {
        HeadIsEarliest(nodes, when, nodes[i]);
      }
    }

    /** The special timers of a valid list. */
    lemma Specials()
      requires ValidList()
      ensures periodic in Agenda() && 0 < periodTicks < TWO31 && deleted != periodic
      ensures deleted in when ==> deleted == timerList
    {}

    lemma Earliest()
      requires ValidList()
      ensures timerList in when && timerList.waketime == Wrap(when[timerList])
      ensures forall x :: x in when ==> when[timerList] <= when[x]
    {
      forall x | x in when ensures when[timerList] <= when[x] { HeadIsEarliest(nodes, when, x); }
    }

    /** Take the first timer off the list. */
    method Retire() returns (nextWake: Ticks)
      requires Valid() && timerList != periodic
      modifies this`timerList, this`lastInsert, this`nodes, this`when
      ensures Valid() && when == old(when) - {old(timerList)} && nextWake == timerList.waketime
    {
      hide Wrap, Ordered, Dropped;
      TailOfList();
      var t := timerList;
      ghost var rest, dates := Dropped(nodes, 0), when - {t};
      HeadIsNotLast(rest, dates, periodic);
      OrderedDistinct(rest, dates);
      nextWake := t.next.waketime;
      timerList := t.next;
      if lastInsert == t {
        lastInsert := t.next;
      }
      nodes, when := rest, dates;
    }

    /** Give the first timer a new time; the periodic timer takes the sentinel along. */
    method Requeue(ghost time: int, waketime: Ticks) returns (nextWake: Ticks)
      requires Valid() && timerList != deleted && waketime == Wrap(time)
      requires timerList == periodic ==> time == when[periodic] + periodTicks
      requires forall x :: x in Agenda() && x != timerList ==> -TWO31 < time - when[x] < TWO31
      modifies this, nodes
      ensures Valid() && Agenda() == old(Agenda())[old(timerList) := time] && nextWake == timerList.waketime
      ensures deleted !in when
    {
      hide Wrap, Ordered, Dropped, Detached;
      var t := timerList;
      ghost var rest, dates := Redate(time, waketime);
      nextWake := Reschedule(t, time, waketime, rest, dates);
      Rescheduled(old(when), t, time, deleted, sentinel, time + TWO31);
    }

    /** The first timer is off the list `rest` and has its new time. */
    ghost predicate Detached(t: Timer, time: int, rest: seq<Timer>, dates: map<Timer, int>)
      reads `timerList, `lastInsert, t, rest, dates.Keys
    {
      && Linked(rest) && Timed(dates) && Ordered(rest, dates) && rest[|rest| - 1] == sentinel && sentinel in dates
      && t == timerList && t.next == rest[0] && t !in dates && t.waketime == Wrap(time)
      && (periodic == t || periodic in dates)
      && dates[sentinel] == (if periodic == t then time else dates[periodic]) + TWO31
      && (forall x :: x in dates && x != sentinel ==> -TWO31 < time - dates[x] < TWO31)
      && (lastInsert == t || lastInsert in dates)
      && lastInsert != sentinel && deleted !in dates && deleted != t
      && periodic != sentinel && deleted != sentinel && deleted != periodic && 0 < periodTicks < TWO31
    }

    method Redate(ghost time: int, waketime: Ticks) returns (ghost rest: seq<Timer>, ghost dates: map<Timer, int>)
      requires Valid() && timerList != deleted && waketime == Wrap(time)
      requires timerList == periodic ==> time == when[periodic] + periodTicks
      requires forall x :: x in Agenda() && x != timerList ==> -TWO31 < time - when[x] < TWO31
      modifies timerList`waketime, sentinel`waketime
      ensures Detached(timerList, time, rest, dates) && timerList.waketime == waketime
      ensures timerList in nodes && forall i :: 0 <= i < |rest| ==> rest[i] in nodes
      ensures dates == if timerList == periodic then (when - {timerList})[sentinel := time + TWO31]
                       else when - {timerList}
    {
      hide Wrap, Ordered, Dropped;
      TailOfList();
      var t := timerList;
      rest, dates := Dropped(nodes, 0), when - {t};
      DroppedAt(nodes, 0);
      t.waketime := waketime;
      if t == periodic {
        MoveSentinel(time, waketime, rest, dates);
        dates := dates[sentinel := time + TWO31];
      }
    }

    /** The sentinel stays half a range behind the periodic timer. */
    method MoveSentinel(ghost time: int, waketime: Ticks, ghost rest: seq<Timer>, ghost dates: map<Timer, int>)
      requires Timed(dates) && Ordered(rest, dates) && rest != [] && rest[|rest| - 1] == sentinel && sentinel in dates
      requires waketime == Wrap(time) && forall i :: 0 <= i < |rest| - 1 ==> dates[rest[i]] <= time + TWO31
      modifies sentinel`waketime
      ensures Timed(dates[sentinel := time + TWO31]) && Ordered(rest, dates[sentinel := time + TWO31])
    {
      hide Wrap;
      sentinel.waketime := Wrap(waketime + TWO31);
      WrapSum(time, TWO31);
      LastRedated(rest, dates, time + TWO31);
    }

    /** Put the first timer, which has a new time, back in its place before the rest of the list. */
    method Reschedule(t: Timer, ghost time: int, waketime: Ticks, ghost rest: seq<Timer>, ghost dates: map<Timer, int>)
      returns (nextWake: Ticks)
      requires Detached(t, time, rest, dates) && t.waketime == waketime
      modifies this`timerList, this`lastInsert, this`nodes, this`when, t`next, rest`next
      ensures Valid() && when == dates[t := time] && nextWake == timerList.waketime && deleted !in when
    {
      hide Wrap, IsBefore, Ordered, Spliced;
      OrderedDates(rest, dates);
      CompareFirst(t, time, rest, dates);
      if !IsBefore(waketime, t.next.waketime) {
        nextWake := Reinsert(t, time, waketime, rest, dates);
      } else {
        FrontOne(rest, dates, t, time);
        nextWake := waketime;
        nodes, when := Spliced(rest, 0, t), dates[t := time];
      }
    }

    /** The first timer is not the first any more: find its place, from the last inserted timer if that is not later. */
    method Reinsert(t: Timer, ghost time: int, waketime: Ticks, ghost rest: seq<Timer>, ghost dates: map<Timer, int>)
      returns (nextWake: Ticks)
      requires Detached(t, time, rest, dates) && t.waketime == waketime && |rest| >= 2 && dates[rest[0]] <= time
      modifies this`timerList, this`lastInsert, this`nodes, this`when, t`next, rest`next
      ensures Valid() && when == dates[t := time] && nextWake == timerList.waketime && deleted !in when && lastInsert == t
    {
      hide Wrap, IsBefore, Ordered, Spliced;
      OrderedDates(rest, dates);
      InOrder(rest, dates, time);
      nextWake := t.next.waketime;
      timerList := t.next;
      var pos := lastInsert;
      ghost var start := HintIndex(t, time, pos, rest, dates);
      if IsBefore(waketime, pos.waketime) {
        pos := timerList;
        start := 1;
      }
      InsertTimer(pos, t, waketime, time, rest, dates, start);
      lastInsert := t;
    }

    lemma InOrder(rest: seq<Timer>, dates: map<Timer, int>, time: int)
      requires Ordered(rest, dates) && |rest| >= 2 && rest[|rest| - 1] == sentinel
      requires forall x :: x in dates && x != sentinel ==> -TWO31 < time - dates[x] < TWO31
      ensures rest[0] in dates && rest[0] != sentinel && time < dates[rest[0]] + TWO31
    {}

    /** Where the search starts when it starts from the last inserted timer. */
    lemma HintIndex(t: Timer, time: int, pos: Timer, rest: seq<Timer>, dates: map<Timer, int>) returns (start: nat)
      requires Linked(rest) && Ordered(rest, dates) && rest[|rest| - 1] == sentinel && t.next == rest[0]
      requires pos == t || pos in dates
      requires pos != sentinel && t.waketime == Wrap(time) && (pos != t ==> pos.waketime == Wrap(dates[pos]))
      requires forall x :: x in dates && x != sentinel ==> -TWO31 < time - dates[x] < TWO31
      ensures start < |rest| && pos.next == rest[start]
      ensures if pos == t then start == 0 && !IsBefore(Wrap(time), pos.waketime)
              else start > 0 && pos == rest[start - 1] && (IsBefore(Wrap(time), pos.waketime) <==> time < dates[pos])
    {
      hide Wrap, IsBefore, Ordered;
      if pos == t {
        NearIsExact(time, time);
        start := 0;
      } else {
        var i := IndexOf(rest, dates, pos);
        NearIsExact(time, dates[pos]);
        start := i + 1;
      }
    }

    /** The first comparison of a rescheduled timer is exact, even when only the sentinel is left. */
    lemma CompareFirst(t: Timer, time: int, rest: seq<Timer>, dates: map<Timer, int>)
      requires Ordered(rest, dates) && rest != [] && rest[|rest| - 1] == sentinel && periodic != sentinel
      requires periodic == t || periodic in dates
      requires dates[sentinel] == (if periodic == t then time else dates[periodic]) + TWO31
      requires forall x :: x in dates && x != sentinel ==> -TWO31 < time - dates[x] < TWO31
      ensures IsBefore(Wrap(time), Wrap(dates[rest[0]])) <==> time < dates[rest[0]]
      ensures !IsBefore(Wrap(time), Wrap(dates[rest[0]])) ==> |rest| >= 2
      ensures forall i :: 0 <= i < |rest| - 1 ==> rest[i] != sentinel && dates[rest[i]] < time + TWO31
    {
      hide Wrap, IsBefore;
      if |rest| == 1 {
        NearIsExact(time, time);
        HalfRangeDual(Wrap(time), time);
      } else {
        NearIsExact(time, dates[rest[0]]);
      }
    }

    /** Drop every timer but the periodic one. */
    method Reset()
      requires Valid()
      modifies this, periodic, deleted
      ensures Valid() && !dispatching && Agenda() == map[periodic := old(when[periodic])]
    {
      hide Wrap, Ordered;
      OrderedDates(nodes, when);
      timerList := deleted;
      deleted.waketime := periodic.waketime;
      deleted.next, lastInsert := periodic, periodic;
      periodic.next := sentinel;
      dispatching := false;
      ghost var time := when[periodic];
      nodes := [deleted, periodic, sentinel];
      when := map[deleted := time, periodic := time, sentinel := time + TWO31];
      TripleOrdered(deleted, periodic, sentinel, time);
      assert Linked(nodes);
      assert Timed(when);
    }

    // ---------- a whole dispatch ----------

    /** One action of the callback of the first timer. */
    method Perform(a: Action, now: Ticks, ghost universe: set<Timer>)
      requires Valid() && dispatching && MayDo(Agenda(), a, timerList, when[timerList])
      requires a.timer != deleted && a.timer != periodic && a.timer != sentinel
      requires when.Keys <= universe && a.timer in universe && deleted in universe
      modifies this, universe
      ensures Valid() && dispatching && timerList == old(timerList) && when[timerList] == old(when[timerList])
      ensures Agenda() == AfterOne(old(Agenda()), a) && when.Keys <= universe
    {
      hide Wrap, IsBefore, Ordered, Linked, Timed;
      AllNodesDated();
      match a {
        case Add(t, time) =>
          SetWaketime(t, Wrap(time));
          forall x | x in when && x != sentinel ensures -TWO31 < time - when[x] < TWO31 {
            assert x != deleted ==> Agenda()[x] == when[x];
          }
          var _ := AddTimer(t, time, now, false);
        case Del(t) =>
          DelTimer(t);
      }
      KeysWithin(universe);
    }

    lemma KeysWithin(universe: set<Timer>)
      requires Agenda().Keys <= universe && deleted in universe && sentinel in universe
      ensures when.Keys <= universe
    {
      forall x | x in when ensures x in universe {
        if x != deleted && x != sentinel { assert x in Agenda(); }
      }
    }

    lemma AllNodesDated()
      requires ValidList()
      ensures forall i :: 0 <= i < |nodes| ==> nodes[i] in when
    {}

    method SetWaketime(t: Timer, waketime: Ticks)
      requires Valid() && t !in when
      modifies t`waketime
      ensures Valid() && t.waketime == waketime
    {
      hide Wrap, Ordered;
      t.waketime := waketime;
    }

    /**
      Run the earliest timer: its callback performs `acts` and is then done, or asks to run again
      at `time`.  The list ends up holding exactly the timers that the same steps on a map leave.
     */
    method Dispatch(acts: seq<Action>, done: bool, time: int, now: Ticks, ghost universe: set<Timer>)
      returns (nextWake: Ticks)
      requires Valid() && !dispatching && MayDoAll(Agenda(), acts, timerList, when[timerList])
      requires forall a :: a in acts ==> a.timer in universe - {deleted, periodic, sentinel}
      requires when.Keys <= universe && deleted in universe
      requires if done then timerList != periodic else timerList != deleted
      requires !done && timerList == periodic ==> time == when[periodic] + periodTicks
      requires !done ==> forall x :: x in AfterAll(Agenda(), acts) && x != timerList ==>
        -TWO31 < time - AfterAll(Agenda(), acts)[x] < TWO31
      modifies this, universe
      ensures Valid() && !dispatching && when.Keys <= universe
      ensures var agenda, t := AfterAll(old(Agenda()), acts), old(timerList);
              Agenda() == if done then agenda - {t} else agenda[t := time]
      ensures nextWake == Wrap(when[timerList]) && deleted !in when
      ensures forall x :: x in Agenda() ==> when[timerList] <= Agenda()[x]
    {
      hide Wrap, ValidList, MayDo;
      var t := BeginDispatch();
      for i := 0 to |acts|
        invariant Valid() && dispatching && timerList == t && when[t] == old(when[timerList])
        invariant Agenda() == AfterAll(old(Agenda()), acts[..i]) && when.Keys <= universe
      {
        MayDoPrefix(old(Agenda()), acts, t, old(when[timerList]), i + 1);
        assert acts[..i + 1][..i] == acts[..i];
        Perform(acts[i], now, universe);
      }
      assert acts[..|acts|] == acts;
      AllNodesDated();
      nextWake := EndDispatch(done, time, Wrap(time));
      KeysWithin(universe);
    }

    // ---------- a run ----------

    /** All timers are due within half the counter range after `now`. */
    ghost predicate Within(now: int)
      reads `when
    {
      forall x :: x in when && x != sentinel ==> now <= when[x] < now + TWO31
    }

    lemma WithinFrom(now: int)
      requires ValidList() && now <= when[timerList] < now + TWO31
      requires forall x :: x in Agenda() ==> now <= Agenda()[x] < now + TWO31
      ensures Within(now)
    {
      forall x | x in when && x != sentinel ensures now <= when[x] < now + TWO31 {
        assert x != deleted ==> x in Agenda() && Agenda()[x] == when[x];
      }
    }

    /** Set a timer, scheduled or not, some ticks after `now`. */
    method SetTimer(t: Timer, delay: int, nowTicks: Ticks, ghost now: int, ghost universe: set<Timer>)
      requires Valid() && !dispatching && Within(now) && nowTicks == Wrap(now) && 0 <= delay < TWO31
      requires t in universe - {deleted, periodic, sentinel} && when.Keys <= universe && deleted in universe
      modifies this, universe
      ensures Valid() && !dispatching && Within(now) && when.Keys <= universe
      ensures Agenda() == old(Agenda())[t := now + delay]
    {
      hide ValidList, Within, Agenda;
      CancelTimer(t, now, universe);
      StartTimer(t, delay, nowTicks, now, universe);
      ResetEntry(old(Agenda()), t, now + delay);
    }

    method StartTimer(t: Timer, delay: int, nowTicks: Ticks, ghost now: int, ghost universe: set<Timer>)
      requires Valid() && !dispatching && Within(now) && nowTicks == Wrap(now) && 0 <= delay < TWO31 && t !in when
      requires t in universe - {deleted, periodic, sentinel} && when.Keys <= universe && deleted in universe
      modifies this, universe
      ensures Valid() && !dispatching && Within(now) && when.Keys <= universe
      ensures Agenda() == old(Agenda())[t := now + delay]
    {
      hide Wrap, IsBefore, ValidList;
      InAgenda();
      AllNodesDated();
      WrapSum(now, delay);
      SetWaketime(t, Wrap(nowTicks + delay));
      NearIsExact(now + delay, now);
      var _ := AddTimer(t, now + delay, nowTicks, false);
      WithinFrom(now);
      KeysWithin(universe);
    }

    lemma InAgenda()
      requires ValidList()
      ensures timerList != sentinel
      ensures forall x :: x in when <==> x in Agenda() || x == sentinel || (x == deleted && deleted in when)
    {
      hide Wrap, Ordered;
      TailOfList();
    }

    method CancelTimer(t: Timer, ghost now: int, ghost universe: set<Timer>)
      requires Valid() && !dispatching && Within(now)
      requires t in universe - {deleted, periodic, sentinel} && when.Keys <= universe && deleted in universe
      modifies this, universe
      ensures Valid() && !dispatching && Within(now) && when.Keys <= universe && t !in when
      ensures Agenda() == old(Agenda()) - {t}
    {
      hide Wrap, ValidList;
      AllNodesDated();
      InAgenda();
      DelTimer(t);
      WithinFrom(now);
      KeysWithin(universe);
      InAgenda();
    }

    lemma PendingLater(now: int)
      requires ValidList() && Within(now)
      ensures forall x :: x in Agenda() ==> now <= Agenda()[x]
    {}
  }
}
