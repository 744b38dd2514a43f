/**
  The shared pool of move nodes (src/basecmd.c): one free list and any number of move queues,
  all threaded through the `next` links of a fixed array of nodes.

  Node numbers stand for addresses and -1 for NULL.  The ghost value `place` says of every node
  where it is, so that no node can be in two places.
 */
module MovePool {

  datatype Place = Free | Queued(queue: nat) | Held

  // ---------- lists threaded through an array ----------

  ghost predicate Threaded(next: seq<int>, head: int, s: seq<int>) {
    && (forall i :: 0 <= i < |s| ==> 0 <= s[i] < |next|)
    && head == (if s == [] then -1 else s[0])
    && (forall i :: 0 <= i < |s| - 1 ==> next[s[i]] == s[i + 1])
    && (s != [] ==> next[s[|s| - 1]] == -1)
  }

  /** The list `s` holds exactly the nodes at place `p`, each once. */
  ghost predicate Holds(place: seq<Place>, p: Place, s: seq<int>) {
    && (forall i :: 0 <= i < |s| ==> 0 <= s[i] < |place| && place[s[i]] == p)
    && (forall i, j :: 0 <= i < j < |s| ==> s[i] != s[j])
    && (forall n :: 0 <= n < |place| && place[n] == p ==> n in s)
  }

  ghost predicate ListOk(next: seq<int>, head: int, s: seq<int>, place: seq<Place>, p: Place) {
    |next| == |place| && Threaded(next, head, s) && Holds(place, p, s)
  }

  /** A change at a node elsewhere does not touch the list. */
  lemma ListFrame(next: seq<int>, head: int, s: seq<int>, place: seq<Place>, p: Place, m: int, v: int, q: Place)
    requires ListOk(next, head, s, place, p) && 0 <= m < |place| && place[m] != p && q != p
    ensures ListOk(next[m := v], head, s, place[m := q], p)
  {
    assert forall i :: 0 <= i < |s| ==> s[i] != m;
    ThreadedFrame(next, head, s, m, v);
    HoldsFrame(place, p, s, m, q);
  }

  lemma ThreadedFrame(next: seq<int>, head: int, s: seq<int>, m: int, v: int)
    requires Threaded(next, head, s) && 0 <= m < |next| && forall i :: 0 <= i < |s| ==> s[i] != m
    ensures Threaded(next[m := v], head, s)
  {}

  lemma HoldsFrame(place: seq<Place>, p: Place, s: seq<int>, m: int, q: Place)
    requires Holds(place, p, s) && 0 <= m < |place| && place[m] != p && q != p
    ensures Holds(place[m := q], p, s)
  {}

  lemma ListTail(next: seq<int>, head: int, s: seq<int>, place: seq<Place>, p: Place, q: Place)
    requires ListOk(next, head, s, place, p) && s != [] && q != p
    ensures ListOk(next, next[head], s[1..], place[head := q], p)
  {
    var t := s[1..];
    assert forall i :: 0 <= i < |t| ==> t[i] == s[i + 1];
    forall n | 0 <= n < |place| && place[head := q][n] == p ensures n in t {
      assert n in s && n != s[0];
    }
  }

  lemma ListCons(next: seq<int>, head: int, s: seq<int>, place: seq<Place>, p: Place, m: int)
    requires ListOk(next, head, s, place, p) && 0 <= m < |place| && place[m] != p
    ensures ListOk(next[m := head], m, [m] + s, place[m := p], p)
  {
    hide Holds, Threaded;
    Apart(place, p, s, m);
    HoldsCons(place, p, s, m);
    ThreadedCons(next, head, s, m);
  }

  lemma ThreadedCons(next: seq<int>, head: int, s: seq<int>, m: int)
    requires Threaded(next, head, s) && 0 <= m < |next| && forall i :: 0 <= i < |s| ==> s[i] != m
    ensures Threaded(next[m := head], m, [m] + s)
  {
    var t, nx := [m] + s, next[m := head];
    forall i | 0 <= i < |t| - 1 ensures nx[t[i]] == t[i + 1] {
      assert t[i + 1] == s[i];
      if i > 0 { assert t[i] == s[i - 1]; }
    }
  }

  lemma ListSnoc(next: seq<int>, head: int, s: seq<int>, place: seq<Place>, p: Place, m: int)
    requires ListOk(next, head, s, place, p) && 0 <= m < |place| && place[m] != p
    ensures s == [] ==> ListOk(next[m := -1], m, [m], place[m := p], p)
    ensures s != [] ==> ListOk(next[m := -1][s[|s| - 1] := m], head, s + [m], place[m := p], p)
  {
    hide Holds, Threaded;
    Apart(place, p, s, m);
    HoldsSnoc(place, p, s, m);
    if s == [] {
      assert s + [m] == [m];
      ThreadedOne(next, m);
    } else {
      LastOk(next, head, s, place, p);
      ThreadedSnoc(next, head, s, m);
    }
  }

  lemma ThreadedOne(next: seq<int>, m: int)
    requires 0 <= m < |next|
    ensures Threaded(next[m := -1], m, [m])
  {}

  lemma ThreadedSnoc(next: seq<int>, head: int, s: seq<int>, m: int)
    requires Threaded(next, head, s) && s != [] && 0 <= m < |next| && 0 <= s[|s| - 1] < |next|
    requires forall i :: 0 <= i < |s| ==> s[i] != m
    requires forall i :: 0 <= i < |s| - 1 ==> s[i] != s[|s| - 1]
    ensures Threaded(next[m := -1][s[|s| - 1] := m], head, s + [m])
  {
    var t, nx := s + [m], next[m := -1][s[|s| - 1] := m];
    forall i | 0 <= i < |t| - 1 ensures nx[t[i]] == t[i + 1] {
      assert t[i] == s[i];
      if i < |s| - 1 { assert t[i + 1] == s[i + 1]; }
    }
  }

  lemma HoldsCons(place: seq<Place>, p: Place, s: seq<int>, m: int)
    requires Holds(place, p, s) && 0 <= m < |place| && place[m] != p
    ensures Holds(place[m := p], p, [m] + s)
  {
    var t, pl := [m] + s, place[m := p];
    forall i | 1 <= i < |t| ensures t[i] == s[i - 1] && t[i] != m {}
    forall i, j | 0 <= i < j < |t| ensures t[i] != t[j] {
      if i > 0 { assert t[i] == s[i - 1] && t[j] == s[j - 1]; }
    }
    forall n | 0 <= n < |pl| && pl[n] == p ensures n in t {
      if n != m { InAppend([m], s, n); }
    }
  }

  lemma HoldsSnoc(place: seq<Place>, p: Place, s: seq<int>, m: int)
    requires Holds(place, p, s) && 0 <= m < |place| && place[m] != p
    ensures Holds(place[m := p], p, s + [m])
  {
    var t, pl := s + [m], place[m := p];
    forall i | 0 <= i < |s| ensures t[i] == s[i] && t[i] != m {}
    forall n | 0 <= n < |pl| && pl[n] == p ensures n in t {
      if n == m { assert t[|s|] == m; } else { InAppend(s, [m], n); }
    }
  }

  lemma InAppend(a: seq<int>, b: seq<int>, n: int)
    requires n in a || n in b
    ensures n in a + b
  {}

  /** A node elsewhere is not in the list, and the last node is there once. */
  lemma Apart(place: seq<Place>, p: Place, s: seq<int>, m: int)
    requires Holds(place, p, s) && 0 <= m < |place| && place[m] != p
    ensures forall i :: 0 <= i < |s| ==> s[i] != m
    ensures forall i :: 0 <= i < |s| - 1 ==> s[i] != s[|s| - 1]
  {}

  /** `values` is what the nodes of `s` store, in order. */
  ghost predicate Stored<T>(data: seq<T>, s: seq<int>, values: seq<T>) {
    |values| == |s| && forall i :: 0 <= i < |s| ==> 0 <= s[i] < |data| && values[i] == data[s[i]]
  }

  lemma StoredSnoc<T>(data: seq<T>, s: seq<int>, values: seq<T>, m: int)
    requires Stored(data, s, values) && 0 <= m < |data|
    ensures Stored(data, s + [m], values + [data[m]])
  {}

  lemma StoredTail<T>(data: seq<T>, s: seq<int>, values: seq<T>)
    requires Stored(data, s, values)
    ensures |s| == |values|
    ensures s != [] ==> Stored(data, s[1..], values[1..]) && 0 <= s[0] < |data| && data[s[0]] == values[0]
  {}

  lemma StoredFrame<T>(data: seq<T>, s: seq<int>, values: seq<T>, place: seq<Place>, p: Place, m: int, v: T)
    requires Stored(data, s, values) && Holds(place, p, s) && |place| == |data|
    requires 0 <= m < |data| && place[m] != p
    ensures Stored(data[m := v], s, values)
  {}

  datatype Handler = ResetAll | Clear(queue: nat)

  class Pool<T> {
    const next: array<int>
    const data: array<T>
    const first: array<int>
    const last: array<int>
    var freeHead: int
    ghost var free: seq<int>
    ghost var queues: seq<seq<int>>
    ghost var place: seq<Place>
    ghost var contents: seq<seq<T>>

    ghost function Repr(): set<object> { {this, next, data, first, last} }

    ghost predicate Shaped()
      reads this, first, last, next, data
    {
      && next != first && next != last && first != last
      && {data as object} !! {next as object, first, last}
      && next.Length == data.Length == |place| && first.Length == last.Length == |queues| == |contents|
      && (next.Length == 0 ==> freeHead == -1)
    }

    /** Every node is free, in one queue, or held by the running command. */
    ghost predicate Valid()
      reads this, first, last, next, data
      ensures Valid() ==> Shaped()
    {
      && Shaped()
      && ListOk(next[..], freeHead, free, place, Free)
      && (forall k :: 0 <= k < |queues| ==> QueueOk(k))
      && (forall n :: 0 <= n < |place| && place[n].Queued? ==> place[n].queue < |queues|)
    }

    /** No command holds a node. */
    ghost predicate Settled()
      reads this
    {
      forall n :: 0 <= n < |place| ==> place[n] != Held
    }

    /** Between commands every node is on the free list or in exactly one queue. */
    lemma Accounted(n: nat)
      requires Valid() && Settled() && n < |place|
      ensures if place[n] == Free then n in free && forall k :: 0 <= k < |queues| ==> n !in queues[k]
              else && n !in free && place[n].Queued? && place[n].queue < |queues| && n in queues[place[n].queue]
                   && forall k :: 0 <= k < |queues| && k != place[n].queue ==> n !in queues[k]
    {
      forall k | 0 <= k < |queues| ensures n in queues[k] <==> place[n] == Queued(k) { assert QueueOk(k); }
    }

    ghost predicate QueueOk(k: nat)
      requires Shaped() && k < |queues|
      reads this, first, last, next, data
    {
      && ListOk(next[..], first[k], queues[k], place, Queued(k))
      && (queues[k] != [] ==> last[k] == queues[k][|queues[k]| - 1])
      && Stored(data[..], queues[k], contents[k])
    }

    /** Empty queues over `size` free nodes. */
    constructor (size: nat, queueCount: nat, blank: T)
      ensures Valid() && fresh(Repr()) && |place| == size && |queues| == queueCount
      ensures forall n :: 0 <= n < size ==> place[n] == Free
      ensures forall k :: 0 <= k < queueCount ==> contents[k] == []
    {
      next, data := new int[size], new T[size](_ => blank);
      first, last := new int[queueCount](_ => -1), new int[queueCount](_ => -1);
      freeHead := -1;
      place := seq(size, _ => Free);
      queues, contents := seq(queueCount, _ => []), seq(queueCount, _ => []);
      new;
      hide Threaded, Numbers, ListOk;
      Reset();
      AllFree(next[..], freeHead, place);
      forall k | 0 <= k < queueCount ensures QueueOk(k) { NoneAt(next[..], place, Queued(k)); }
    }

    /** Lists other than those at the old and the new place of a node do not notice it move. */
    lemma QueuesFrame(m: int, v: int, q: Place)
      requires Valid() && 0 <= m < |place|
      ensures forall k :: 0 <= k < |queues| && place[m] != Queued(k) && q != Queued(k) ==>
        && ListOk(next[..][m := v], first[k], queues[k], place[m := q], Queued(k))
        && (queues[k] != [] ==> last[k] == queues[k][|queues[k]| - 1])
        && Stored(data[..], queues[k], contents[k])
    {
      hide ListOk, Stored;
      forall k | 0 <= k < |queues| && place[m] != Queued(k) && q != Queued(k)
        ensures ListOk(next[..][m := v], first[k], queues[k], place[m := q], Queued(k))
                && (queues[k] != [] ==> last[k] == queues[k][|queues[k]| - 1])
                && Stored(data[..], queues[k], contents[k])
      {
        assert QueueOk(k);
        ListFrame(next[..], first[k], queues[k], place, Queued(k), m, v, q);
      }
    }

    /** Take a node from the free list; none left is a "Move queue overflow" shutdown. */
    method Alloc() returns (m: int)
      requires Valid()
      modifies `freeHead, `free, `place
      ensures Valid() && (m < 0 <==> old(free) == [])
      ensures m < 0 ==> free == old(free) && place == old(place)
      ensures m >= 0 ==> m < |old(place)| && old(place)[m] == Free && place == old(place)[m := Held]
      ensures m >= 0 ==> m == old(free)[0] && free == old(free)[1..]
    {
      m := freeHead;
      HeadOk(next[..], freeHead, free, place, Free);
      if m < 0 {
        return;
      }
      hide ListOk, Stored;
      ListTail(next[..], freeHead, free, place, Free, Held);
      QueuesFrame(m, next[m], Held);
      assert next[..][m := next[m]] == next[..];
      freeHead := next[m];
      free, place := free[1..], place[m := Held];
    }

    /** Put a held node back on the free list. */
    method FreeNode(m: int)
      requires Valid() && 0 <= m < |place| && place[m] == Held
      modifies `freeHead, `free, `place, next
      ensures Valid() && place == old(place)[m := Free] && free == [m] + old(free)
    {
      hide ListOk, Stored;
      ListCons(next[..], freeHead, free, place, Free, m);
      QueuesFrame(m, freeHead, Free);
      next[m] := freeHead;
      freeHead := m;
      free, place := [m] + free, place[m := Free];
    }

    /** Fill in a held node: no queue sees it. */
    method Store(m: int, v: T)
      requires Valid() && 0 <= m < |place| && place[m] == Held
      modifies data
      ensures Valid() && data[..] == old(data[..])[m := v]
    {
      hide ListOk, Stored;
      StoreFrame(m, v);
      data[m] := v;
    }

    lemma StoreFrame(m: int, v: T)
      requires Valid() && 0 <= m < |place| && place[m] == Held
      ensures forall k :: 0 <= k < |queues| ==>
        && ListOk(next[..], first[k], queues[k], place, Queued(k))
        && (queues[k] != [] ==> last[k] == queues[k][|queues[k]| - 1])
        && Stored(data[..][m := v], queues[k], contents[k])
    {
      hide Threaded, Holds, Stored;
      forall k | 0 <= k < |queues|
        ensures ListOk(next[..], first[k], queues[k], place, Queued(k))
        ensures queues[k] != [] ==> last[k] == queues[k][|queues[k]| - 1]
        ensures Stored(data[..][m := v], queues[k], contents[k])
      {
        assert QueueOk(k);
        StoredFrame(data[..], queues[k], contents[k], place, Queued(k), m, v);
      }
    }

    /** Append a held node to a queue; says whether the queue was empty. */
    method Push(m: int, k: nat) returns (wasEmpty: bool)
      requires Valid() && k < |queues| && 0 <= m < |place| && place[m] == Held
      modifies `queues, `place, `contents, next, first, last
      ensures Valid() && place == old(place)[m := Queued(k)] && queues == old(queues)[k := old(queues)[k] + [m]]
      ensures contents == old(contents)[k := old(contents)[k] + [data[m]]] && wasEmpty == (old(contents)[k] == [])
    {
      hide ListOk, Stored;
      ghost var before, p := next[..], Queued(k);
      assert QueueOk(k);
      HeadOk(before, first[k], queues[k], place, p);
      LastOk(before, first[k], queues[k], place, p);
      ListSnoc(before, first[k], queues[k], place, p, m);
      PushFrame(m, k);
      next[m] := -1;
      wasEmpty := first[k] < 0;
      if wasEmpty {
        first[k], last[k] := m, m;
      } else {
        next[last[k]] := m;
        last[k] := m;
      }
      assert next[..] == if wasEmpty then before[m := -1] else before[m := -1][old(last[k]) := m];
      assert wasEmpty ==> queues[k] + [m] == [m];
      StoredSnoc(data[..], queues[k], contents[k], m);
      contents := contents[k := contents[k] + [data[m]]];
      queues, place := queues[k := queues[k] + [m]], place[m := p];
    }

    lemma PushFrame(m: int, k: nat)
      requires Valid() && k < |queues| && 0 <= m < |place| && place[m] == Held
      requires queues[k] != [] ==> 0 <= last[k] < next.Length
      ensures var l := last[k];
              var after := if queues[k] == [] then next[..][m := -1] else next[..][m := -1][l := m];
              && ListOk(after, freeHead, free, place[m := Queued(k)], Free)
              && forall j :: 0 <= j < |queues| && j != k ==>
                   && ListOk(after, first[j], queues[j], place[m := Queued(k)], Queued(j))
                   && (queues[j] != [] ==> last[j] == queues[j][|queues[j]| - 1])
                   && Stored(data[..], queues[j], contents[j])
    {
      hide ListOk, Stored;
      var nx, pl, l := next[..][m := -1], place[m := Queued(k)], last[k];
      assert QueueOk(k);
      LastOk(next[..], first[k], queues[k], place, Queued(k));
      ListFrame(next[..], freeHead, free, place, Free, m, -1, Queued(k));
      if queues[k] != [] {
        assert pl[l := Queued(k)] == pl;
        ListFrame(nx, freeHead, free, pl, Free, l, m, Queued(k));
      }
      forall j | 0 <= j < |queues| && j != k
        ensures ListOk(if queues[k] == [] then nx else nx[l := m], first[j], queues[j], pl, Queued(j))
                && (queues[j] != [] ==> last[j] == queues[j][|queues[j]| - 1])
                && Stored(data[..], queues[j], contents[j])
      {
        assert QueueOk(j);
        ListFrame(next[..], first[j], queues[j], place, Queued(j), m, -1, Queued(k));
        if queues[k] != [] { ListFrame(nx, first[j], queues[j], pl, Queued(j), l, m, Queued(k)); }
      }
    }

    method IsEmpty(k: nat) returns (empty: bool)
      requires Valid() && k < |queues|
      ensures empty <==> contents[k] == []
    {
      hide ListOk, Stored;
      assert QueueOk(k);
      HeadOk(next[..], first[k], queues[k], place, Queued(k));
      StoredTail(data[..], queues[k], contents[k]);
      empty := first[k] < 0;
    }

    lemma SameSize(k: nat)
      requires Valid() && k < |queues|
      ensures |queues[k]| == |contents[k]|
    {
      assert QueueOk(k);
    }

    /** The queue holds every node that says so. */
    lemma NoneLeft(k: nat)
      requires Valid() && k < |queues| && contents[k] == []
      ensures forall n :: 0 <= n < |place| ==> place[n] != Queued(k)
    {
      assert QueueOk(k);
    }

    /** Take the first node off a queue that is not empty. */
    method Pop(k: nat) returns (m: int)
      requires Valid() && k < |queues| && contents[k] != []
      modifies `queues, `place, `contents, first
      ensures Valid() && |old(queues)[k]| == |old(contents)[k]| && m == old(queues)[k][0]
      ensures 0 <= m < |old(place)| && old(place)[m] == Queued(k)
      ensures data[m] == old(contents)[k][0] && contents == old(contents)[k := old(contents)[k][1..]]
      ensures place == old(place)[m := Held] && queues == old(queues)[k := old(queues)[k][1..]]
    {
      hide ListOk, Stored;
      assert QueueOk(k);
      StoredTail(data[..], queues[k], contents[k]);
      HeadOk(next[..], first[k], queues[k], place, Queued(k));
      ListTail(next[..], first[k], queues[k], place, Queued(k), Held);
      m := first[k];
      QueuesFrame(m, next[m], Held);
      ListFrame(next[..], freeHead, free, place, Free, m, next[m], Held);
      assert next[..][m := next[m]] == next[..];
      first[k] := next[m];
      contents := contents[k := contents[k][1..]];
      queues, place := queues[k := queues[k][1..]], place[m := Held];
    }

    // ---------- shutdown ----------

    /** Rebuild the free list from all nodes, whatever the queues hold. */
    method Reset()
      requires Shaped()
      modifies `freeHead, `free, next
      ensures Shaped() && Threaded(next[..], freeHead, free) && free == Numbers(next.Length)
    {
      free := Numbers(next.Length);
      if next.Length == 0 {
        return;
      }
      freeHead := 0;
      for i := 0 to next.Length - 1
        invariant forall j :: 0 <= j < i ==> next[j] == j + 1
        modifies next
      {
        next[i] := i + 1;
      }
      next[next.Length - 1] := -1;
    }

    /** Forget a queue without freeing its nodes. */
    method ClearQueue(k: nat)
      requires Shaped() && k < |queues|
      modifies first
      ensures Shaped() && first[k] == -1 && forall j :: 0 <= j < first.Length && j != k ==> first[j] == old(first[j])
    {
      first[k] := -1;
    }

    /**
      Run the shutdown handlers in any order, from any state, even one where a command was
      interrupted holding a node: all queues end up empty and every node is free.
     */
    method Shutdown(order: seq<Handler>)
      requires Shaped()
      requires ResetAll in order && forall k :: 0 <= k < |queues| ==> Clear(k) in order
      requires forall i :: 0 <= i < |order| && order[i].Clear? ==> order[i].queue < |queues|
      modifies this, next, first
      ensures Valid() && (forall k :: 0 <= k < |queues| ==> contents[k] == [])
      ensures forall n :: 0 <= n < |place| ==> place[n] == Free
    {
      hide Threaded, Numbers, ListOk;
      ghost var count := |queues|;
      for i := 0 to |order|
        invariant Shaped() && |queues| == count
        invariant ResetAll in order[..i] ==> Threaded(next[..], freeHead, free) && free == Numbers(next.Length)
        invariant forall k :: 0 <= k < count && Clear(k) in order[..i] ==> first[k] == -1
      {
        assert order[..i + 1] == order[..i] + [order[i]];
        match order[i] {
          case ResetAll => Reset();
          case Clear(k) => ClearQueue(k);
        }
      }
      assert order[..|order|] == order;
      queues, contents := seq(count, _ => []), seq(count, _ => []);
      place := seq(next.Length, _ => Free);
      AllFree(next[..], freeHead, place);
      forall k | 0 <= k < count ensures QueueOk(k) { NoneAt(next[..], place, Queued(k)); }
    }
  }

  function Numbers(n: nat): (s: seq<int>)
    ensures |s| == n && forall i :: 0 <= i < n ==> s[i] == i
  {
    seq(n, i => i)
  }

  lemma AllFree(next: seq<int>, head: int, place: seq<Place>)
    requires Threaded(next, head, Numbers(|next|)) && |place| == |next|
    requires forall n :: 0 <= n < |place| ==> place[n] == Free
    ensures ListOk(next, head, Numbers(|next|), place, Free)
  {
    var s := Numbers(|next|);
    forall n | 0 <= n < |place| ensures n in s { assert s[n] == n; }
  }

  lemma NoneAt(next: seq<int>, place: seq<Place>, p: Place)
    requires |place| == |next| && p != Free && forall n :: 0 <= n < |place| ==> place[n] == Free
    ensures ListOk(next, -1, [], place, p)
  {}

  lemma LastOk(next: seq<int>, head: int, s: seq<int>, place: seq<Place>, p: Place)
    requires ListOk(next, head, s, place, p)
    ensures s != [] ==> 0 <= s[|s| - 1] < |place| && place[s[|s| - 1]] == p
  {}

  lemma HeadOk(next: seq<int>, head: int, s: seq<int>, place: seq<Place>, p: Place)
    requires ListOk(next, head, s, place, p)
    ensures head < 0 <==> s == []
    ensures s != [] ==> head == s[0] && head < |place| && place[head] == p
  {}
}
