/**
  Message blocks on the serial line: the parser of the micro-controller (src/command.c) with its
  resynchronisation and sequence numbers, the framing of outgoing messages, and the host's packet
  check (klippy/msgproto.py).

  `Find` is one look at the receive buffer, `Drain` the repeated look that a stream of bytes causes.
 */
module MessageBlock {
  import Crc

  const MESSAGE_MIN := 5
  const MESSAGE_MAX := 64
  const MESSAGE_TRAILER_SIZE := 3
  const MESSAGE_SYNC: bv8 := 0x7e
  const MESSAGE_SEQ_MASK: bv8 := 0x0f
  const MESSAGE_DEST: bv8 := 0x10

  type Bytes = seq<bv8>

  // ---------- one look at the buffer ----------

  /** The second byte of a block: a destination, and a sequence number in the low bits. */
  predicate Addressed(b: bv8) { b & !MESSAGE_SEQ_MASK == MESSAGE_DEST }

  /** What the parser can say about the block at the start of the buffer. */
  datatype Verdict = NeedMore | Bad | Block(len: nat)

  function Examine(buf: Bytes): Verdict {
    if |buf| < MESSAGE_MIN then NeedMore
    else
      var n := buf[0] as int;
      if n < MESSAGE_MIN || n > MESSAGE_MAX then Bad
      else if !Addressed(buf[1]) then Bad
      else if |buf| < n then NeedMore
      else if buf[n - 1] != MESSAGE_SYNC then Bad
      else if buf[n - 3] != Crc.Hi(Crc.Of(buf[..n - 3])) || buf[n - 2] != Crc.Lo(Crc.Of(buf[..n - 3])) then Bad
      else Block(n)
  }

  datatype State = State(needSync: bool, needValid: bool, nextSequence: bv8)

  datatype Event =
    | Accept(block: Bytes)
    | NakSequence(block: Bytes)
    | NakGarbled

  /** Outcome of one look: how many bytes to pop (none means wait for more), and what happened. */
  datatype Look = Look(pop: nat, state: State, events: seq<Event>)

  function SyncIndex(buf: Bytes): (i: nat)
    ensures i <= |buf| && (i < |buf| ==> buf[i] == MESSAGE_SYNC)
    ensures forall j :: 0 <= j < i ==> buf[j] != MESSAGE_SYNC
  {
    if buf == [] then 0 else if buf[0] == MESSAGE_SYNC then 0 else 1 + SyncIndex(buf[1..])
  }

  /** Discard bytes up to and including the next SYNC. */
  function Discard(st: State, buf: Bytes): Look {
    var i := SyncIndex(buf);
    Look(if i < |buf| then i + 1 else i,
         st.(needSync := i == |buf|, needValid := true),
         if st.needValid then [] else [NakGarbled])
  }

  function NextSequence(s: bv8): bv8 { ((s + 1) & MESSAGE_SEQ_MASK) | MESSAGE_DEST }

  function Find(st: State, buf: Bytes): (r: Look)
    ensures r.pop <= |buf|
  {
    if buf != [] && st.needSync then Discard(st, buf)
    else match Examine(buf)
      case NeedMore => Look(0, st, [])
      case Bad => if buf[0] == MESSAGE_SYNC then Look(1, st, []) else Discard(st, buf)
      case Block(n) =>
        var ok := st.(needValid := false);
        if buf[1] != st.nextSequence then Look(n, ok, [NakSequence(buf[..n])])
        else Look(n, ok.(nextSequence := NextSequence(buf[1])), [Accept(buf[..n])])
  }

  // ---------- whole streams ----------

  /** What became of a stream: the events so far, the bytes left in the buffer, the parser state. */
  datatype Parse = Parse(events: seq<Event>, rest: Bytes, state: State) {
    function After(earlier: seq<Event>): Parse { this.(events := earlier + events) }
  }

  /** Look until more data is needed. */
  function Drain(st: State, buf: Bytes): Parse
    decreases |buf|
  {
    var r := Find(st, buf);
    if r.pop == 0 then Parse([], buf, st) else Drain(r.state, buf[r.pop..]).After(r.events)
  }

  /** Bytes arriving in chunks, each appended to what the parser left in the buffer. */
  function Feed(st: State, rest: Bytes, chunks: seq<Bytes>): Parse
    decreases |chunks|
  {
    if chunks == [] then Parse([], rest, st)
    else
      var p := Drain(st, rest + chunks[0]);
      Feed(p.state, p.rest, chunks[1..]).After(p.events)
  }

  function Flatten(chunks: seq<Bytes>): Bytes {
    if chunks == [] then [] else chunks[0] + Flatten(chunks[1..])
  }

  // ---------- chunking does not matter ----------

  lemma ExamineStable(a: Bytes, b: Bytes)
    requires !Examine(a).NeedMore?
    ensures Examine(a + b) == Examine(a)
  {
    var n := a[0] as int;
    if MESSAGE_MIN <= n <= MESSAGE_MAX && n <= |a| {
      assert (a + b)[..n - 3] == a[..n - 3];
    }
  }

  lemma {:induction false} SyncIndexConcat(a: Bytes, b: Bytes)
    ensures SyncIndex(a + b) == if SyncIndex(a) < |a| then SyncIndex(a) else |a| + SyncIndex(b)
  {
    if a == [] {
      assert a + b == b;
    } else {
      assert (a + b)[1..] == a[1..] + b;
      SyncIndexConcat(a[1..], b);
    }
  }

  /** A look that pops less than everything, or ends on a SYNC, is the same on a longer buffer. */
  lemma FindStable(st: State, a: Bytes, b: Bytes)
    requires Find(st, a).pop > 0 && !Find(st, a).state.needSync
    ensures Find(st, a + b) == Find(st, a)
  {
    hide Crc.Of, Crc.Hi, Crc.Lo, Examine;
    SyncIndexConcat(a, b);
    if !st.needSync {
      ExamineStable(a, b);
      match Examine(a)
      case Block(n) => BlockBounds(a); assert (a + b)[..n] == a[..n];
      case _ =>
    }
  }

  lemma BlockBounds(buf: Bytes)
    ensures Examine(buf).Block? ==> MESSAGE_MIN <= Examine(buf).len <= |buf| && Examine(buf).len <= MESSAGE_MAX
    ensures Examine(buf).Bad? ==> |buf| >= MESSAGE_MIN
  {}

  /** A look that threw everything away goes on throwing away what comes next. */
  lemma DiscardContinues(st: State, a: Bytes, b: Bytes)
    requires Find(st, a).pop > 0 && Find(st, a).state.needSync && b != []
    ensures var r, s := Find(st, a), Find(Find(st, a).state, b);
            r.pop == |a| && Find(st, a + b) == Look(|a| + s.pop, s.state, r.events) && s.events == [] && s.pop > 0
  {
    hide Crc.Of, Crc.Hi, Crc.Lo, Examine;
    SyncIndexConcat(a, b);
    BlockBounds(a);
    if !st.needSync { ExamineStable(a, b); }
  }

  /** Parsing a stream in two parts is parsing it whole. */
  lemma {:induction false} DrainSplit(st: State, a: Bytes, b: Bytes)
    ensures var p := Drain(st, a);
            Drain(st, a + b) == Drain(p.state, p.rest + b).After(p.events)
    decreases |a|
  {
    hide Find, Drain, Parse.After;
    var r := Find(st, a);
    DrainStep(st, a);
    if r.pop == 0 {
      AfterNothing(Drain(st, a + b));
    } else if !r.state.needSync {
      FindStable(st, a, b);
      DrainStep(st, a + b);
      assert (a + b)[r.pop..] == a[r.pop..] + b;
      DrainSplit(r.state, a[r.pop..], b);
      var q := Drain(r.state, a[r.pop..]);
      AfterTwice(Drain(q.state, q.rest + b), r.events, q.events);
      AfterFields(q, r.events);
    } else {
      SplitWhileDiscarding(st, a, b);
    }
  }

  lemma SplitWhileDiscarding(st: State, a: Bytes, b: Bytes)
    requires Find(st, a).pop > 0 && Find(st, a).state.needSync
    ensures var p := Drain(st, a);
            Drain(st, a + b) == Drain(p.state, p.rest + b).After(p.events)
  {
    hide Find, Parse.After;
    var r := Find(st, a);
    DiscardAll(st, a);
    FindEmpty(r.state);
    assert Drain(st, a) == Parse([], [], r.state).After(r.events);
    AfterFields(Parse([], [], r.state), r.events);
    assert [] + b == b && r.events + [] == r.events;
    if b == [] {
      assert a + b == a;
      assert Drain(r.state, b) == Parse([], [], r.state);
    } else {
      DiscardContinues(st, a, b);
      var s := Find(r.state, b);
      assert (a + b)[|a| + s.pop..] == b[s.pop..];
      AfterNothing(Drain(s.state, b[s.pop..]));
    }
  }

  lemma DiscardAll(st: State, a: Bytes)
    requires Find(st, a).pop > 0 && Find(st, a).state.needSync
    ensures Find(st, a).pop == |a|
  {}

  lemma DrainStep(st: State, buf: Bytes)
    ensures var r := Find(st, buf);
            Drain(st, buf) == if r.pop == 0 then Parse([], buf, st) else Drain(r.state, buf[r.pop..]).After(r.events)
  {}

  lemma AfterNothing(p: Parse)
    ensures p.After([]) == p
  {
    assert [] + p.events == p.events;
  }

  lemma AfterFields(p: Parse, a: seq<Event>)
    ensures p.After(a).rest == p.rest && p.After(a).state == p.state && p.After(a).events == a + p.events
  {}

  lemma AfterTwice(p: Parse, a: seq<Event>, b: seq<Event>)
    ensures p.After(b).After(a) == p.After(a + b)
  {
    assert a + (b + p.events) == (a + b) + p.events;
  }

  lemma FindEmpty(st: State)
    ensures Find(st, []) == Look(0, st, [])
  {}

  /** After a drain the parser waits. */
  lemma {:induction false} DrainIdle(st: State, buf: Bytes)
    ensures var p := Drain(st, buf); Find(p.state, p.rest).pop == 0
    decreases |buf|
  {
    hide Find;
    var r := Find(st, buf);
    if r.pop > 0 { DrainIdle(r.state, buf[r.pop..]); }
  }

  /** Any way of cutting a stream into chunks yields the same events, leftover bytes and state. */
  lemma {:induction false} ChunkingInvariant(st: State, rest: Bytes, chunks: seq<Bytes>)
    requires Find(st, rest).pop == 0
    ensures Feed(st, rest, chunks) == Drain(st, rest + Flatten(chunks))
    decreases |chunks|
  {
    hide Find;
    if chunks == [] {
      assert rest + Flatten(chunks) == rest;
    } else {
      var p := Drain(st, rest + chunks[0]);
      DrainIdle(st, rest + chunks[0]);
      ChunkingInvariant(p.state, p.rest, chunks[1..]);
      DrainSplit(st, rest + chunks[0], Flatten(chunks[1..]));
      assert rest + chunks[0] + Flatten(chunks[1..]) == rest + Flatten(chunks);
    }
  }

  // ---------- resynchronisation ----------

  function Syncs(n: nat): (s: Bytes)
    ensures |s| == n && forall i :: 0 <= i < n ==> s[i] == MESSAGE_SYNC
  {
    seq(n, _ => MESSAGE_SYNC)
  }

  /** Leading SYNC bytes are skipped one by one, whatever the state. */
  lemma {:induction false} SkipSyncs(st: State, n: nat, tail: Bytes) returns (events: seq<Event>, st': State)
    requires |tail| >= 4 && (n == 0 ==> !st.needSync)
    ensures Drain(st, Syncs(n) + tail) == Drain(st', tail).After(events) && !st'.needSync
    decreases n
  {
    hide Find, Drain, Parse.After;
    if n == 0 {
      assert Syncs(n) + tail == tail;
      AfterNothing(Drain(st, tail));
      return [], st;
    }
    var buf := Syncs(n) + tail;
    var r := Find(st, buf);
    LeadingSync(st, buf);
    DrainStep(st, buf);
    assert buf[1..] == Syncs(n - 1) + tail;
    var more;
    more, st' := SkipSyncs(r.state, n - 1, tail);
    AfterTwice(Drain(st', tail), r.events, more);
    events := r.events + more;
  }

  lemma LeadingSync(st: State, buf: Bytes)
    requires |buf| >= MESSAGE_MIN && buf[0] == MESSAGE_SYNC
    ensures Find(st, buf).pop == 1 && !Find(st, buf).state.needSync
  {
    assert (MESSAGE_SYNC as int) == 0x7e;
  }

  /** Garbage followed by a full block length of SYNC bytes cannot reach into what follows. */
  lemma {:induction false} GarbageStep(st: State, g: Bytes, tail: Bytes)
    requires g != []
    ensures var r := Find(st, g + Syncs(MESSAGE_MAX) + tail);
            0 < r.pop < |g| + MESSAGE_MAX
  {
    var buf := g + Syncs(MESSAGE_MAX) + tail;
    BlockBounds(buf);
    assert buf[|g|] == MESSAGE_SYNC;
  }

  /**
    From any parser state, any bytes followed by 64 SYNC bytes leave the parser looking at the
    first byte of what comes next.
   */
  lemma {:induction false} Resynchronises(st: State, g: Bytes, tail: Bytes) returns (events: seq<Event>, st': State)
    requires |tail| >= 4
    ensures Drain(st, g + Syncs(MESSAGE_MAX) + tail) == Drain(st', tail).After(events) && !st'.needSync
    decreases |g|
  {
    hide Find, Drain, Parse.After;
    var buf := g + Syncs(MESSAGE_MAX) + tail;
    if g == [] {
      assert buf == Syncs(MESSAGE_MAX) + tail;
      events, st' := SkipSyncs(st, MESSAGE_MAX, tail);
      return;
    }
    var r := Find(st, buf);
    GarbageStep(st, g, tail);
    DrainStep(st, buf);
    var more;
    if r.pop < |g| {
      assert buf[r.pop..] == g[r.pop..] + Syncs(MESSAGE_MAX) + tail;
      more, st' := Resynchronises(r.state, g[r.pop..], tail);
    } else {
      var n := |g| + MESSAGE_MAX - r.pop;
      assert buf[r.pop..] == Syncs(n) + tail;
      more, st' := SkipSyncs(r.state, n, tail);
    }
    AfterTwice(Drain(st', tail), r.events, more);
    events := r.events + more;
  }

  /** The block that follows is accepted, or refused for its sequence number alone. */
  lemma BlockAfterResync(st: State, g: Bytes, block: Bytes, tail: Bytes) returns (events: seq<Event>, st': State)
    requires Examine(block) == Block(|block|)
    ensures var p := Drain(st, g + Syncs(MESSAGE_MAX) + (block + tail));
            && |p.events| > |events| && p.events[..|events|] == events
            && p.events[|events|] == if block[1] == st'.nextSequence then Accept(block) else NakSequence(block)
  {
    hide Drain, Parse.After;
    BlockBounds(block);
    events, st' := Resynchronises(st, g, block + tail);
    ExamineStable(block, tail);
    DrainStep(st', block + tail);
    assert (block + tail)[..|block|] == block;
    var r := Find(st', block + tail);
    AfterFields(Drain(r.state, (block + tail)[r.pop..]), r.events);
    AfterFields(Drain(st', block + tail), events);
  }

  // ---------- exactly-once delivery ----------

  /** The sequence byte of message number `n`. */
  function SequenceOf(n: nat): bv8 { ((n % 16) as bv8) | MESSAGE_DEST }

  lemma SequenceOfNext(n: nat)
    ensures NextSequence(SequenceOf(n)) == SequenceOf(n + 1)
  {
    var k := n % 16;
    assert (n + 1) % 16 == if k == 15 then 0 else k + 1;
    NibbleNext(k);
  }

  lemma NibbleNext(k: nat)
    requires k < 16
    ensures NextSequence((k as bv8) | MESSAGE_DEST) == ((if k == 15 then 0 else k + 1) as bv8) | MESSAGE_DEST
  {
    if k < 15 { assert (k + 1) as bv8 == (k as bv8) + 1; }
  }

  lemma SequenceOfWindow(m: nat, n: nat)
    requires SequenceOf(m) == SequenceOf(n) && -16 < m - n < 16
    ensures m == n
  {
    assert m % 16 == n % 16 by { NibbleInjective(m % 16, n % 16); }
  }

  lemma NibbleInjective(j: nat, k: nat)
    requires j < 16 && k < 16 && (j as bv8) | MESSAGE_DEST == (k as bv8) | MESSAGE_DEST
    ensures j == k
  {}

  /**
    `numbers` are the numbers of the messages whose intact blocks the parser meets, in order; each
    is less than 16 away from the message expected at that moment.
   */
  predicate InWindow(events: seq<Event>, numbers: seq<nat>, expected: nat) {
    if events == [] then numbers == []
    else if events[0].NakGarbled? then InWindow(events[1..], numbers, expected)
    else
      && numbers != [] && |events[0].block| >= MESSAGE_MIN && events[0].block[1] == SequenceOf(numbers[0])
      && -16 < numbers[0] - expected < 16
      && InWindow(events[1..], numbers[1..], if events[0].Accept? then expected + 1 else expected)
  }

  /** The numbers of the messages that are dispatched. */
  function Delivered(events: seq<Event>, numbers: seq<nat>): seq<nat> {
    if events == [] || numbers == [] then []
    else if events[0].NakGarbled? then Delivered(events[1..], numbers)
    else (if events[0].Accept? then [numbers[0]] else []) + Delivered(events[1..], numbers[1..])
  }

  /** Messages are dispatched in order, each once, none skipped, however often blocks are resent. */
  lemma {:induction false} ExactlyOnce(st: State, buf: Bytes, numbers: seq<nat>, expected: nat)
    requires st.nextSequence == SequenceOf(expected)
    requires InWindow(Drain(st, buf).events, numbers, expected)
    ensures var p := Drain(st, buf);
            var d := Delivered(p.events, numbers);
            && (forall i :: 0 <= i < |d| ==> d[i] == expected + i)
            && p.state.nextSequence == SequenceOf(expected + |d|)
    decreases |buf|
  {
    hide SequenceOf, NextSequence, Find, Drain, InWindow, Delivered;
    var r := Find(st, buf);
    DrainStep(st, buf);
    FindEvents(st, buf);
    if r.pop == 0 {
      DeliveredNothing(numbers);
    } else {
      var p := Drain(r.state, buf[r.pop..]);
      var events := Drain(st, buf).events;
      assert events == r.events + p.events;
      if r.events == [] {
        assert events == p.events;
        ExactlyOnce(r.state, buf[r.pop..], numbers, expected);
      } else {
        assert events[0] == r.events[0] && events[1..] == p.events;
        DeliveredStep(events, numbers, expected);
        if r.events[0].NakGarbled? {
          ExactlyOnce(r.state, buf[r.pop..], numbers, expected);
        } else if r.events[0].NakSequence? {
          ExactlyOnce(r.state, buf[r.pop..], numbers[1..], expected);
        } else {
          SequenceOfWindow(numbers[0], expected);
          SequenceOfNext(expected);
          ExactlyOnce(r.state, buf[r.pop..], numbers[1..], expected + 1);
        }
      }
    }
  }

  lemma DeliveredNothing(numbers: seq<nat>)
    ensures Delivered([], numbers) == []
  {}

  lemma DeliveredStep(events: seq<Event>, numbers: seq<nat>, expected: nat)
    requires events != [] && InWindow(events, numbers, expected)
    ensures events[0].NakGarbled? ==>
      InWindow(events[1..], numbers, expected) && Delivered(events, numbers) == Delivered(events[1..], numbers)
    ensures !events[0].NakGarbled? ==>
      && numbers != [] && |events[0].block| >= MESSAGE_MIN && events[0].block[1] == SequenceOf(numbers[0])
      && -16 < numbers[0] - expected < 16
      && InWindow(events[1..], numbers[1..], if events[0].Accept? then expected + 1 else expected)
    ensures events[0].NakSequence? ==> Delivered(events, numbers) == Delivered(events[1..], numbers[1..])
    ensures events[0].Accept? ==> Delivered(events, numbers) == [numbers[0]] + Delivered(events[1..], numbers[1..])
  {
    hide SequenceOf;
  }

  /** One look causes at most one event, and only an accepted block advances the sequence number. */
  lemma FindEvents(st: State, buf: Bytes)
    ensures var r := Find(st, buf);
            && |r.events| <= 1
            && (r.events == [] || !r.events[0].Accept? ==> r.state.nextSequence == st.nextSequence)
            && (r.events != [] && r.events[0].Accept? ==>
                  |r.events[0].block| >= MESSAGE_MIN && r.events[0].block[1] == st.nextSequence
                  && r.state.nextSequence == NextSequence(st.nextSequence))
  {
    hide NextSequence, Examine, SyncIndex;
    BlockBounds(buf);
  }

  // ---------- acknowledgements ----------

  /** How a stream falls into pieces: intact blocks, single SYNC bytes that are skipped, and bytes thrown away. */
  datatype Piece = Whole(bytes: Bytes) | Skipped(bytes: Bytes) | Thrown(bytes: Bytes)

  /** The first piece of a stream, of which `n` bytes are taken. */
  ghost function PieceOf(needSync: bool, buf: Bytes, n: nat): Piece
    requires n <= |buf|
  {
    if needSync then Thrown(buf[..n])
    else if Examine(buf).Block? then Whole(buf[..n])
    else if n == 1 && buf[0] == MESSAGE_SYNC then Skipped(buf[..n])
    else Thrown(buf[..n])
  }

  ghost function Pieces(st: State, buf: Bytes): seq<Piece>
    decreases |buf|
  {
    var r := Find(st, buf);
    if r.pop == 0 then [] else [PieceOf(st.needSync, buf, r.pop)] + Pieces(r.state, buf[r.pop..])
  }

  ghost function Contents(ps: seq<Piece>): Bytes {
    if ps == [] then [] else ps[0].bytes + Contents(ps[1..])
  }

  /** Intact blocks pass the checks, a skipped byte is a SYNC, and thrown bytes end at the first SYNC at the latest. */
  ghost predicate WellCut(p: Piece) {
    match p
    case Whole(b) => Examine(b) == Block(|b|)
    case Skipped(b) => b == [MESSAGE_SYNC]
    case Thrown(b) => b != [] && forall j :: 0 <= j < |b| - 1 ==> b[j] != MESSAGE_SYNC
  }

  /** The piece `i` is the first to be thrown away since the last intact block, or since the start if `clean`. */
  ghost predicate Opens(ps: seq<Piece>, i: nat, clean: bool)
    requires i < |ps|
  {
    && ps[i].Thrown?
    && ((clean && forall j :: 0 <= j < i ==> !ps[j].Thrown?)
        || exists k :: 0 <= k < i && ps[k].Whole? && forall j :: k < j < i ==> !ps[j].Thrown?)
  }

  /** The number of messages accepted among the answers to the pieces of a stream. */
  ghost function Accepted(answers: seq<seq<Event>>): nat {
    if answers == [] then 0
    else (if answers[0] != [] && answers[0][0].Accept? then 1 else 0) + Accepted(answers[1..])
  }

  /**
    The right answer to a piece: an intact block is accepted if it is the message expected and refused otherwise, a
    skipped byte has no answer, and of each stretch of thrown bytes between intact blocks only the first is refused.
   */
  ghost predicate RightAnswer(ps: seq<Piece>, i: nat, clean: bool, expected: nat, answer: seq<Event>)
    requires i < |ps|
  {
    match ps[i]
    case Whole(b) =>
      |b| >= MESSAGE_MIN && answer == [if b[1] == SequenceOf(expected) then Accept(b) else NakSequence(b)]
    case Skipped(_) => answer == []
    case Thrown(_) => answer == if Opens(ps, i, clean) then [NakGarbled] else []
  }

  ghost function Joining(answers: seq<seq<Event>>): seq<Event> {
    if answers == [] then [] else answers[0] + Joining(answers[1..])
  }

  ghost predicate AllRight(ps: seq<Piece>, answers: seq<seq<Event>>, clean: bool, expected: nat) {
    |answers| == |ps| &&
    forall i :: 0 <= i < |ps| ==> RightAnswer(ps, i, clean, expected + Accepted(answers[..i]), answers[i])
  }

  /** Every byte of a stream falls into one piece or is left, and every piece has the right answer. */
  ghost predicate Explains(ps: seq<Piece>, p: Parse, buf: Bytes, answers: seq<seq<Event>>, clean: bool, expected: nat) {
    && Contents(ps) + p.rest == buf && (forall i :: 0 <= i < |ps| ==> WellCut(ps[i]))
    && Joining(answers) == p.events && AllRight(ps, answers, clean, expected)
  }

  /** The events of any stream are the right answers to its pieces. */
  lemma {:induction false} Answers(st: State, buf: Bytes, expected: nat) returns (answers: seq<seq<Event>>)
    requires st.nextSequence == SequenceOf(expected)
    ensures Explains(Pieces(st, buf), Drain(st, buf), buf, answers, !st.needValid, expected)
    decreases |buf|
  {
    hide *;
    var r := Find(st, buf);
    DrainStep(st, buf);
    PiecesStep(st, buf);
    if r.pop == 0 {
      answers := [];
      ExplainsNothing(buf, st, expected);
    } else {
      var n := expected + if r.events != [] && r.events[0].Accept? then 1 else 0;
      var tail := buf[r.pop..];
      FirstAnswer(st, buf, expected);
      var more := Answers(r.state, tail, n);
      answers := [r.events] + more;
      assert buf == buf[..r.pop] + tail;
      ExplainsMore(PieceOf(st.needSync, buf, r.pop), Pieces(r.state, tail), Drain(r.state, tail), tail, buf,
                   r.events, more, !st.needValid, !r.state.needValid, expected, n);
    }
  }

  lemma ExplainsNothing(buf: Bytes, st: State, expected: nat)
    ensures Explains([], Parse([], buf, st), buf, [], !st.needValid, expected)
  {}

  lemma ExplainsMore(first: Piece, ps: seq<Piece>, p: Parse, tail: Bytes, buf: Bytes, answer: seq<Event>,
                     answers: seq<seq<Event>>, clean: bool, later: bool, expected: nat, n: nat)
    requires Explains(ps, p, tail, answers, later, n) && WellCut(first) && buf == first.bytes + tail
    requires RightAnswer([first], 0, clean, expected, answer)
    requires n == expected + if answer != [] && answer[0].Accept? then 1 else 0
    requires later == (if first.Whole? then true else if first.Thrown? then false else clean)
    ensures Explains([first] + ps, p.After(answer), buf, [answer] + answers, clean, expected)
  {
    hide WellCut, RightAnswer, Contents, Joining, AllRight;
    RightAfter(first, ps, answer, answers, clean, later, expected, n);
    PutFirst(first, ps, answer, answers);
    assert first.bytes + Contents(ps) + p.rest == first.bytes + (Contents(ps) + p.rest);
  }

  lemma PiecesStep(st: State, buf: Bytes)
    ensures var r := Find(st, buf);
            Pieces(st, buf) ==
            if r.pop == 0 then [] else [PieceOf(st.needSync, buf, r.pop)] + Pieces(r.state, buf[r.pop..])
  {}

  lemma PutFirst(p: Piece, ps: seq<Piece>, answer: seq<Event>, answers: seq<seq<Event>>)
    ensures Contents([p] + ps) == p.bytes + Contents(ps) && Joining([answer] + answers) == answer + Joining(answers)
    ensures WellCut(p) && (forall i :: 0 <= i < |ps| ==> WellCut(ps[i])) ==>
      forall i :: 0 <= i < |[p] + ps| ==> WellCut(([p] + ps)[i])
  {
    hide WellCut;
    assert ([p] + ps)[1..] == ps && ([answer] + answers)[1..] == answers;
  }

  /** The answer to the first piece, and the state it leaves. */
  lemma FirstAnswer(st: State, buf: Bytes, expected: nat)
    requires st.nextSequence == SequenceOf(expected) && Find(st, buf).pop > 0
    ensures var r, p := Find(st, buf), PieceOf(st.needSync, buf, Find(st, buf).pop);
            && p.bytes == buf[..r.pop] && WellCut(p) && RightAnswer([p], 0, !st.needValid, expected, r.events)
            && r.state.nextSequence ==
               SequenceOf(expected + if r.events != [] && r.events[0].Accept? then 1 else 0)
            && r.state.needValid == (if p.Whole? then false else if p.Thrown? then true else st.needValid)
  {
    hide Crc.Of, Crc.Hi, Crc.Lo, Examine, SequenceOf, NextSequence;
    BlockBounds(buf);
    SequenceOfNext(expected);
    if !st.needSync && Examine(buf).Block? { BlockAlone(buf); }
  }

  /** An intact block is one without the bytes that follow it. */
  lemma BlockAlone(buf: Bytes)
    requires Examine(buf).Block?
    ensures var n := Examine(buf).len; MESSAGE_MIN <= n <= |buf| && Examine(buf[..n]) == Block(n)
  {
    hide Crc.Of, Crc.Hi, Crc.Lo, Addressed;
    var n := Examine(buf).len;
    assert buf[..n][..n - 3] == buf[..n - 3];
  }

  lemma RightAfter(p: Piece, rest: seq<Piece>, answer: seq<Event>, more: seq<seq<Event>>,
                   clean: bool, later: bool, expected: nat, n: nat)
    requires RightAnswer([p], 0, clean, expected, answer) && AllRight(rest, more, later, n)
    requires n == expected + if answer != [] && answer[0].Accept? then 1 else 0
    requires later == (if p.Whole? then true else if p.Thrown? then false else clean)
    ensures AllRight([p] + rest, [answer] + more, clean, expected)
  {
    hide SequenceOf, Opens;
    var ps, answers := [p] + rest, [answer] + more;
    forall i | 0 <= i < |ps|
      ensures RightAnswer(ps, i, clean, expected + Accepted(answers[..i]), answers[i])
    {
      OpensAfter(p, rest, i, clean, later);
      if i > 0 {
        assert answers[..i][1..] == more[..i - 1];
        assert ps[i] == rest[i - 1] && answers[i] == more[i - 1];
      }
    }
  }

  /** Whether a piece opens a stretch, seen with and without the piece before. */
  lemma OpensAfter(p: Piece, rest: seq<Piece>, i: nat, clean: bool, later: bool)
    requires i <= |rest| && later == (if p.Whole? then true else if p.Thrown? then false else clean)
    ensures if i == 0 then Opens([p] + rest, 0, clean) == Opens([p], 0, clean)
            else Opens([p] + rest, i, clean) == Opens(rest, i - 1, later)
  {
    var ps := [p] + rest;
    if i > 0 && ps[i].Thrown? {
      assert forall j :: 0 < j <= |rest| ==> ps[j] == rest[j - 1];
      assert forall j :: 0 <= j < |rest| ==> rest[j] == ps[j + 1];
      if Opens(rest, i - 1, later) { OpensGrows(p, rest, i, clean, later); }
      if Opens(ps, i, clean) { OpensShrinks(p, rest, i, clean, later); }
    }
  }

  lemma OpensGrows(p: Piece, rest: seq<Piece>, i: nat, clean: bool, later: bool)
    requires 0 < i <= |rest| && later == (if p.Whole? then true else if p.Thrown? then false else clean)
    requires Opens(rest, i - 1, later)
    ensures Opens([p] + rest, i, clean)
  {
    var ps := [p] + rest;
    if later && forall j :: 0 <= j < i - 1 ==> !rest[j].Thrown? {
      if p.Whole? { assert ps[0].Whole?; }
    } else {
      var k :| 0 <= k < i - 1 && rest[k].Whole? && forall j :: k < j < i - 1 ==> !rest[j].Thrown?;
      assert ps[k + 1].Whole?;
    }
  }

  lemma OpensShrinks(p: Piece, rest: seq<Piece>, i: nat, clean: bool, later: bool)
    requires 0 < i <= |rest| && later == (if p.Whole? then true else if p.Thrown? then false else clean)
    requires Opens([p] + rest, i, clean)
    ensures Opens(rest, i - 1, later)
  {
    var ps := [p] + rest;
    assert forall j :: 0 <= j < |rest| ==> rest[j] == ps[j + 1];
    if clean && forall j :: 0 <= j < i ==> !ps[j].Thrown? {
      assert !ps[0].Thrown?;
    } else {
      var k :| 0 <= k < i && ps[k].Whole? && forall j :: k < j < i ==> !ps[j].Thrown?;
      if k > 0 { assert rest[k - 1].Whole?; }
    }
  }

  // ---------- the code ----------

  function Joined(hi: bv8, lo: bv8): bv16 { ((hi as bv16) << 8) | (lo as bv16) }

  lemma CrcBytes(crc: bv16, hi: bv8, lo: bv8)
    ensures crc == Joined(hi, lo) <==> hi == Crc.Hi(crc) && lo == Crc.Lo(crc)
  {
    hide Joined, Crc.Hi, Crc.Lo;
    JoinedHalves(hi, lo);
    if hi == Crc.Hi(crc) && lo == Crc.Lo(crc) { Crc.FromHalves(crc, Joined(hi, lo)); }
  }

  lemma JoinedHalves(hi: bv8, lo: bv8)
    ensures Crc.Hi(Joined(hi, lo)) == hi && Crc.Lo(Joined(hi, lo)) == lo
  {}

  /** The parser of the micro-controller with its static state. */
  class Parser {
    var needSync: bool
    var needValid: bool
    var nextSequence: bv8

    ghost function Current(): State
      reads this
    {
      State(needSync, needValid, nextSequence)
    }

    constructor ()
      ensures Current() == State(false, false, SequenceOf(0))
    {
      needSync, needValid, nextSequence := false, false, MESSAGE_DEST;
    }

    /** Look for a block; the result is positive for a block to dispatch, 0 to wait for more data. */
    method FindBlock(buf: array<bv8>, bufLen: nat) returns (ret: int, popCount: nat, nak: bool)
      requires bufLen <= buf.Length
      modifies this
      ensures var r := Find(old(Current()), buf[..bufLen]);
              && Current() == r.state && popCount == r.pop
              && (ret > 0 <==> r.events == [Accept(buf[..popCount])])
              && (ret == 0 <==> popCount == 0)
              && (nak <==> r.events != [] && !r.events[0].Accept?)
    {
      nak := false;
      ghost var b := buf[..bufLen];
      if bufLen > 0 && needSync {
        popCount, nak := SkipToSync(buf, bufLen);
        return -1, popCount, nak;
      }
      var verdict, len := Check(buf, bufLen);
      if verdict == 0 {
        return 0, 0, false;
      }
      if verdict < 0 {
        if buf[0] == MESSAGE_SYNC {
          return -1, 1, false;
        }
        popCount, nak := SkipToSync(buf, bufLen);
        return -1, popCount, nak;
      }
      needValid := false;
      popCount := len;
      assert b[..len] == buf[..len];
      if buf[1] != nextSequence {
        return -1, len, true;
      }
      nextSequence := NextSequence(buf[1]);
      return 1, len, false;
    }

    /** Discard bytes until the next SYNC. */
    method SkipToSync(buf: array<bv8>, bufLen: nat) returns (popCount: nat, nak: bool)
      requires 0 < bufLen <= buf.Length
      modifies this
      ensures var r := Discard(old(Current()), buf[..bufLen]);
              Current() == r.state && popCount == r.pop && popCount > 0 && nak == (r.events == [NakGarbled])
              && r.events == if nak then [NakGarbled] else []
    {
      var i := 0;
      while i < bufLen && buf[i] != MESSAGE_SYNC
        invariant i <= bufLen && forall j :: 0 <= j < i ==> buf[j] != MESSAGE_SYNC
      {
        i := i + 1;
      }
      SyncIndexUnique(buf[..bufLen], i);
      needSync := i == bufLen;
      popCount := if i < bufLen then i + 1 else bufLen;
      nak := !needValid;
      needValid := true;
    }
  }

  lemma {:induction false} SyncIndexUnique(buf: Bytes, i: nat)
    requires i <= |buf| && (i < |buf| ==> buf[i] == MESSAGE_SYNC)
    requires forall j :: 0 <= j < i ==> buf[j] != MESSAGE_SYNC
    ensures SyncIndex(buf) == i
  {}

  /** The checks on a block: positive for an intact block, negative for an error, 0 for missing data. */
  method Check(buf: array<bv8>, bufLen: nat) returns (verdict: int, len: nat)
    requires bufLen <= buf.Length
    ensures Examine(buf[..bufLen]) == if verdict == 0 then NeedMore else if verdict < 0 then Bad else Block(len)
  {
    hide Addressed, Crc.Of, Crc.Hi, Crc.Lo, Joined;
    if bufLen < MESSAGE_MIN {
      return 0, 0;
    }
    len := buf[0] as int;
    if len < MESSAGE_MIN || len > MESSAGE_MAX {
      return -1, len;
    }
    if !Addressed(buf[1]) {
      return -1, len;
    }
    if bufLen < len {
      return 0, len;
    }
    if buf[len - 1] != MESSAGE_SYNC {
      return -1, len;
    }
    LastChecks(buf[..bufLen]);
    hide Examine;
    var msgcrc := Joined(buf[len - 3], buf[len - 2]);
    var crc := Crc.Crc16(buf, len - 3);
    assert buf[..bufLen][..len - 3] == buf[..len - 3];
    CrcBytes(crc, buf[len - 3], buf[len - 2]);
    if crc != msgcrc {
      return -1, len;
    }
    return 1, len;
  }

  /** What is left to check of a block of the right form. */
  lemma LastChecks(b: Bytes)
    requires |b| >= MESSAGE_MIN && MESSAGE_MIN <= b[0] as int <= MESSAGE_MAX && b[0] as int <= |b|
    requires Addressed(b[1]) && b[b[0] as int - 1] == MESSAGE_SYNC
    ensures var n := b[0] as int;
            Examine(b) == if b[n - 3] == Crc.Hi(Crc.Of(b[..n - 3])) && b[n - 2] == Crc.Lo(Crc.Of(b[..n - 3]))
                          then Block(n) else Bad
  {}

  /** Put header and trailer around the payload that is already in the buffer. */
  method AddFrame(buf: array<bv8>, msglen: bv8, nextSequence: bv8)
    requires MESSAGE_MIN <= msglen as int <= MESSAGE_MAX && msglen as int <= buf.Length
    requires Addressed(nextSequence)
    modifies buf
    ensures var n := msglen as int;
            && Examine(buf[..n]) == Block(n)
            && buf[1] == nextSequence && buf[2..n - 3] == old(buf[2..msglen as int - 3])
            && buf[n..] == old(buf[msglen as int..])
  {
    hide Addressed, Crc.Of, Crc.Hi, Crc.Lo;
    var n := msglen as int;
    buf[0] := msglen;
    buf[1] := nextSequence;
    var crc := Crc.Crc16(buf, n - MESSAGE_TRAILER_SIZE);
    buf[n - 3] := Crc.Hi(crc);
    buf[n - 2] := Crc.Lo(crc);
    buf[n - 1] := MESSAGE_SYNC;
    assert buf[..n][..n - 3] == buf[..n - 3];
  }

  /** The host's check of a packet. */
  method CheckPacket(s: Bytes) returns (r: int)
    ensures r == match Examine(s) case NeedMore => 0 case Bad => -1 case Block(n) => n
  {
    hide Addressed, Crc.Of, Crc.Hi, Crc.Lo;
    if |s| < MESSAGE_MIN {
      return 0;
    }
    var msglen := s[0] as int;
    if msglen < MESSAGE_MIN || msglen > MESSAGE_MAX {
      return -1;
    }
    if !Addressed(s[1]) {
      return -1;
    }
    if |s| < msglen {
      return 0;
    }
    if s[msglen - 1] != MESSAGE_SYNC {
      return -1;
    }
    var crc := Crc.PyCrc16(s[..msglen - MESSAGE_TRAILER_SIZE]);
    assert s[msglen - 3..msglen - 1] == [s[msglen - 3], s[msglen - 2]];
    if crc != s[msglen - 3..msglen - 1] {
      return -1;
    }
    return msglen;
  }

  // ---------- damage ----------

  /** The two blocks are equal but for bytes `i` and `i + 1`. */
  ghost predicate DamagedAt(block: Bytes, damaged: Bytes, i: nat) {
    && |damaged| == |block| && damaged != block && i + 2 <= |block|
    && forall j :: 0 <= j < |block| && j != i && j != i + 1 ==> damaged[j] == block[j]
  }

  /** The one damage that goes unseen: to the last content byte and the high checksum byte, by these bits. */
  ghost predicate Unseen(block: Bytes, damaged: Bytes, i: nat)
    requires DamagedAt(block, damaged, i)
  {
    && i == |block| - 4 && i >= 2
    && Crc.Difference(block[i], damaged[i]) == 0x91 && Crc.Difference(block[i + 1], damaged[i + 1]) == 0x85
  }

  /** The checks that a block of the right length meets, apart from its length. */
  lemma Intact(buf: Bytes)
    requires MESSAGE_MIN <= |buf| <= MESSAGE_MAX && buf[0] as int == |buf|
    ensures var n := |buf|;
            var ok := && Addressed(buf[1]) && buf[n - 1] == MESSAGE_SYNC
                      && buf[n - 3] == Crc.Hi(Crc.Of(buf[..n - 3])) && buf[n - 2] == Crc.Lo(Crc.Of(buf[..n - 3]));
            Examine(buf) == if ok then Block(n) else Bad
  {}

  lemma OtherLength(buf: Bytes, n: nat)
    ensures Examine(buf) == Block(n) ==> |buf| >= MESSAGE_MIN && buf[0] as int == n
  {}

  /** Damage to the covered bytes alone is always seen. */
  lemma PayloadDamage(block: Bytes, damaged: Bytes, i: nat)
    requires DamagedAt(block, damaged, i) && Examine(block) == Block(|block|)
    requires damaged[0] == block[0] && i + 2 <= |block| - MESSAGE_TRAILER_SIZE
    ensures Examine(damaged) == Bad
  {
    hide Crc.Of, Crc.Hi, Crc.Lo, Examine;
    var n := |block| - MESSAGE_TRAILER_SIZE;
    BlockBounds(block);
    OtherLength(block, |block|);
    Intact(block);
    Intact(damaged);
    assert damaged[..n] != block[..n] by {
      assert exists j :: 0 <= j < |block| && damaged[j] != block[j];
    }
    Crc.DetectsLocalCorruption(block[..n], damaged[..n], i);
    if Examine(damaged) == Block(|block|) {
      Crc.FromHalves(Crc.Of(block[..n]), Crc.Of(damaged[..n]));
    }
  }

  /** Damage to the checksum or the sync byte alone is always seen. */
  lemma TrailerDamage(block: Bytes, damaged: Bytes, i: nat)
    requires DamagedAt(block, damaged, i) && Examine(block) == Block(|block|) && i >= |block| - MESSAGE_TRAILER_SIZE
    ensures Examine(damaged) == Bad
  {
    hide Crc.Of, Crc.Hi, Crc.Lo, Examine;
    BlockBounds(block);
    OtherLength(block, |block|);
    Intact(block);
    Intact(damaged);
    assert damaged[..|block| - 3] == block[..|block| - 3];
    assert exists j :: 0 <= j < |block| && damaged[j] != block[j];
  }

  lemma DestinationDamaged(b: bv8, d: bv8)
    requires Addressed(b) && Crc.Difference(b, d) == 0x91
    ensures !Addressed(d)
  {}

  lemma ZeroDifference(a: bv8, b: bv8, x: bv8, y: bv8)
    ensures Crc.Difference(a, a) == 0
    ensures Crc.Difference(x, y) == 0x85 ==> (Crc.Difference(x, b) == 0x85 <==> b == y)
  {}

  /** Damage across the border of the covered bytes. */
  lemma BorderDamage(block: Bytes, damaged: Bytes)
    requires |block| >= 4 && DamagedAt(block, damaged, |block| - 4) && Examine(block) == Block(|block|)
    ensures Examine(damaged) == if Unseen(block, damaged, |block| - 4) then Block(|block|) else Bad
  {
    hide Crc.Of, Crc.Hi, Crc.Lo, Crc.Step, Crc.Difference, Examine;
    var i := |block| - 4;
    BlockBounds(block);
    OtherLength(block, |block|);
    Intact(block);
    Intact(damaged);
    var c := Crc.Of(block[..i]);
    assert damaged[..i] == block[..i];
    Crc.OfNext(block, i);
    Crc.OfNext(damaged, i);
    Crc.LastByte(c, block[i], damaged[i]);
    ZeroDifference(block[i], damaged[i + 1], Crc.Hi(Crc.Step(c, block[i])), Crc.Hi(Crc.Step(c, damaged[i])));
    if damaged[i] == block[i] {
      assert damaged[i + 1] != block[i + 1] by {
        assert exists j :: 0 <= j < |block| && damaged[j] != block[j];
      }
    } else if i == 1 && Crc.Difference(block[1], damaged[1]) == 0x91 {
      DestinationDamaged(block[1], damaged[1]);
    }
  }

  /**
    A block damaged within two adjacent bytes is taken as intact if and only if the damage is the one
    that goes unseen; if its length byte is intact, any other damage is refused.
   */
  lemma DamagedBlock(block: Bytes, damaged: Bytes, i: nat)
    requires Examine(block) == Block(|block|) && DamagedAt(block, damaged, i)
    ensures Examine(damaged) == Block(|block|) <==> Unseen(block, damaged, i)
    ensures damaged[0] == block[0] && !Unseen(block, damaged, i) ==> Examine(damaged) == Bad
  {
    hide Examine;
    BlockBounds(block);
    OtherLength(block, |block|);
    OtherLength(damaged, |block|);
    if damaged[0] != block[0] {
      if damaged[0] as int == |block| { SameByte(damaged[0], block[0]); }
    } else if i + 2 <= |block| - MESSAGE_TRAILER_SIZE {
      PayloadDamage(block, damaged, i);
    } else if i == |block| - 4 {
      BorderDamage(block, damaged);
    } else {
      TrailerDamage(block, damaged, i);
    }
  }

  lemma SameByte(a: bv8, b: bv8)
    requires a as int == b as int
    ensures a == b
  {}

  lemma SmallChecksum()
    ensures Crc.Of([0x06, 0x10, 0x00]) == 0x7a7b
  {
    assert Crc.Step(0xffff, 0x06) == 0x6ab1 && Crc.Step(0x6ab1, 0x10) == 0xb4e9 && Crc.Step(0xb4e9, 0x00) == 0x7a7b;
    var buf: Bytes := [0x06, 0x10, 0x00];
    assert buf[1..] == [0x10, 0x00] && buf[1..][1..] == [0x00] && buf[1..][1..][1..] == [];
  }

  /** Two intact blocks that differ in two adjacent bytes. */
  lemma DamageUnseen()
    ensures var block: Bytes, damaged: Bytes :=
              [0x06, 0x10, 0x00, 0x7a, 0x7b, 0x7e], [0x06, 0x10, 0x91, 0xff, 0x7b, 0x7e];
            DamagedAt(block, damaged, 2) && Examine(block) == Block(6) && Examine(damaged) == Block(6)
  {
    var block: Bytes, damaged: Bytes :=
      [0x06, 0x10, 0x00, 0x7a, 0x7b, 0x7e], [0x06, 0x10, 0x91, 0xff, 0x7b, 0x7e];
    SmallChecksum();
    assert block[..3] == [0x06, 0x10, 0x00];
    assert Examine(block) == Block(6);
    assert DamagedAt(block, damaged, 2);
    assert Unseen(block, damaged, 2);
    DamagedBlock(block, damaged, 2);
  }
}
