/**
  The 16-bit CCITT checksum of message blocks, in the form shared by the micro-controller and the
  host's C code (klippy/chelper/msgblock.c) and in the form of the host's Python code
  (klippy/msgproto.py).
 */
module Crc {

  const INITIAL: bv16 := 0xffff

  function Hi(crc: bv16): bv8 { (crc >> 8) as bv8 }

  function Lo(crc: bv16): bv8 { (crc & 0xff) as bv8 }

  /** The input byte mixed with the low byte of the checksum: first half of a turn. */
  function Mix(crc: bv16, byte: bv8): bv8 {
    var x := byte ^ Lo(crc);
    x ^ (x << 4)
  }

  /** Shifting the mixed byte in: second half of a turn. */
  function Fold(crc: bv16, data: bv8): bv16 {
    (((data as bv16) << 8) | (crc >> 8)) ^ ((data >> 4) as bv16) ^ ((data as bv16) << 3)
  }

  /** One turn of the C loop. */
  function Step(crc: bv16, byte: bv8): bv16 { Fold(crc, Mix(crc, byte)) }

  // ---------- the polynomial ----------

  /** Divide by the reflected CCITT polynomial, one bit. */
  function Shift(c: bv16): bv16 { if c & 1 == 1 then (c >> 1) ^ 0x8408 else c >> 1 }

  function Shift4(c: bv16): bv16 { Shift(Shift(Shift(Shift(c)))) }

  /** Four bits at once: the remainder of the low nibble is a pattern of three copies of it. */
  function Nibble(c: bv16): bv16 { (c >> 4) ^ (c & 0xf) ^ ((c & 0xf) << 7) ^ ((c & 0xf) << 12) }

  /** One bit, without a branch. */
  function Single(c: bv16): bv16 { (c >> 1) ^ ((c & 1) << 3) ^ ((c & 1) << 10) ^ ((c & 1) << 15) }

  lemma ShiftSingle(c: bv16)
    ensures Shift(c) == Single(c)
  {
    assert c & 1 == 0 || c & 1 == 1;
  }

  lemma SingleTwice(c: bv16)
    ensures Single(Single(c)) == Pair(c)
  {}

  /** Two bits at once. */
  function Pair(c: bv16): bv16 { (c >> 2) ^ ((c & 3) << 2) ^ ((c & 3) << 9) ^ ((c & 3) << 14) }

  lemma ShiftPair(c: bv16)
    ensures Shift(Shift(c)) == Pair(c)
  {
    hide Shift, Single, Pair;
    ShiftSingle(c);
    ShiftSingle(Single(c));
    SingleTwice(c);
  }

  lemma PairTwice(c: bv16)
    ensures Pair(Pair(c)) == Nibble(c)
  {}

  lemma ShiftNibble(c: bv16)
    ensures Shift4(c) == Nibble(c)
  {
    hide Shift, Pair, Nibble;
    ShiftPair(c);
    ShiftPair(Pair(c));
    PairTwice(c);
  }

  /** The mixed byte and the folded checksum without narrowing. */
  function WideMix(c: bv16): bv16 { ((c & 0xff) ^ (c << 4)) & 0xff }

  function WideFold(c: bv16, d: bv16): bv16 { ((d << 8) | (c >> 8)) ^ (d >> 4) ^ (d << 3) }

  lemma NibbleTwice(c: bv16)
    ensures Nibble(Nibble(c)) == WideFold(c, WideMix(c))
  {}

  lemma MixWidens(crc: bv16, byte: bv8)
    ensures Mix(crc, byte) as bv16 == WideMix(crc ^ (byte as bv16))
  {}

  lemma FoldWidens(crc: bv16, byte: bv8, data: bv8)
    ensures Fold(crc, data) == WideFold(crc ^ (byte as bv16), data as bv16)
  {}

  /** A step of the byte-wise form is eight steps of the polynomial division. */
  lemma StepIsPolynomial(crc: bv16, byte: bv8)
    ensures Step(crc, byte) == Shift4(Shift4(crc ^ (byte as bv16)))
  {
    var c := crc ^ (byte as bv16);
    hide *;
    ShiftNibble(c);
    ShiftNibble(Nibble(c));
    NibbleTwice(c);
    MixWidens(crc, byte);
    FoldWidens(crc, byte, Mix(crc, byte));
    StepIs(crc, byte);
  }

  lemma StepIs(crc: bv16, byte: bv8)
    ensures Step(crc, byte) == Fold(crc, Mix(crc, byte))
  {}

  function From(crc: bv16, buf: seq<bv8>): bv16
    decreases |buf|
  {
    if buf == [] then crc else From(Step(crc, buf[0]), buf[1..])
  }

  function Of(buf: seq<bv8>): bv16 { From(INITIAL, buf) }

  lemma {:induction false} FromConcat(crc: bv16, a: seq<bv8>, b: seq<bv8>)
    ensures From(crc, a + b) == From(From(crc, a), b)
    decreases |a|
  {
    if a == [] {
      assert a + b == b;
    } else {
      assert (a + b)[1..] == a[1..] + b;
      FromConcat(Step(crc, a[0]), a[1..], b);
    }
  }

  /** The checksum bit by bit: each byte is added to the low end and divided out. */
  function Division(crc: bv16, buf: seq<bv8>): bv16
    decreases |buf|
  {
    if buf == [] then crc else Division(Shift4(Shift4(crc ^ (buf[0] as bv16))), buf[1..])
  }

  lemma {:induction false} FromIsDivision(crc: bv16, buf: seq<bv8>)
    ensures From(crc, buf) == Division(crc, buf)
    decreases |buf|
  {
    hide Step, Shift4;
    if buf != [] {
      StepIsPolynomial(crc, buf[0]);
      FromIsDivision(Step(crc, buf[0]), buf[1..]);
    }
  }

  lemma OfNext(buf: seq<bv8>, i: nat)
    requires i < |buf|
    ensures Of(buf[..i + 1]) == Step(Of(buf[..i]), buf[i])
  {
    hide Step;
    FromConcat(INITIAL, buf[..i], [buf[i]]);
    assert buf[..i + 1] == buf[..i] + [buf[i]];
  }

  /** The C loop over a buffer. */
  method Crc16(buf: array<bv8>, len: nat) returns (crc: bv16)
    requires len <= buf.Length
    ensures crc == Of(buf[..len])
  {
    hide Step, Of;
    crc := INITIAL;
    OfEmpty();
    for i := 0 to len
      invariant crc == Of(buf[..i])
    {
      OfNext(buf[..], i);
      assert buf[..][..i] == buf[..i] && buf[..][..i + 1] == buf[..i + 1];
      crc := Step(crc, buf[i]);
    }
  }

  lemma OfEmpty()
    ensures Of([]) == INITIAL && Wide(Of([])) == 0xffff
  {}

  // ---------- the Python form ----------

  /** The two halves of one turn of the Python loop, on integers wide enough for every value. */
  function PyMix(crc: bv32, byte: bv32): bv32 {
    var x := byte ^ (crc & 0xff);
    x ^ ((x & 0x0f) << 4)
  }

  function PyFold(crc: bv32, data: bv32): bv32 {
    ((data << 8) | (crc >> 8)) ^ (data >> 4) ^ (data << 3)
  }

  /** A checksum as the Python code holds it. */
  function Wide(crc: bv16): bv32 { crc as bv32 }

  lemma StepsAgree(crc: bv16, byte: bv8)
    ensures PyFold(Wide(crc), PyMix(Wide(crc), byte as bv32)) == Wide(Step(crc, byte))
  {
    hide PyFold, PyMix, Fold, Mix;
    MixesAgree(crc, byte);
    FoldsAgree(crc, Mix(crc, byte));
  }

  lemma MixesAgree(crc: bv16, byte: bv8)
    ensures PyMix(crc as bv32, byte as bv32) == Mix(crc, byte) as bv32
  {}

  lemma FoldsAgree(crc: bv16, data: bv8)
    ensures PyFold(crc as bv32, data as bv32) == Fold(crc, data) as bv32
  {}

  lemma HalvesAgree(crc: bv16)
    ensures (crc as bv32) >> 8 <= 0xff
    ensures ((crc as bv32) >> 8) as bv8 == Hi(crc) && ((crc as bv32) & 0xff) as bv8 == Lo(crc)
  {}

  method PyLoop(buf: seq<bv8>) returns (crc: bv32)
    ensures crc == Wide(Of(buf))
  {
    hide Step, Of, Wide, PyMix, PyFold;
    crc := 0xffff;
    OfEmpty();
    for i := 0 to |buf|
      invariant crc == Wide(Of(buf[..i]))
    {
      OfNext(buf, i);
      StepsAgree(Of(buf[..i]), buf[i]);
      var data := PyMix(crc, buf[i] as bv32);
      crc := PyFold(crc, data);
    }
    assert buf[..|buf|] == buf;
  }

  /** The Python function: its result is the list of the two checksum bytes. */
  method PyCrc16(buf: seq<bv8>) returns (bytes: seq<bv8>)
    ensures bytes == [Hi(Of(buf)), Lo(Of(buf))]
  {
    hide Of, Hi, Lo;
    var crc := PyLoop(buf);
    HalvesAgree(Of(buf));
    bytes := [(crc >> 8) as bv8, (crc & 0xff) as bv8];
  }

  // ---------- every state has one history ----------

  /** The byte that the last turn folded in, read off the checksum it left. */
  function Folded(crc: bv16): bv8 { Hi(crc) ^ (Hi(crc) >> 5) }

  /** The high byte of the checksum before the last turn. */
  function PreviousHi(crc: bv16): bv8 {
    Lo(crc) ^ (Folded(crc) >> 4) ^ (Folded(crc) << 3)
  }

  lemma FoldHalves(crc: bv16, data: bv8)
    ensures Hi(Fold(crc, data)) == data ^ (data >> 5)
    ensures Lo(Fold(crc, data)) == Hi(crc) ^ (data >> 4) ^ (data << 3)
  {}

  lemma FoldUndone(crc: bv16, data: bv8)
    ensures Folded(Fold(crc, data)) == data
    ensures PreviousHi(Fold(crc, data)) == Hi(crc)
  {
    hide Hi, Lo, Fold;
    FoldHalves(crc, data);
  }

  lemma MixIsInjective(c: bv16, d: bv16, a: bv8, b: bv8)
    requires Mix(c, a) == Mix(d, b)
    ensures a ^ Lo(c) == b ^ Lo(d)
  {
    hide Lo;
    XorShift(a ^ Lo(c), b ^ Lo(d));
  }

  lemma XorShift(x: bv8, y: bv8)
    requires x ^ (x << 4) == y ^ (y << 4)
    ensures x == y
  {
    var d := x ^ (x << 4);
    assert d ^ (d << 4) == x;
    assert d ^ (d << 4) == y;
  }

  lemma XorCancels(a: bv8, b: bv8, x: bv8)
    ensures a ^ x == b ^ x ==> a == b
    ensures x ^ a == x ^ b ==> a == b
  {}

  lemma FromHalves(c: bv16, d: bv16)
    requires Hi(c) == Hi(d) && Lo(c) == Lo(d)
    ensures c == d
  {
    Halves(c);
    Halves(d);
  }

  lemma Halves(c: bv16)
    ensures Hi(c) as bv16 == c >> 8 && Lo(c) as bv16 == c & 0xff && c == ((c >> 8) << 8) | (c & 0xff)
  {}

  /** Different states stay different on equal input. */
  lemma StepKeepsDifference(c: bv16, d: bv16, byte: bv8)
    requires Step(c, byte) == Step(d, byte)
    ensures c == d
  {
    hide Hi, Lo, Fold, Mix, Folded, PreviousHi;
    FoldUndone(c, Mix(c, byte));
    FoldUndone(d, Mix(d, byte));
    MixIsInjective(c, d, byte, byte);
    XorCancels(Lo(c), Lo(d), byte);
    FromHalves(c, d);
  }

  /** From one state, two different pairs of bytes never lead to the same state. */
  lemma PairIsInjective(c: bv16, a0: bv8, a1: bv8, b0: bv8, b1: bv8)
    requires Step(Step(c, a0), a1) == Step(Step(c, b0), b1)
    ensures a0 == b0 && a1 == b1
  {
    hide Hi, Lo, Fold, Mix, Folded, PreviousHi;
    var s, t := Step(c, a0), Step(c, b0);
    FoldUndone(s, Mix(s, a1));
    FoldUndone(t, Mix(t, b1));
    FoldUndone(c, Mix(c, a0));
    FoldUndone(c, Mix(c, b0));
    FoldedByHi(s, t);
    MixIsInjective(c, c, a0, b0);
    XorCancels(a0, b0, Lo(c));
    MixIsInjective(s, t, a1, b1);
    XorCancels(a1, b1, Lo(s));
  }

  lemma FoldedByHi(c: bv16, d: bv16)
    requires Hi(c) == Hi(d)
    ensures Folded(c) == Folded(d)
  {}

  lemma {:induction false} FromIsInjective(c: bv16, d: bv16, buf: seq<bv8>)
    requires From(c, buf) == From(d, buf)
    ensures c == d
    decreases |buf|
  {
    if buf != [] {
      FromIsInjective(Step(c, buf[0]), Step(d, buf[0]), buf[1..]);
      StepKeepsDifference(c, d, buf[0]);
    }
  }

  /** Buffers that differ only within two adjacent bytes never share a checksum. */
  lemma DetectsLocalCorruption(a: seq<bv8>, b: seq<bv8>, i: nat)
    requires |a| == |b| && i + 2 <= |a| && a != b
    requires forall j :: 0 <= j < |a| && j != i && j != i + 1 ==> a[j] == b[j]
    ensures Of(a) != Of(b)
  {
    assert a[..i] == b[..i] && a[i + 2..] == b[i + 2..];
    var c := Of(a[..i]);
    SplitAround(a, i);
    SplitAround(b, i);
    if Of(a) == Of(b) {
      FromIsInjective(Step(Step(c, a[i]), a[i + 1]), Step(Step(c, b[i]), b[i + 1]), a[i + 2..]);
      PairIsInjective(c, a[i], a[i + 1], b[i], b[i + 1]);
    }
  }

  lemma SplitAround(a: seq<bv8>, i: nat)
    requires i + 2 <= |a|
    ensures Of(a) == From(Step(Step(Of(a[..i]), a[i]), a[i + 1]), a[i + 2..])
  {
    hide Step;
    FromConcat(INITIAL, a[..i], a[i..]);
    assert a == a[..i] + a[i..];
    assert a[i..][1..] == a[i + 1..] && a[i + 1..][1..] == a[i + 2..];
  }

  // ---------- damage at the border of the covered bytes ----------

  /** The bits in which two bytes differ. */
  function Difference(a: bv8, b: bv8): bv8 { a ^ b }

  /** What an input byte, mixed with the low half, adds to the low and to the high half of the next checksum. */
  function ToLo(x: bv8): bv8 { ((x ^ (x << 4)) >> 4) ^ ((x ^ (x << 4)) << 3) }

  function ToHi(x: bv8): bv8 { (x ^ (x << 4)) ^ ((x ^ (x << 4)) >> 5) }

  lemma StepParts(c: bv16, a: bv8)
    ensures Lo(Step(c, a)) == Difference(Hi(c), ToLo(Difference(a, Lo(c))))
    ensures Hi(Step(c, a)) == ToHi(Difference(a, Lo(c)))
  {
    hide Hi, Lo, Fold;
    FoldHalves(c, Mix(c, a));
  }

  lemma PartsDiffer(x: bv8, y: bv8)
    ensures ToLo(x) == ToLo(y) && x != y <==> Difference(x, y) == 0x91
    ensures Difference(x, y) == 0x91 ==> Difference(ToHi(x), ToHi(y)) == 0x85
  {}

  lemma SameDifference(a: bv8, b: bv8, l: bv8)
    ensures Difference(Difference(a, l), Difference(b, l)) == Difference(a, b)
  {}

  lemma CommonCancels(a: bv8, b: bv8, l: bv8)
    ensures Difference(a, l) == Difference(b, l) ==> a == b
    ensures Difference(l, a) == Difference(l, b) ==> a == b
  {
    XorCancels(a, b, l);
  }

  /** A change of the last byte leaves the low half of the checksum alone exactly when it is by 0x91. */
  lemma LastByte(c: bv16, a: bv8, b: bv8)
    ensures Lo(Step(c, a)) == Lo(Step(c, b)) && a != b <==> Difference(a, b) == 0x91
    ensures Difference(a, b) == 0x91 ==> Difference(Hi(Step(c, a)), Hi(Step(c, b))) == 0x85
  {
    hide *;
    var x, y := Difference(a, Lo(c)), Difference(b, Lo(c));
    StepParts(c, a);
    StepParts(c, b);
    SameDifference(a, b, Lo(c));
    CommonCancels(a, b, Lo(c));
    CommonCancels(ToLo(x), ToLo(y), Hi(c));
    PartsDiffer(x, y);
  }
}
