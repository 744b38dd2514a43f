/**
  Variable length quantities: the integer codec of the micro-controller (src/command.c), which the
  host's C code shares (klippy/chelper/msgblock.c), and the codec of the host's Python code
  (klippy/msgproto.py).

  Bytes and words are integers here: `x & 0x7f` is `x % 128`, `x >> 7` is `x / 128` (both also for
  Python's negative integers), a set top bit is `x >= 128`, and `(c & 0x60) == 0x60` says that the
  low seven bits of `c` are at least 96.
 */
module Vlq {

  const TWO32: int := 0x1_0000_0000
  const MESSAGE_HEADER_SIZE := 2
  const MESSAGE_TRAILER_SIZE := 3
  const MESSAGE_PAYLOAD_MAX := 59

  type Byte = x: int | 0 <= x < 256
  type Word = x: int | 0 <= x < TWO32

  datatype Option<T> = None | Some(value: T)

  /** A parsed integer, before any truncation to 32 bits, and the bytes behind it. */
  datatype Parsed = Parsed(value: int, rest: seq<Byte>)

  // ---------- the format ----------

  /** Continue reading after a byte whose top bit was set. */
  function ParseTail(v: int, s: seq<Byte>): Option<Parsed>
    decreases |s|
  {
    if s == [] then None
    else
      var v' := v * 128 + s[0] % 128;
      if s[0] >= 128 then ParseTail(v', s[1..]) else Some(Parsed(v', s[1..]))
  }

  /** The value of the first byte: its two top bits, if both set, are a sign. */
  function Leading(c: Byte): int {
    if c % 128 >= 96 then c % 128 - 128 else c % 128
  }

  function Parse(s: seq<Byte>): Option<Parsed> {
    if s == [] then None
    else if s[0] >= 128 then ParseTail(Leading(s[0]), s[1..])
    else Some(Parsed(Leading(s[0]), s[1..]))
  }

  function ParseMany(n: nat, s: seq<Byte>): Option<(seq<int>, seq<Byte>)> {
    if n == 0 then Some(([], s))
    else match Parse(s)
      case None => None
      case Some(p) =>
        match ParseMany(n - 1, p.rest)
        case None => None
        case Some((vs, rest)) => Some(([p.value] + vs, rest))
  }

  /** The low `m` seven-bit digits of `y`, most significant first, each marked as not the last. */
  function Marked(y: int, m: nat): (s: seq<Byte>)
    ensures |s| == m
    decreases m
  {
    if m == 0 then [] else Marked(y / 128, m - 1) + [y % 128 + 128]
  }

  /** The encoding of `x` in `n` bytes. */
  function Digits(x: int, n: nat): (s: seq<Byte>)
    requires n >= 1
    ensures |s| == n
  {
    Marked(x / 128, n - 1) + [x % 128]
  }

  /** The fewest bytes that keep the sign of `x`, at most 5. */
  function Size(x: int): (n: nat)
    ensures 1 <= n <= 5
  {
    if -0x20 <= x < 0x60 then 1
    else if -0x1000 <= x < 0x3000 then 2
    else if -0x8_0000 <= x < 0x18_0000 then 3
    else if -0x400_0000 <= x < 0xc00_0000 then 4
    else 5
  }

  // ---------- reading back what was written ----------

  /** What a parser makes of the `m` digits of `y`. */
  function Read(y: int, m: nat): int
    requires m >= 1
    decreases m
  {
    if m == 1 then Leading(y % 128) else Read(y / 128, m - 1) * 128 + y % 128
  }

  lemma {:induction false} ParseMarked(y: int, m: nat, rest: seq<Byte>)
    requires m >= 1
    ensures Parse(Marked(y, m) + rest) == ParseTail(Read(y, m), rest)
    decreases m
  {
    var c: Byte := y % 128 + 128;
    if m == 1 {
      assert Marked(y / 128, 0) == [] && Marked(y, 1) == [c];
      assert ([c] + rest)[1..] == rest;
    } else {
      assert Marked(y, m) + rest == Marked(y / 128, m - 1) + ([c] + rest);
      ParseMarked(y / 128, m - 1, [c] + rest);
      assert ([c] + rest)[1..] == rest;
    }
  }

  lemma ParseDigits(x: int, n: nat, rest: seq<Byte>)
    requires n >= 1
    ensures Parse(Digits(x, n) + rest) == Some(Parsed(Read(x, n), rest))
  {
    var c: Byte := x % 128;
    if n == 1 {
      assert Marked(x / 128, 0) == [] && Digits(x, 1) == [c];
      assert ([c] + rest)[1..] == rest;
    } else {
      assert Digits(x, n) + rest == Marked(x / 128, n - 1) + ([c] + rest);
      ParseMarked(x / 128, n - 1, [c] + rest);
      assert ([c] + rest)[1..] == rest;
    }
  }

  function Pow128(m: nat): int { if m == 0 then 1 else 128 * Pow128(m - 1) }

  /** Reading is exact up to a multiple of the range of the digits. */
  lemma {:induction false} ReadCongruent(y: int, m: nat) returns (k: int)
    requires m >= 1
    ensures Read(y, m) == y + Pow128(m) * k
    decreases m
  {
    if m == 1 {
      k := (Read(y, 1) - y) / 128;
    } else {
      k := ReadCongruent(y / 128, m - 1);
      Regroup(y, Pow128(m - 1), k);
    }
  }

  lemma Regroup(y: int, p: int, k: int)
    ensures (y / 128 + p * k) * 128 + y % 128 == y + (128 * p) * k
  {
    var q := p * k;
    assert (128 * p) * k == 128 * q;
  }

  lemma Shifted(x: int, k: int)
    ensures (x + 8 * TWO32 * k) % TWO32 == x % TWO32
  {
    var q, r := x / TWO32, x % TWO32;
    assert x + 8 * TWO32 * k == TWO32 * (q + 8 * k) + r;
  }

  /** Reading is exact when the digits suffice for the sign. */
  lemma {:induction false} ReadExact(x: int, n: nat)
    requires Size(x) <= n <= 4
    ensures Read(x, n) == x
    decreases n
  {
    if n > 1 { ReadExact(x / 128, n - 1); }
  }

  /** The size is the fewest bytes from which the integer is read back exactly. */
  lemma {:induction false} SizeIsLeast(x: int, n: nat)
    requires 1 <= n <= 4
    ensures Read(x, n) == x <==> Size(x) <= n
    decreases n
  {
    if n > 1 { SizeIsLeast(x / 128, n - 1); }
  }

  lemma Fifth()
    ensures Pow128(5) == 8 * TWO32
  {
    assert Pow128(2) == 0x4000;
    assert Pow128(4) == 0x1000_0000;
  }

  /** An integer written in enough bytes is read back modulo 2^32, and exactly in fewer than 5 bytes. */
  lemma RoundTrip(x: int, n: nat, rest: seq<Byte>)
    requires Size(x) <= n <= 5
    ensures Parse(Digits(x, n) + rest).Some?
    ensures var p := Parse(Digits(x, n) + rest).value;
            p.rest == rest && p.value % TWO32 == x % TWO32 && (n < 5 ==> p.value == x)
  {
    ParseDigits(x, n, rest);
    if n < 5 {
      ReadExact(x, n);
    } else {
      var k := ReadCongruent(x, 5);
      Fifth();
      Shifted(x, k);
    }
  }

  // ---------- lists, written by any mix of codecs ----------

  /** Some codec's bytes for an integer that equals `x` modulo 2^32. */
  ghost predicate Encodes(s: seq<Byte>, x: int) {
    exists y: int, n: nat :: Size(y) <= n <= 5 && y % TWO32 == x % TWO32 && s == Digits(y, n)
  }

  function Flatten(ss: seq<seq<Byte>>): seq<Byte> {
    if ss == [] then [] else ss[0] + Flatten(ss[1..])
  }

  /** A list decodes to the same values modulo 2^32 and consumes exactly the bytes written. */
  lemma {:induction false} ListRoundTrip(ss: seq<seq<Byte>>, xs: seq<int>, rest: seq<Byte>)
    requires |ss| == |xs| && forall i :: 0 <= i < |xs| ==> Encodes(ss[i], xs[i])
    ensures ParseMany(|xs|, Flatten(ss) + rest).Some?
    ensures var (vs, tail) := ParseMany(|xs|, Flatten(ss) + rest).value;
            tail == rest && |vs| == |xs| && forall i :: 0 <= i < |xs| ==> vs[i] % TWO32 == xs[i] % TWO32
    decreases |xs|
  {
    hide Parse, Digits, Size;
    if xs == [] {
      assert Flatten(ss) + rest == rest;
    } else {
      var y: int, n: nat :| Size(y) <= n <= 5 && y % TWO32 == xs[0] % TWO32 && ss[0] == Digits(y, n);
      var tail := Flatten(ss[1..]) + rest;
      assert Flatten(ss) + rest == ss[0] + tail;
      RoundTrip(y, n, tail);
      ListRoundTrip(ss[1..], xs[1..], rest);
    }
  }

  // ---------- the codecs ----------

  /** `(int32_t)v` */
  function Signed(v: Word): int { if v >= 0x8000_0000 then v - TWO32 else v }

  /** The bytes of the C encoder. */
  function CBytes(v: Word): (s: seq<Byte>)
    ensures 1 <= |s| <= 5
  {
    Digits(v, Size(Signed(v)))
  }

  lemma CBytesEncode(v: Word)
    ensures Encodes(CBytes(v), v)
  {
    var sv := Signed(v);
    if Size(sv) == 5 {
      assert Size(v) <= 5 && CBytes(v) == Digits(v, 5);
    } else {
      DigitsWrap(sv, Size(sv));
      assert CBytes(v) == Digits(sv, Size(sv));
    }
  }

  /** Adding a multiple of the range of the digits does not change them. */
  lemma {:induction false} MarkedWrap(x: int, m: nat, k: int)
    ensures Marked(x + Pow128(m) * k, m) == Marked(x, m)
    decreases m
  {
    if m > 0 {
      var u := Pow128(m - 1) * k;
      assert Pow128(m) * k == 128 * u by { Regroup(0, Pow128(m - 1), k); }
      assert (x + 128 * u) / 128 == x / 128 + u && (x + 128 * u) % 128 == x % 128;
      MarkedWrap(x / 128, m - 1, k);
    }
  }

  /** Up to four digits do not show whether 2^32 was added. */
  lemma DigitsWrap(x: int, n: nat)
    requires 1 <= n <= 4
    ensures Digits(x + TWO32, n) == Digits(x, n)
  {
    assert Pow128(1) == 128 && Pow128(2) == 0x4000 && Pow128(3) == 0x20_0000;
    assert (x + TWO32) / 128 == x / 128 + 0x200_0000 && (x + TWO32) % 128 == x % 128;
    MarkedWrap(x / 128, n - 1,
               if n == 1 then 0x200_0000 else if n == 2 then 0x4_0000 else if n == 3 then 0x800 else 16);
  }

  lemma PyBytesEncode(x: int)
    ensures Encodes(Digits(x, Size(x)), x)
  {}

  /**
    The host's unmasked signed parser sees the value that the C encoder meant except for integers
    below -2^26, whose five-byte form carries no sign.
   */
  lemma SignedParseExact(v: Word, rest: seq<Byte>)
    ensures Parse(CBytes(v) + rest).Some?
    ensures Parse(CBytes(v) + rest).value.value == Signed(v) <==> Signed(v) >= -0x400_0000
  {
    var sv := Signed(v);
    ParseDigits(v, Size(sv), rest);
    if Size(sv) < 5 {
      if sv < 0 { DigitsWrap(sv, Size(sv)); }
      ParseDigits(sv, Size(sv), rest);
      ReadExact(sv, Size(sv));
    } else {
      ReadExact(v / 128, 4);
      assert Read(v, 5) == v;
    }
  }

  /** The first negative integer whose sign is lost. */
  lemma SignLost()
    ensures var v := TWO32 - 0x400_0001;
            && Signed(v) == -0x400_0001
            && Parse(CBytes(v)).Some? && Parse(CBytes(v)).value.value == v
  {
    var v := TWO32 - 0x400_0001;
    ParseDigits(v, 5, []);
    assert Digits(v, 5) + [] == CBytes(v);
    ReadExact(v / 128, 4);
  }

  lemma DigitsSpelledOut(x: int)
    ensures Digits(x, 1) == [x % 128]
    ensures Digits(x, 2) == [x / 0x80 % 128 + 128] + Digits(x, 1)
    ensures Digits(x, 3) == [x / 0x4000 % 128 + 128] + Digits(x, 2)
    ensures Digits(x, 4) == [x / 0x20_0000 % 128 + 128] + Digits(x, 3)
    ensures Digits(x, 5) == [x / 0x1000_0000 % 128 + 128] + Digits(x, 4)
  {
    var a, b, c, d := x / 128, x / 0x4000, x / 0x20_0000, x / 0x1000_0000;
    assert a / 128 == b && b / 128 == c && c / 128 == d;
    MarkedSpelledOut(a, b, c, d);
  }

  lemma MarkedSpelledOut(a: int, b: int, c: int, d: int)
    requires a / 128 == b && b / 128 == c && c / 128 == d
    ensures Marked(a, 0) == [] && Marked(a, 1) == [a % 128 + 128]
    ensures Marked(a, 2) == [b % 128 + 128] + Marked(a, 1)
    ensures Marked(a, 3) == [c % 128 + 128] + Marked(a, 2)
    ensures Marked(a, 4) == [d % 128 + 128] + Marked(a, 3)
  {
    assert Marked(b, 1) == [b % 128 + 128];
    assert Marked(c, 1) == [c % 128 + 128];
    assert Marked(d, 1) == [d % 128 + 128];
    assert Marked(c, 2) == [d % 128 + 128] + [c % 128 + 128];
    assert Marked(b, 2) == [c % 128 + 128] + [b % 128 + 128];
    assert Marked(b, 3) == [d % 128 + 128] + ([c % 128 + 128] + [b % 128 + 128]);
  }

  /** Write `v` at position `p` of a buffer (C). */
  method EncodeInt(buf: array<Byte>, p: nat, v: Word) returns (q: nat)
    requires p + 5 <= buf.Length
    modifies buf
    ensures q == p + |CBytes(v)| && buf[..q] == old(buf[..p]) + CBytes(v)
  {
    hide Digits;
    DigitsSpelledOut(v);
    var sv := Signed(v);
    q := p;
    if !(-0x20 <= sv < 0x60) {
      if !(-0x1000 <= sv < 0x3000) {
        if !(-0x8_0000 <= sv < 0x18_0000) {
          if !(-0x400_0000 <= sv < 0xc00_0000) {
            buf[q], q := v / 0x1000_0000 + 128, q + 1;
          }
          buf[q], q := v / 0x20_0000 % 128 + 128, q + 1;
        }
        buf[q], q := v / 0x4000 % 128 + 128, q + 1;
      }
      buf[q], q := v / 0x80 % 128 + 128, q + 1;
    }
    buf[q], q := v % 128, q + 1;
  }

  /** Append `v` to a list (Python). */
  method PyEncode(out: seq<Byte>, v: int) returns (r: seq<Byte>)
    ensures r == out + Digits(v, Size(v))
  {
    hide Digits;
    DigitsSpelledOut(v);
    r := out;
    if v >= 0xc00_0000 || v < -0x400_0000 {
      r := r + [v / 0x1000_0000 % 128 + 128];
    }
    if v >= 0x18_0000 || v < -0x8_0000 {
      r := r + [v / 0x20_0000 % 128 + 128];
    }
    if v >= 0x3000 || v < -0x1000 {
      r := r + [v / 0x4000 % 128 + 128];
    }
    if v >= 0x60 || v < -0x20 {
      r := r + [v / 0x80 % 128 + 128];
    }
    r := r + [v % 128];
  }

  /** Read an integer from position `p` (C); the last byte of a message ends any integer. */
  method ParseInt(buf: seq<Byte>, p: nat) returns (v: Word, q: nat)
    requires p < |buf| && buf[|buf| - 1] < 128
    ensures p < q <= |buf| && Parse(buf[p..]).Some?
    ensures Parse(buf[p..]).value.rest == buf[q..] && v == Parse(buf[p..]).value.value % TWO32
  {
    q := p;
    var c := buf[q];
    q := q + 1;
    v := c % 128;
    ghost var exact := Leading(c);
    if c % 128 >= 96 {
      v := v + TWO32 - 128;
    }
    assert buf[p..][1..] == buf[p + 1..];
    while c >= 128
      invariant p < q <= |buf| && v == exact % TWO32 && (q == |buf| ==> c < 128)
      invariant Parse(buf[p..]) == if c >= 128 then ParseTail(exact, buf[q..]) else Some(Parsed(exact, buf[q..]))
      decreases |buf| - q
    {
      c := buf[q];
      assert buf[q..][1..] == buf[q + 1..];
      q := q + 1;
      Horner(exact, c % 128);
      v := (v * 128 + c % 128) % TWO32;
      exact := exact * 128 + c % 128;
    }
  }

  lemma Horner(x: int, d: int)
    ensures (x % TWO32 * 128 + d) % TWO32 == (x * 128 + d) % TWO32
  {
    var q, r := x / TWO32, x % TWO32;
    assert x * 128 + d == r * 128 + d + TWO32 * (128 * q);
    Multiple(r * 128 + d, 128 * q);
  }

  lemma Multiple(x: int, k: int)
    ensures (x + TWO32 * k) % TWO32 == x % TWO32
  {
    var q, r := x / TWO32, x % TWO32;
    assert x + TWO32 * k == TWO32 * (q + k) + r;
  }

  /** Read an integer (Python): the same, masked only when unsigned; None is an index error. */
  method PyParse(s: seq<Byte>, pos: nat, signed: bool) returns (r: Option<(int, nat)>)
    requires pos <= |s|
    ensures match r
            case None => Parse(s[pos..]).None?
            case Some((v, q)) =>
              && pos < q <= |s| && Parse(s[pos..]).Some? && Parse(s[pos..]).value.rest == s[q..]
              && v == if signed then Parse(s[pos..]).value.value else Parse(s[pos..]).value.value % TWO32
  {
    if pos == |s| {
      return None;
    }
    var c, q := s[pos], pos + 1;
    var v := c % 128;
    if c % 128 >= 96 {
      v := v - 128;
    }
    assert s[pos..][1..] == s[pos + 1..];
    while c >= 128
      invariant pos < q <= |s|
      invariant Parse(s[pos..]) == if c >= 128 then ParseTail(v, s[q..]) else Some(Parsed(v, s[q..]))
      decreases |s| - q
    {
      if q == |s| {
        return None;
      }
      c := s[q];
      assert s[q..][1..] == s[q + 1..];
      q := q + 1;
      v := v * 128 + c % 128;
    }
    if !signed {
      v := v % TWO32;
    }
    return Some((v, q));
  }

  // ---------- whole messages ----------

  function CList(data: seq<Word>): seq<Byte> {
    if data == [] then [] else CList(data[..|data| - 1]) + CBytes(data[|data| - 1])
  }

  lemma {:induction false} CListGrows(data: seq<Word>, n: nat)
    requires n <= |data|
    ensures |CList(data[..n])| <= |CList(data)|
  {
    if n < |data| {
      assert data[..|data| - 1][..n] == data[..n];
      CListGrows(data[..|data| - 1], n);
    } else {
      assert data[..n] == data;
    }
  }

  /** Fill a fixed buffer with encoded integers; too long a list yields an empty message. */
  method AllocAndEncode(data: seq<Word>) returns (msg: array<Byte>, len: nat)
    ensures fresh(msg) && msg.Length == 64 && len <= MESSAGE_PAYLOAD_MAX
    ensures if |CList(data)| <= MESSAGE_PAYLOAD_MAX then msg[..len] == CList(data) else len == 0
  {
    hide CBytes;
    msg := new Byte[64](_ => 0);
    var p: nat := 0;
    for i := 0 to |data|
      invariant p <= MESSAGE_PAYLOAD_MAX && msg[..p] == CList(data[..i])
    {
      assert data[..i + 1][..i] == data[..i];
      p := EncodeInt(msg, p, data[i]);
      if p > MESSAGE_PAYLOAD_MAX {
        CListGrows(data, i + 1);
        return msg, 0;
      }
    }
    assert data[..|data|] == data;
    return msg, p;
  }

  /** Bytes behind an integer do not change it; a cut integer runs on into them. */
  lemma {:induction false} TailExtends(v: int, a: seq<Byte>, b: seq<Byte>)
    ensures ParseTail(v, a).Some? ==>
      ParseTail(v, a + b) == Some(Parsed(ParseTail(v, a).value.value, ParseTail(v, a).value.rest + b))
    ensures ParseTail(v, a).None? && ParseTail(v, a + b).Some? ==> |ParseTail(v, a + b).value.rest| < |b|
    decreases |a|
  {
    if a == [] {
      assert a + b == b;
      TailShrinks(v, b);
    } else {
      assert (a + b)[1..] == a[1..] + b;
      TailExtends(v * 128 + a[0] % 128, a[1..], b);
    }
  }

  lemma {:induction false} TailShrinks(v: int, s: seq<Byte>)
    ensures ParseTail(v, s).Some? ==> |ParseTail(v, s).value.rest| < |s|
    decreases |s|
  {
    if s != [] { TailShrinks(v * 128 + s[0] % 128, s[1..]); }
  }

  lemma ParseExtends(a: seq<Byte>, b: seq<Byte>)
    requires a != []
    ensures Parse(a).Some? ==> Parse(a + b) == Some(Parsed(Parse(a).value.value, Parse(a).value.rest + b))
    ensures Parse(a).None? && Parse(a + b).Some? ==> |Parse(a + b).value.rest| < |b|
  {
    assert (a + b)[1..] == a[1..] + b;
    TailExtends(Leading(a[0]), a[1..], b);
  }

  function Words(vs: seq<int>): (r: seq<Word>)
    ensures |r| == |vs| && forall i :: 0 <= i < |vs| ==> r[i] == vs[i] % TWO32
  {
    seq(|vs|, i requires 0 <= i < |vs| => vs[i] % TWO32)
  }

  /** A payload that is exactly `n` integers, as 32-bit words. */
  function Decoded(n: nat, payload: seq<Byte>): Option<seq<Word>> {
    match ParseMany(n, payload)
    case None => None
    case Some((vs, rest)) => if rest == [] then Some(Words(vs)) else None
  }

  function Join(out: seq<Word>, more: Option<seq<Word>>): Option<seq<Word>> {
    if more.None? then None else Some(out + more.value)
  }

  lemma DecodedStep(n: nat, s: seq<Byte>)
    requires n > 0
    ensures Decoded(n, s) ==
      match Parse(s) case None => None case Some(p) => Join([p.value % TWO32], Decoded(n - 1, p.rest))
  {
    hide Parse;
    match Parse(s)
    case None =>
    case Some(p) =>
      match ParseMany(n - 1, p.rest)
      case None =>
      case Some((vs, rest)) =>
        assert Words([p.value] + vs) == [p.value % TWO32] + Words(vs);
  }

  /** Decode the payload of a message: it succeeds exactly when the payload is `dataLen` integers. */
  method Decode(dataLen: nat, msg: seq<Byte>) returns (data: Option<seq<Word>>)
    requires |msg| >= MESSAGE_HEADER_SIZE + MESSAGE_TRAILER_SIZE && msg[|msg| - 1] < 128
    ensures data == Decoded(dataLen, msg[MESSAGE_HEADER_SIZE..|msg| - MESSAGE_TRAILER_SIZE])
  {
    hide Parse, Decoded;
    var p, end := MESSAGE_HEADER_SIZE, |msg| - MESSAGE_TRAILER_SIZE;
    ghost var want := Decoded(dataLen, msg[p..end]);
    var out: seq<Word> := [];
    JoinNothing(want);
    for i := 0 to dataLen
      invariant MESSAGE_HEADER_SIZE <= p <= |msg|
      invariant if p <= end then want == Join(out, Decoded(dataLen - i, msg[p..end])) else want == None
    {
      if p >= end {
        if p == end { NothingToDecode(dataLen - i); assert msg[p..end] == []; }
        return None;
      }
      DecodedStep(dataLen - i, msg[p..end]);
      ParseExtends(msg[p..end], msg[end..]);
      assert msg[p..end] + msg[end..] == msg[p..];
      var v, q := ParseInt(msg, p);
      if q <= end {
        RestWithin(msg, p, q, end);
        JoinTwice(out, v, Decoded(dataLen - i - 1, msg[q..end]));
      }
      out, p := out + [v], q;
    }
    if p != end {
      if p < end { AllDecoded(msg[p..end]); }
      return None;
    }
    assert msg[p..end] == [] && out + [] == out;
    AllDecoded([]);
    return Some(out);
  }

  lemma RestWithin(msg: seq<Byte>, p: nat, q: nat, end: nat)
    requires p < q <= end <= |msg|
    requires Parse(msg[p..]).Some? && Parse(msg[p..]).value.rest == msg[q..]
    ensures Parse(msg[p..end]).Some? && Parse(msg[p..end]).value.rest == msg[q..end]
    ensures Parse(msg[p..end]).value.value == Parse(msg[p..]).value.value
  {
    hide Parse;
    assert msg[p..end] + msg[end..] == msg[p..];
    ParseExtends(msg[p..end], msg[end..]);
    var r := Parse(msg[p..end]).value.rest;
    assert r + msg[end..] == msg[q..];
    assert r == msg[q..][..|r|];
  }

  lemma JoinNothing(more: Option<seq<Word>>)
    ensures Join([], more) == more
  {
    if more.Some? { assert [] + more.value == more.value; }
  }

  lemma JoinTwice(out: seq<Word>, v: Word, more: Option<seq<Word>>)
    ensures Join(out, Join([v], more)) == Join(out + [v], more)
  {
    if more.Some? { assert out + ([v] + more.value) == out + [v] + more.value; }
  }

  lemma NothingToDecode(n: nat)
    requires n > 0
    ensures Decoded(n, []) == None
  {}

  lemma AllDecoded(s: seq<Byte>)
    ensures Decoded(0, s) == if s == [] then Some([]) else None
  {}

  /** The host's own messages come back unchanged, whatever header and trailer surround them. */
  lemma MessageRoundTrip(data: seq<Word>)
    ensures Decoded(|data|, CList(data)) == Some(data)
  {
    hide CBytes, CList, ParseMany, Encodes, Words;
    var ss := CParts(data);
    CPartsEncode(data);
    CListFlat(data, ss);
    ListRoundTrip(ss, data, []);
    assert Flatten(ss) + [] == CList(data);
    var (vs, tail) := ParseMany(|data|, CList(data)).value;
    WordsOf(vs, data);
  }

  function CParts(data: seq<Word>): (ss: seq<seq<Byte>>)
    ensures |ss| == |data| && forall i :: 0 <= i < |data| ==> ss[i] == CBytes(data[i])
  {
    seq(|data|, i requires 0 <= i < |data| => CBytes(data[i]))
  }

  lemma CPartsEncode(data: seq<Word>)
    ensures var ss := CParts(data); forall i :: 0 <= i < |data| ==> Encodes(ss[i], data[i])
  {
    hide Encodes, CBytes;
    forall i | 0 <= i < |data| ensures Encodes(CParts(data)[i], data[i]) { CBytesEncode(data[i]); }
  }

  lemma WordsOf(vs: seq<int>, data: seq<Word>)
    requires |vs| == |data| && forall i :: 0 <= i < |data| ==> vs[i] % TWO32 == data[i] % TWO32
    ensures Words(vs) == data
  {
    forall i | 0 <= i < |data| ensures Words(vs)[i] == data[i] {
      assert data[i] % TWO32 == data[i];
    }
  }

  lemma {:induction false} CListFlat(data: seq<Word>, ss: seq<seq<Byte>>)
    requires |ss| == |data| && forall i :: 0 <= i < |data| ==> ss[i] == CBytes(data[i])
    ensures Flatten(ss) == CList(data)
    decreases |data|
  {
    hide CBytes;
    if data != [] {
      var n := |data| - 1;
      CListFlat(data[..n], ss[..n]);
      assert ss == ss[..n] + [ss[n]];
      FlattenSnoc(ss[..n], ss[n]);
    }
  }

  lemma {:induction false} FlattenSnoc(ss: seq<seq<Byte>>, last: seq<Byte>)
    ensures Flatten(ss + [last]) == Flatten(ss) + last
  {
    if ss == [] {
      assert ss + [last] == [last] && [last][1..] == [];
    } else {
      assert (ss + [last])[1..] == ss[1..] + [last];
      FlattenSnoc(ss[1..], last);
    }
  }
}
