/** Arithmetic of the 32-bit tick counter and its wrap-around comparison (src/generic/timer_irq.c). */
module Clock32 {

  const TWO31: int := 0x8000_0000
  const TWO32: int := 0x1_0000_0000

  type Ticks = x: int | 0 <= x < TWO32

  /** The 32-bit counter value at an unbounded time. */
  function Wrap(x: int): Ticks { x % TWO32 }

  /** `(int32_t)(a - b)` */
  function SignedDiff(a: Ticks, b: Ticks): (d: int)
    ensures -TWO31 <= d < TWO31 && Wrap(d) == Wrap(a - b)
  {
    var d := Wrap(a - b);
    if d >= TWO31 then d - TWO32 else d
  }

  predicate IsBefore(a: Ticks, b: Ticks) { SignedDiff(a, b) < 0 }

  /** The later of two counter values. */
  function Later(a: Ticks, b: Ticks): Ticks { if IsBefore(a, b) then b else a }

  /**
    The comparison is exact for times less than half the counter range apart.  Further apart, it is exact only where
    the distance modulo the counter range falls into the half that stands for its sign.
   */
  lemma BeforeIsExact(x: int, y: int)
    ensures (IsBefore(Wrap(x), Wrap(y)) <==> x < y) <==>
            || -TWO31 <= x - y < TWO31
            || (x - y >= TWO31 && (x - y) % TWO32 < TWO31)
            || (x - y < -TWO31 && (x - y) % TWO32 >= TWO31)
  {
    WrapDiff(x, y);
    if -TWO31 <= x - y < 0 { assert (x - y) % TWO32 == x - y + TWO32; }
  }

  /** For times less than a whole counter range apart, less than half of it is the exact condition. */
  lemma NearIsExact(x: int, y: int)
    requires -TWO32 < x - y < TWO32
    ensures (IsBefore(Wrap(x), Wrap(y)) <==> x < y) <==> -TWO31 <= x - y < TWO31
  {
    WrapDiff(x, y);
    if x - y < 0 { assert (x - y) % TWO32 == x - y + TWO32; }
  }

  /** Half a range later reads as earlier. */
  lemma HalfRangeMisread()
    ensures IsBefore(Wrap(TWO31), Wrap(0)) && !(TWO31 < 0)
  {}

  lemma WrapUnique(x: int, r: int, q: int)
    requires x == r + TWO32 * q && 0 <= r < TWO32
    ensures Wrap(x) == r
  {}

  lemma WrapDiff(x: int, y: int)
    ensures Wrap(Wrap(x) - Wrap(y)) == Wrap(x - y)
  {
    var q := x / TWO32 - y / TWO32;
    assert x - y == Wrap(x) - Wrap(y) + TWO32 * q;
  }

  lemma WrapSum(x: int, y: int)
    ensures Wrap(Wrap(x) + y) == Wrap(x + y)
  {
    var q := x / TWO32;
    assert x + y == Wrap(x) + y + TWO32 * q;
  }

  /** A time is before the point half a range past `p` exactly when it is not before `p`. */
  lemma HalfRangeDual(w: Ticks, p: int)
    ensures IsBefore(w, Wrap(p + TWO31)) <==> !IsBefore(w, Wrap(p))
  {
    WrapDiff(w, p + TWO31);
    WrapDiff(w, p);
    assert Wrap(w) == w;
    var d, q := Wrap(w - p), (w - p) / TWO32;
    if d >= TWO31 {
      WrapUnique(w - (p + TWO31), d - TWO31, q);
    } else {
      WrapUnique(w - (p + TWO31), d + TWO31, q - 1);
    }
  }
}
