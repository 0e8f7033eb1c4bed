/** Division of two limbs by one limb, with and without a double-width type. */
module LimbDivide {
  import opened Arithmetic
  import opened Bits
  import opened Limbs
  import opened MpiShift
  import opened MpiMul

  /** With a double-width type; the quotient saturates when it does not fit a limb. */
  method DivideWide(u1: Limb, u0: Limb, d: Limb) returns (q: Limb, r: Limb)
    ensures d == 0 || u1 >= d ==> q == r == BASE - 1
    ensures u1 < d ==> q == (u1 * BASE + u0) / d && r == (u1 * BASE + u0) % d
  {
    if d == 0 || u1 >= d { return BASE - 1, BASE - 1; }
    QuotientFits(u1, u0, d);
    var dividend := u1 * BASE + u0;
    q := dividend / d;
    r := dividend - q * d;
  }

  lemma QuotientFits(u1: Limb, u0: Limb, d: Limb)
    requires u1 < d
    ensures 0 <= (u1 * BASE + u0) / d < BASE
  {
    var q, r := DivMod(u1 * BASE + u0, d);
    if q >= BASE { MulMono(d, BASE, q); }
  }

  /** The correction of an estimate q of the digit t of (u*R + a)/d, R the half-limb radix:
      the loop condition holds exactly for estimates above t. */
  lemma DigitEstimate(u: nat, a: nat, d1: nat, d0: nat, t: nat, rem: nat, q: nat, r: nat)
    requires d0 < HALF && a < HALF && u < d1 * HALF + d0
    requires t * (d1 * HALF + d0) + rem == u * HALF + a && rem < d1 * HALF + d0
    requires q * d1 + r == u
    ensures q >= HALF ==> r < HALF
    ensures t < HALF
    ensures q >= HALF || q * d0 > HALF * r + a <==> q > t
    ensures q < HALF && r >= HALF ==> q * d0 <= HALF * r + a
  {
    var d, v := d1 * HALF + d0, u * HALF + a;
    assert q * d == (u - r) * HALF + q * d0 by { assert q * d == (q * d1) * HALF + q * d0; }
    if q >= HALF && r >= HALF { MulMono(d1, HALF, q); }
    if t >= HALF { MulMono(d, HALF, t); }
    if q * d0 > HALF * r + a && q <= t { MulMono(d, q, t); }
    if q * d0 <= HALF * r + a && q > t { MulMono(d, t + 1, q); assert d * (t + 1) == t * d + d; }
    if q < HALF && r >= HALF { MulMono(d0, q, HALF); MulMono(HALF, HALF, r); MulMono(HALF, d0, HALF); }
  }

  lemma EstimateAbove(u: nat, a: nat, d1: nat, d0: nat, t: nat, rem: nat)
    requires d1 > 0 && a < HALF
    requires t * (d1 * HALF + d0) + rem == u * HALF + a
    ensures t <= u / d1 && (u / d1) * d1 + u % d1 == u
  {
    var q, m := u / d1, t * d1;
    assert t * (d1 * HALF + d0) == m * HALF + t * d0;
    MulMono(d0, 0, t);
    assert m <= u;
    if t > q { ScaledBelow(q, t, d1); }
  }

  /** One digit of the half-limb division, down to the new remainder. */
  method DivideHalfDigit(u: Limb, a: Limb, d: Limb, d1: Limb, d0: Limb) returns (q: Limb, r: Limb)
    requires d == d1 * HALF + d0 && d0 < HALF && HALF / 2 <= d1 < HALF && a < HALF && u < d
    ensures q == (u * HALF + a) / d < HALF && r == (u * HALF + a) % d
  {
    ghost var t, rem := DivMod(u * HALF + a, d);
    EstimateAbove(u, a, d1, d0, t, rem);
    var q', r' := CorrectDigit(u, a, d1, d0, t, rem);
    q := q';
    r := (u * HALF + (a - q * d)) % BASE;
  }

  method CorrectDigit(u: Limb, a: Limb, d1: Limb, d0: Limb, ghost t: nat, ghost rem: nat) returns (q: Limb, r: Limb)
    requires d0 < HALF && 0 < d1 < HALF && a < HALF && u < d1 * HALF + d0
    requires t * (d1 * HALF + d0) + rem == u * HALF + a && rem < d1 * HALF + d0
    requires t <= u / d1 && (u / d1) * d1 + u % d1 == u
    ensures q == t < HALF
  {
    q := u / d1;
    r := u - d1 * q;
    while q >= HALF || q * d0 > HALF * r + a
      invariant q * d1 + r == u && t <= q && r < HALF
      decreases HALF - r
    {
      DigitEstimate(u, a, d1, d0, t, rem, q, r);
      PreviousDigit(q, d1, r);
      q := q - 1;
      r := r + d1;
      DigitEstimate(u, a, d1, d0, t, rem, q, r);
      if r >= HALF { return; }
    }
    DigitEstimate(u, a, d1, d0, t, rem, q, r);
  }

  lemma PreviousDigit(q: int, d1: int, r: int)
    ensures (q - 1) * d1 + (r + d1) == q * d1 + r
  {
  }

  /** From half-limb divisions, after scaling the divisor up to a full limb. */
  method DivideHalves(u1: Limb, u0: Limb, d: Limb) returns (q: Limb, r: Limb)
    ensures d == 0 || u1 >= d ==> q == r == BASE - 1
    ensures u1 < d ==> q == (u1 * BASE + u0) / d && r == (u1 * BASE + u0) % d
  {
    if d == 0 || u1 >= d { return BASE - 1, BASE - 1; }
    var s := LeadingZeros(d);
    var d', u1', u0' := ScaleUp(u1, u0, d, s);
    var d1, d0 := d' / HALF, d' % HALF;
    var q1, rAX := DivideHalfDigit(u1', u0' / HALF, d', d1, d0);
    var q0, rest := DivideHalfDigit(rAX, u0' % HALF, d', d1, d0);
    TwoDigits(u1', u0' / HALF, u0' % HALF, d');
    ScaledDivision(u1 * BASE + u0, d, Pow2(s));
    q := q1 * HALF + q0;
    r := rest / Pow2(s);
  }

  method ScaleUp(u1: Limb, u0: Limb, d: Limb, s: nat) returns (d': Limb, u1': Limb, u0': Limb)
    requires s <= 64 && IsBitLength(d, 64 - s) && u1 < d
    ensures d' == d * Pow2(s) && HALF / 2 <= d' / HALF && u1' < d'
    ensures u1' * BASE + u0' == (u1 * BASE + u0) * Pow2(s)
  {
    ScaledDivisor(d, s);
    ScaledBelow(u1, d, Pow2(s));
    var carried;
    d' := ShiftInto(d, 0, s);
    carried, u0' := TopBits(u0, s);
    u1' := ShiftInto(u1, carried, s);
    ScaleSum(u1, u0, Pow2(s));
  }

  /** x shifted up by s bits, with `low` in the bits that become free. */
  method ShiftInto(x: Limb, low: Limb, s: nat) returns (y: Limb)
    requires low < Pow2(s) && x * Pow2(s) + low < BASE
    ensures y == x * Pow2(s) + low
  {
    ModSmall(x * Pow2(s));
    BitOrDisjoint(x, low, s);
    y := BitOr((x * Pow2(s)) % BASE, low);
  }

  lemma ModSmall(m: nat)
    requires m < BASE
    ensures m % BASE == m
  {
  }

  /** The low limb shifted up by s bits, and the bits that leave it; for s = 0 the mask in the code drops the undefined
      shift by a whole limb. */
  method TopBits(u0: Limb, s: nat) returns (carried: Limb, shifted: Limb)
    requires s < 64
    ensures carried < Pow2(s)
    ensures u0 * Pow2(s) == carried * BASE + shifted
  {
    if s == 0 {
      assert u0 * 1 == u0;
      return 0, u0;
    }
    LimbShiftUp(u0, s);
    return u0 / Pow2(64 - s), (u0 * Pow2(s)) % BASE;
  }

  lemma ScaleSum(x: int, y: int, w: int)
    ensures (x * BASE + y) * w == (x * w) * BASE + y * w
  {
  }

  lemma ScaledDivisor(d: Limb, s: nat)
    requires s < 64 && IsBitLength(d, 64 - s) && d > 0
    ensures BASE / 2 <= d * Pow2(s) < BASE
  {
    LimbSplitsAt(s);
    ScaledBetween(d, Pow2(s), Pow2(63 - s));
  }

  lemma ScaledBetween(d: nat, w: nat, h: nat)
    requires w * (2 * h) == BASE && h <= d < 2 * h
    ensures BASE / 2 <= d * w < BASE
  {
    assert w * (2 * h) == 2 * (w * h);
    MulMono(w, h, d);
    ScaledBelow(d, 2 * h, w);
  }

  lemma TwoDigits(u: nat, a: nat, b: nat, d: nat)
    requires 0 < d && u < d && a < HALF && b < HALF
    ensures var q1, r1 := (u * HALF + a) / d, (u * HALF + a) % d;
      var q0, r0 := (r1 * HALF + b) / d, (r1 * HALF + b) % d;
      (u * BASE + (a * HALF + b)) / d == q1 * HALF + q0 && (u * BASE + (a * HALF + b)) % d == r0
  {
    var q1, r1 := (u * HALF + a) / d, (u * HALF + a) % d;
    var q0, r0 := (r1 * HALF + b) / d, (r1 * HALF + b) % d;
    assert (q1 * HALF + q0) * d == (q1 * d) * HALF + q0 * d;
    DivUnique(u * BASE + (a * HALF + b), d, q1 * HALF + q0, r0);
  }
}
