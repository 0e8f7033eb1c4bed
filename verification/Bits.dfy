/** Bitwise operations on naturals. */
module Bits {
  import opened Limbs

  /** Bitwise or of two naturals, bit by bit. */
  function BitOr(x: nat, y: nat): nat
    decreases x + y
  {
    if x == 0 then y
    else if y == 0 then x
    else 2 * BitOr(x / 2, y / 2) + if x % 2 == 1 || y % 2 == 1 then 1 else 0
  }

  lemma {:induction false} BitOrZero(x: nat, y: nat)
    ensures BitOr(x, y) == 0 <==> x == 0 && y == 0
    ensures BitOr(0, y) == y
    decreases x + y
  {
    if x > 0 && y > 0 { BitOrZero(x / 2, y / 2); }
  }

  /** Operands without a common bit position add up. */
  lemma {:induction false} BitOrDisjoint(m: nat, y: nat, k: nat)
    requires y < Pow2(k)
    ensures BitOr(m * Pow2(k), y) == BitOr(y, m * Pow2(k)) == m * Pow2(k) + y
  {
    hide BitOr;
    var x := m * Pow2(k);
    if x == 0 || y == 0 {
      BitOrZero(y, x);
      BitOrZero(x, y);
      OrNothing(y);
      OrNothing(x);
    } else if k > 0 {
      var w := Pow2(k - 1);
      assert Pow2(k) == 2 * w;
      hide Pow2;
      BitOrDisjoint(m, y / 2, k - 1);
      EvenProduct(m, w);
      BitOrStep(x, m * w, y);
    }
  }

  lemma EvenProduct(m: nat, w: nat)
    ensures m * (2 * w) == 2 * (m * w)
  {
  }

  lemma BitOrStep(x: nat, h: nat, y: nat)
    requires x == 2 * h && x > 0 && y > 0
    requires BitOr(h, y / 2) == BitOr(y / 2, h) == h + y / 2
    ensures BitOr(x, y) == BitOr(y, x) == x + y
  {
    assert x / 2 == h && x % 2 == 0;
  }

  function Half(a: nat): nat {
    a / 2
  }

  function LowXor(a: nat, b: nat): nat {
    (a + b) % 2
  }

  /** Bitwise exclusive or of the lowest n bits. */
  function XorBits(n: nat, a: nat, b: nat): nat {
    if n == 0 then 0 else LowXor(a, b) + 2 * XorBits(n - 1, Half(a), Half(b))
  }

  lemma {:induction false} XorBelow(n: nat, a: nat, b: nat)
    ensures XorBits(n, a, b) < Pow2(n)
  {
    if n > 0 { XorBelow(n - 1, Half(a), Half(b)); }
  }

  lemma LowBit(a: nat, b: nat, h: nat)
    ensures Half(LowXor(a, b) + 2 * h) == h
    ensures LowXor(LowXor(a, b) + 2 * h, b) + 2 * Half(a) == a
  {
    var r := LowXor(a, b);
    assert (r + 2 * h + b) % 2 == (r + b) % 2;
  }

  lemma XorUnfold(n: nat, a: nat, b: nat)
    requires n > 0
    ensures XorBits(n, a, b) == LowXor(a, b) + 2 * XorBits(n - 1, Half(a), Half(b))
  {
  }

  lemma {:induction false} XorBitsBack(n: nat, a: nat, b: nat)
    requires a < Pow2(n)
    ensures XorBits(n, XorBits(n, a, b), b) == a
  {
    if n > 0 {
      HalfBelow(a, Pow2(n - 1));
      hide Half, LowXor, XorBits;
      XorUnfold(n, a, b);
      XorUnfold(n, XorBits(n, a, b), b);
      XorBitsBack(n - 1, Half(a), Half(b));
      LowBit(a, b, XorBits(n - 1, Half(a), Half(b)));
    } else {
      assert XorBits(0, XorBits(n, a, b), b) == 0;
    }
  }

  lemma HalfBelow(a: nat, w: nat)
    requires a < 2 * w
    ensures Half(a) < w
  {
  }

  lemma {:induction false} XorCommutes(n: nat, a: nat, b: nat)
    ensures XorBits(n, a, b) == XorBits(n, b, a)
  {
    if n > 0 { XorCommutes(n - 1, Half(a), Half(b)); }
  }

  lemma {:induction false} XorNothing(n: nat, a: nat)
    requires a < Pow2(n)
    ensures XorBits(n, a, 0) == a
  {
    if n > 0 {
      HalfBelow(a, Pow2(n - 1));
      XorNothing(n - 1, Half(a));
      HalfAgain(a);
    }
  }

  lemma HalfAgain(a: nat)
    ensures LowXor(a, 0) + 2 * Half(a) == a && Half(0) == 0
  {
  }

  /** The second operand does not reach beyond its own k bits. */
  lemma XorLow(n: nat, k: nat, l: nat, h: nat, b: nat)
    requires k <= n && l < Pow2(k) && b < Pow2(k) && h < Pow2(n - k)
    ensures XorBits(n, l + Pow2(k) * h, b) == XorBits(k, l, b) + Pow2(k) * h
  {
    hide Pow2;
    DoublingIsProduct(k, h);
    XorBelowDoubled(n, k, l, h, b);
  }

  /** h doubled k times. */
  function Doubling(k: nat, h: nat): nat {
    if k == 0 then h else 2 * Doubling(k - 1, h)
  }

  lemma {:induction false} DoublingIsProduct(k: nat, h: nat)
    ensures Doubling(k, h) == Pow2(k) * h
  {
    if k > 0 {
      DoublingIsProduct(k - 1, h);
      DoubleTimes(Pow2(k - 1), h);
    }
  }

  lemma {:induction false} XorBelowDoubled(n: nat, k: nat, l: nat, h: nat, b: nat)
    requires k <= n && l < Pow2(k) && b < Pow2(k) && h < Pow2(n - k)
    ensures XorBits(n, l + Doubling(k, h), b) == XorBits(k, l, b) + Doubling(k, h)
  {
    if k == 0 {
      XorNothing(n, h);
      assert XorBits(0, l, b) == 0 && Doubling(0, h) == h;
      hide Pow2, XorBits, Doubling;
    } else {
      HalfBelow(l, Pow2(k - 1));
      HalfBelow(b, Pow2(k - 1));
      XorBelowDoubled(n - 1, k - 1, Half(l), h, Half(b));
      hide Pow2, Half, LowXor, XorBits;
      XorOneMore(n, k, l, Doubling(k - 1, h), b);
    }
  }

  lemma XorOneMore(n: nat, k: nat, l: nat, m: nat, b: nat)
    requires 0 < k <= n && XorBits(n - 1, Half(l) + m, Half(b)) == XorBits(k - 1, Half(l), Half(b)) + m
    ensures XorBits(n, l + 2 * m, b) == XorBits(k, l, b) + 2 * m
  {
    hide Half, LowXor, XorBits;
    HalfOfSum(l, m, b);
    XorUnfold(n, l + 2 * m, b);
    XorUnfold(k, l, b);
  }

  lemma DoubleTimes(w: nat, h: nat)
    ensures (2 * w) * h == 2 * (w * h)
  {
  }

  lemma HalfOfSum(l: nat, m: nat, b: nat)
    ensures Half(l + 2 * m) == Half(l) + m && LowXor(l + 2 * m, b) == LowXor(l, b)
  {
    assert (l + 2 * m + b) % 2 == (l + b) % 2;
  }

  // ----- and, complement, and the identities between them -----

  /** Bitwise and of two naturals. */
  function BitAnd(a: nat, b: nat): nat
    decreases a + b
  {
    if a == 0 || b == 0 then 0
    else (if a % 2 == 1 && b % 2 == 1 then 1 else 0) + 2 * BitAnd(Half(a), Half(b))
  }

  /** The complement within n bits. */
  function BitNot(n: nat, a: nat): nat
    requires a < Pow2(n)
  {
    Pow2(n) - 1 - a
  }

  lemma LowAndHalf(l: nat, h: nat)
    requires l < 2
    ensures (l + 2 * h) % 2 == l && Half(l + 2 * h) == h
  {
  }

  /** Lowest bit and remaining bits of each operation. */
  lemma AndParts(a: nat, b: nat)
    ensures BitAnd(a, b) % 2 == 1 <==> a % 2 == 1 && b % 2 == 1
    ensures Half(BitAnd(a, b)) == BitAnd(Half(a), Half(b))
  {
    if a > 0 && b > 0 {
      LowAndHalf(if a % 2 == 1 && b % 2 == 1 then 1 else 0, BitAnd(Half(a), Half(b)));
    } else {
      assert BitAnd(a, b) == 0 && BitAnd(Half(a), Half(b)) == 0;
    }
  }

  lemma OrParts(a: nat, b: nat)
    ensures BitOr(a, b) % 2 == 1 <==> a % 2 == 1 || b % 2 == 1
    ensures Half(BitOr(a, b)) == BitOr(Half(a), Half(b))
  {
    if a > 0 && b > 0 {
      assert a / 2 == Half(a) && b / 2 == Half(b);
      LowAndHalf(if a % 2 == 1 || b % 2 == 1 then 1 else 0, BitOr(Half(a), Half(b)));
    } else if a == 0 {
      BitOrZero(a, b);
      BitOrZero(Half(a), Half(b));
    } else {
      OrNothing(a);
      OrNothing(Half(a));
    }
  }

  lemma OrNothing(x: nat)
    ensures BitOr(x, 0) == x
  {
  }

  lemma XorParts(n: nat, a: nat, b: nat)
    requires n > 0
    ensures XorBits(n, a, b) % 2 == 1 <==> (a % 2 == 1) != (b % 2 == 1)
    ensures Half(XorBits(n, a, b)) == XorBits(n - 1, Half(a), Half(b))
  {
    XorUnfold(n, a, b);
    LowXorParity(a, b);
    hide XorBits, LowXor, Half;
    LowAndHalf(LowXor(a, b), XorBits(n - 1, Half(a), Half(b)));
  }

  lemma LowXorParity(a: nat, b: nat)
    ensures LowXor(a, b) < 2 && (LowXor(a, b) == 1 <==> (a % 2 == 1) != (b % 2 == 1))
  {
  }

  lemma NotParts(n: nat, a: nat)
    requires n > 0 && a < Pow2(n)
    ensures BitNot(n, a) % 2 == 1 <==> a % 2 == 0
    ensures Half(a) < Pow2(n - 1) && Half(BitNot(n, a)) == BitNot(n - 1, Half(a))
  {
    var w := Pow2(n - 1);
    assert Pow2(n) == 2 * w;
    hide Pow2;
    NotArith(w, a);
  }

  lemma NotArith(w: nat, a: nat)
    requires a < 2 * w
    ensures Half(a) < w && Half(2 * w - 1 - a) == w - 1 - Half(a)
    ensures (2 * w - 1 - a) % 2 == 1 <==> a % 2 == 0
  {
    var h, l := a / 2, a % 2;
    assert 2 * w - 1 - a == 2 * (w - 1 - h) + (1 - l);
  }

  lemma SameParts(a: nat, b: nat)
    requires (a % 2 == 1 <==> b % 2 == 1) && Half(a) == Half(b)
    ensures a == b
  {
  }

  /** The majority function of SHA-256 as coded. */
  function MajorityCode(x: nat, y: nat, z: nat): nat {
    BitOr(BitAnd(x, y), BitAnd(z, BitOr(x, y)))
  }

  /** The same as section 4.1.2 of FIPS 180-4 writes it. */
  function Majority(n: nat, x: nat, y: nat, z: nat): nat {
    XorBits(n, XorBits(n, BitAnd(x, y), BitAnd(x, z)), BitAnd(y, z))
  }

  lemma {:induction false} MajorityForms(n: nat, x: nat, y: nat, z: nat)
    requires x < Pow2(n) && y < Pow2(n) && z < Pow2(n)
    ensures MajorityCode(x, y, z) == Majority(n, x, y, z)
  {
    if n > 0 {
      HalfBelow(x, Pow2(n - 1));
      HalfBelow(y, Pow2(n - 1));
      HalfBelow(z, Pow2(n - 1));
      MajorityForms(n - 1, Half(x), Half(y), Half(z));
      hide XorBits, BitAnd, BitOr, Half, Pow2;
      AndParts(x, y);
      OrParts(x, y);
      AndParts(z, BitOr(x, y));
      OrParts(BitAnd(x, y), BitAnd(z, BitOr(x, y)));
      AndParts(x, z);
      AndParts(y, z);
      XorParts(n, BitAnd(x, y), BitAnd(x, z));
      XorParts(n, XorBits(n, BitAnd(x, y), BitAnd(x, z)), BitAnd(y, z));
      SameParts(MajorityCode(x, y, z), Majority(n, x, y, z));
    }
  }

  function ChooseCode(n: nat, x: nat, y: nat, z: nat): nat {
    XorBits(n, z, BitAnd(x, XorBits(n, y, z)))
  }

  function Choose(n: nat, x: nat, y: nat, z: nat): nat
    requires x < Pow2(n)
  {
    XorBits(n, BitAnd(x, y), BitAnd(BitNot(n, x), z))
  }

  lemma {:induction false} ChooseForms(n: nat, x: nat, y: nat, z: nat)
    requires x < Pow2(n)
    ensures ChooseCode(n, x, y, z) == Choose(n, x, y, z)
  {
    if n > 0 {
      HalfBelow(x, Pow2(n - 1));
      ChooseForms(n - 1, Half(x), Half(y), Half(z));
      hide XorBits, BitAnd, BitOr, Half, Pow2, BitNot;
      NotParts(n, x);
      XorParts(n, y, z);
      AndParts(x, XorBits(n, y, z));
      XorParts(n, z, BitAnd(x, XorBits(n, y, z)));
      AndParts(x, y);
      AndParts(BitNot(n, x), z);
      XorParts(n, BitAnd(x, y), BitAnd(BitNot(n, x), z));
      SameParts(ChooseCode(n, x, y, z), Choose(n, x, y, z));
    }
  }
}
