/** What the bitwise operations do to every single bit. */
module BitLevel {
  import opened Arithmetic
  import opened Limbs
  import opened Bits
  import opened Bytes

  /** Bit i of x. */
  function Bit(x: nat, i: nat): (b: nat)
    ensures b < 2
  {
    QuotientNatural(x, Pow2(i));
    (x / Pow2(i)) % 2
  }

  lemma QuotientNatural(x: nat, w: nat)
    requires w > 0
    ensures x / w >= 0
  {
    var q, r := DivMod(x, w);
  }

  lemma BitStep(x: nat, i: nat)
    ensures Bit(x, 0) == x % 2 && Bit(x, i + 1) == Bit(Half(x), i)
  {
    DivUnique(x, 1, x, 0);
    var w := Pow2(i);
    assert Pow2(i + 1) == 2 * w && Pow2(0) == 1;
    hide Pow2;
    DivDiv(x, 2, w);
  }

  lemma XorBit(n: nat, a: nat, b: nat, i: nat)
    requires i < n
    ensures Bit(XorBits(n, a, b), i) == (Bit(a, i) + Bit(b, i)) % 2
    decreases i
  {
    hide XorBits, Bit;
    XorParts(n, a, b);
    BitStep(a, if i > 0 then i - 1 else 0);
    BitStep(b, if i > 0 then i - 1 else 0);
    BitStep(XorBits(n, a, b), if i > 0 then i - 1 else 0);
    if i > 0 { XorBit(n - 1, Half(a), Half(b), i - 1); }
  }

  lemma {:induction false} AndBit(a: nat, b: nat, i: nat)
    ensures Bit(BitAnd(a, b), i) == if Bit(a, i) == 1 && Bit(b, i) == 1 then 1 else 0
    decreases i
  {
    hide BitAnd, Bit;
    AndParts(a, b);
    BitStep(a, if i > 0 then i - 1 else 0);
    BitStep(b, if i > 0 then i - 1 else 0);
    BitStep(BitAnd(a, b), if i > 0 then i - 1 else 0);
    if i > 0 { AndBit(Half(a), Half(b), i - 1); }
  }

  lemma {:induction false} NotBit(n: nat, a: nat, i: nat)
    requires i < n && a < Pow2(n)
    ensures Bit(BitNot(n, a), i) == 1 - Bit(a, i)
    decreases i
  {
    NotParts(n, a);
    hide BitNot, Bit, Pow2;
    BitStep(a, if i > 0 then i - 1 else 0);
    BitStep(BitNot(n, a), if i > 0 then i - 1 else 0);
    if i > 0 { NotBit(n - 1, Half(a), i - 1); }
  }

  /** Two parts laid side by side. */
  lemma {:induction false} BitOfSum(l: nat, k: nat, h: nat, i: nat)
    requires h < Pow2(k)
    ensures Bit(l * Pow2(k) + h, i) == if i < k then Bit(h, i) else Bit(l, i - k)
    decreases k
  {
    if k == 0 {
      assert h == 0 && l * Pow2(0) == l;
    } else {
      var w := Pow2(k - 1);
      assert Pow2(k) == 2 * w;
      HalfBelow(h, w);
      hide Pow2, Bit;
      EvenProduct(l, w);
      HalfOfDouble(l * w, h);
      BitStep(l * (2 * w) + h, if i > 0 then i - 1 else 0);
      BitStep(h, if i > 0 then i - 1 else 0);
      if i > 0 { BitOfSum(l, k - 1, Half(h), i - 1); }
    }
  }

  lemma HalfOfDouble(m: nat, h: nat)
    ensures Half(2 * m + h) == m + Half(h) && (2 * m + h) % 2 == h % 2
  {
  }

  lemma NoBit(x: nat, i: nat)
    requires x < Pow2(i)
    ensures Bit(x, i) == 0
  {
    DivUnique(x, Pow2(i), 0, x);
  }

  /** Exclusive or of bytes, bit by bit. */
  lemma XorByteBit(a: Byte, b: Byte, i: nat)
    requires i < 8
    ensures Bit(XorByte(a, b), i) == (Bit(a, i) + Bit(b, i)) % 2
  {
    hide Bit, XorBits;
    XorBit(8, a, b, i);
  }
}
