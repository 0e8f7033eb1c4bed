/** Binary greatest common divisor and binary modular inverse. */
module MpiGcd {
  import opened Arithmetic
  import opened Limbs
  import opened MpiCore
  import opened MpiAddSub
  import opened MpiShift
  import opened Gcds

  function OddOf(v: nat): nat {
    v / Pow2(TrailingZeros(v))
  }

  lemma StripLeft(x: nat, y: nat)
    requires x > 0 && y % 2 == 1
    ensures Gcd(OddOf(x), y) == Gcd(x, y) && OddOf(x) % 2 == 1 && OddOf(x) <= x && OddOf(y) == y
  {
    hide Gcd;
    OddPart(x);
    GcdOddPart(OddOf(x), TrailingZeros(x), y);
    AtLeastFactor(OddOf(x), Pow2(TrailingZeros(x)));
    MulMono(OddOf(x), 1, Pow2(TrailingZeros(x)));
    assert Pow2(0) == 1;
  }

  /** Dropping the factors of two of both numbers keeps the gcd when one of them is odd. */
  lemma StripTwos(x: nat, y: nat)
    requires x > 0 && y > 0 && (x % 2 == 1 || y % 2 == 1)
    ensures Gcd(OddOf(x), OddOf(y)) == Gcd(x, y)
    ensures OddOf(x) % 2 == 1 && OddOf(y) % 2 == 1 && OddOf(x) <= x && OddOf(y) <= y
  {
    hide Gcd, TrailingZeros;
    if y % 2 == 1 {
      StripLeft(x, y);
    } else {
      StripLeft(y, x);
      GcdSymmetric(OddOf(y), x);
      GcdSymmetric(y, x);
    }
  }

  /** Half the difference of two odd numbers. */
  lemma SubtractHalve(x: nat, y: nat)
    requires x % 2 == 1 && y % 2 == 1 && y <= x
    ensures Gcd((x - y) / 2, y) == Gcd(x, y)
  {
    hide Gcd;
    GcdSubtract(x, y);
    GcdHalf((x - y) / 2, y);
  }

  lemma CommonTwos(a: nat, b: nat, lz: nat)
    requires b > 0 && lz == if TrailingZeros(b) < TrailingZeros(a) then TrailingZeros(b) else TrailingZeros(a)
    ensures b / Pow2(lz) > 0 && Gcd(a / Pow2(lz), b / Pow2(lz)) * Pow2(lz) == Gcd(a, b)
    ensures a == 0 || (a / Pow2(lz)) % 2 == 1 || (b / Pow2(lz)) % 2 == 1
  {
    hide Gcd, TrailingZeros;
    var w := Pow2(lz);
    OddPart(b);
    FactorTwos(b, TrailingZeros(b), lz);
    if a > 0 {
      OddPart(a);
      FactorTwos(a, TrailingZeros(a), lz);
    } else {
      DivUnique(0, w, 0, 0);
    }
    GcdScale(a / w, b / w, w);
    AtLeastFactor(b / w, w);
  }

  lemma FactorTwos(a: nat, k: nat, lz: nat)
    requires lz <= k && a == (a / Pow2(k)) * Pow2(k)
    ensures a == (a / Pow2(lz)) * Pow2(lz)
  {
    Pow2Add(k - lz, lz);
    var m := (a / Pow2(k)) * Pow2(k - lz);
    MulAssoc(a / Pow2(k), Pow2(k - lz), Pow2(lz));
    DivUnique(a, Pow2(lz), m, 0);
  }

  /** G = gcd(A, B), except that a zero B gives 0. */
  method GreatestCommonDivisor(G: Mpi, A: Mpi, B: Mpi)
    modifies G
    ensures G.Value() == if old(B.Abs()) == 0 then 0 else Gcd(old(A.Abs()), old(B.Abs()))
  {
    var TA := new Mpi();
    var TB := new Mpi();
    Copy(TA, A);
    Copy(TB, B);
    ghost var a, b := A.Abs(), B.Abs();
    var lz := LowestSetBit(TA);
    var lzt := LowestSetBit(TB);
    if lzt < lz { lz := lzt; }
    ShiftRight(TA, lz);
    ShiftRight(TB, lz);
    TA.s, TB.s := 1, 1;
    if b > 0 { CommonTwos(a, b, lz); } else { DivUnique(0, Pow2(lz), 0, 0); }
    BinaryGcd(TA, TB);
    ShiftLeft(TB, lz);
    if TB.Abs() == 0 { assert 0 * Pow2(lz) == 0; }
    Copy(G, TB);
  }

  method BinaryGcd(TA: Mpi, TB: Mpi)
    requires TA != TB && TA.s == TB.s == 1
    requires TB.Abs() > 0 ==> TA.Abs() == 0 || TA.Abs() % 2 == 1 || TB.Abs() % 2 == 1
    modifies TA, TB
    ensures TB.s == 1
    ensures TB.Abs() == if old(TB.Abs()) == 0 then 0 else Gcd(old(TA.Abs()), old(TB.Abs()))
  {
    hide Gcd;
    ghost var a, b := TA.Abs(), TB.Abs();
    var order := CompareInt(TA, 0);
    while order != 0
      invariant TA.s == TB.s == 1 && order == Order(TA.Abs(), 0)
      invariant b == 0 ==> TB.Abs() == 0
      invariant b > 0 ==> TB.Abs() > 0 && Gcd(TA.Abs(), TB.Abs()) == Gcd(a, b)
      invariant b > 0 ==> TA.Abs() == 0 || TA.Abs() % 2 == 1 || TB.Abs() % 2 == 1
      decreases TA.Abs() + TB.Abs()
    {
      BinaryGcdRound(TA, TB);
      order := CompareInt(TA, 0);
    }
    GcdZero(TB.Abs());
  }

  method StripZeros(T: Mpi)
    requires T.s == 1
    modifies T
    ensures T.s == 1 && T.Abs() == OddOf(old(T.Abs()))
    ensures old(T.Abs()) == 0 ==> T.Abs() == 0
  {
    var k := LowestSetBit(T);
    ShiftRight(T, k);
    DivUnique(0, 1, 0, 0);
  }

  method BinaryGcdRound(TA: Mpi, TB: Mpi)
    requires TA != TB && TA.s == TB.s == 1 && TA.Abs() > 0
    requires TB.Abs() > 0 ==> TA.Abs() % 2 == 1 || TB.Abs() % 2 == 1
    modifies TA, TB
    ensures TA.s == TB.s == 1 && TA.Abs() + TB.Abs() < old(TA.Abs() + TB.Abs())
    ensures TB.Abs() == 0 <==> old(TB.Abs()) == 0
    ensures TB.Abs() > 0 ==> Gcd(TA.Abs(), TB.Abs()) == Gcd(old(TA.Abs()), old(TB.Abs()))
    ensures TB.Abs() > 0 ==> TA.Abs() % 2 == 1 || TB.Abs() % 2 == 1
  {
    hide Gcd, OddOf, Val;
    ghost var x, y := TA.Abs(), TB.Abs();
    if y > 0 { StripTwos(x, y); } else { StripLeft(x, 1); }
    StripZeros(TA);
    StripZeros(TB);
    ghost var u, v := TA.Abs(), TB.Abs();
    assert Pow2(1) == 2;
    var order := Compare(TA, TB);
    if order >= 0 {
      if v > 0 { SubtractHalve(u, v); }
      var done := SubAbs(TA, TA, TB);
      ShiftRight(TA, 1);
    } else {
      SubtractHalve(v, u);
      GcdSymmetric(u, v);
      GcdSymmetric(u, (v - u) / 2);
      var done := SubAbs(TB, TB, TA);
      ShiftRight(TB, 1);
    }
  }

  /** What the zero test of the operand order costs: the result is the gcd exactly when B is not zero or A is. */
  lemma GcdOfZero(a: nat, b: nat)
    ensures (if b == 0 then 0 else Gcd(a, b)) == Gcd(a, b) <==> b != 0 || a == 0
  {
  }
}
