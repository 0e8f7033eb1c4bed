/** Greatest common divisors of naturals. */
module Gcds {
  import opened Arithmetic
  import opened Limbs

  predicate Dv(d: nat, n: nat) {
    d > 0 && n % d == 0
  }

  function Gcd(a: nat, b: nat): nat
    decreases b
  {
    if b == 0 then a else Gcd(b, a % b)
  }

  lemma DvTimes(d: nat, k: nat)
    requires d > 0
    ensures Dv(d, k * d)
  {
    DivUnique(k * d, d, k, 0);
  }

  lemma DvFactor(d: nat, n: nat) returns (k: nat)
    requires Dv(d, n)
    ensures n == k * d
  {
    k := n / d;
  }

  lemma DvLinear(d: nat, x: nat, y: nat, k: nat)
    requires Dv(d, y)
    ensures Dv(d, x) <==> Dv(d, x + k * y)
  {
    var m := DvFactor(d, y);
    if Dv(d, x) {
      var n := DvFactor(d, x);
      assert x + k * y == (n + k * m) * d by { assert k * (m * d) == (k * m) * d; }
      DvTimes(d, n + k * m);
    }
    if Dv(d, x + k * y) {
      var n := DvFactor(d, x + k * y);
      assert x == (n - k * m) * d by { assert k * (m * d) == (k * m) * d; }
      if n < k * m { MulMono(d, n - k * m, -1); }
      DvTimes(d, n - k * m);
    }
  }

  /** Gcd(a, b) divides both, and a number divides both exactly when it divides Gcd(a, b). */
  lemma {:induction false} GcdDivisors(a: nat, b: nat, d: nat)
    requires d > 0
    ensures Dv(d, a) && Dv(d, b) <==> Dv(d, Gcd(a, b))
    decreases b
  {
    if b == 0 {
      DvTimes(d, 0);
    } else {
      GcdDivisors(b, a % b, d);
      if Dv(d, b) {
        assert a == a % b + (a / b) * b;
        DvLinear(d, a % b, b, a / b);
      }
    }
  }

  lemma {:induction false} GcdPositive(a: nat, b: nat)
    ensures Gcd(a, b) > 0 <==> a > 0 || b > 0
    decreases b
  {
    if b > 0 { GcdPositive(b, a % b); }
  }

  lemma MutualDivisors(g: nat, h: nat)
    requires Dv(g, h) && Dv(h, g)
    ensures g == h
  {
    var k := DvFactor(g, h);
    var m := DvFactor(h, g);
    AtLeastFactor(k, g);
    AtLeastFactor(m, h);
  }

  lemma AtLeastFactor(k: nat, g: nat)
    ensures k * g == 0 || k * g >= g
  {
    if k > 0 { MulMono(g, 1, k); }
  }

  lemma ParityProduct(k: nat, d: nat)
    ensures (k * d) % 2 == (k % 2) * (d % 2)
  {
    var i, j := k / 2, d / 2;
    assert k * d == 2 * (i * d) + (k % 2) * (2 * j + d % 2);
    if k % 2 == 1 { assert k * d == 2 * (i * d + j) + d % 2; }
  }

  ghost predicate SameDivisors(a: nat, b: nat, x: nat, y: nat) {
    forall d: nat :: Dv(d, a) && Dv(d, b) <==> Dv(d, x) && Dv(d, y)
  }

  /** Pairs with the same common divisors have the same greatest one. */
  lemma GcdFromDivisors(a: nat, b: nat, x: nat, y: nat)
    requires SameDivisors(a, b, x, y) && (a > 0 || b > 0) && (x > 0 || y > 0)
    ensures Gcd(a, b) == Gcd(x, y)
  {
    var g, h := Gcd(a, b), Gcd(x, y);
    GcdPositive(a, b);
    GcdPositive(x, y);
    DvTimes(g, 1);
    DvTimes(h, 1);
    GcdDivisors(a, b, g);
    GcdDivisors(x, y, g);
    GcdDivisors(a, b, h);
    GcdDivisors(x, y, h);
    MutualDivisors(g, h);
  }

  lemma GcdZero(b: nat)
    ensures Gcd(0, b) == b
  {
    if b > 0 {
      assert 0 % b == 0;
      assert Gcd(b, 0) == b;
    }
  }

  lemma GcdSymmetric(a: nat, b: nat)
    ensures Gcd(a, b) == Gcd(b, a)
  {
    if a > 0 || b > 0 { GcdFromDivisors(a, b, b, a); }
  }

  lemma GcdSubtract(a: nat, b: nat)
    requires 0 < b <= a
    ensures Gcd(a - b, b) == Gcd(a, b)
  {
    forall d: nat ensures Dv(d, a - b) && Dv(d, b) <==> Dv(d, a) && Dv(d, b) {
      if Dv(d, b) { DvLinear(d, a - b, b, 1); }
    }
    GcdFromDivisors(a - b, b, a, b);
  }

  lemma OddDivisor(d: nat, b: nat)
    requires Dv(d, b) && b % 2 == 1
    ensures d % 2 == 1
  {
    var k := DvFactor(d, b);
    ParityProduct(k, d);
  }

  lemma HalfFactor(k: nat, d: nat)
    requires k % 2 == 0
    ensures k * d == 2 * ((k / 2) * d)
  {
    MulAssoc(2, k / 2, d);
  }

  lemma OddDividesHalf(d: nat, a: nat)
    requires d % 2 == 1
    ensures Dv(d, 2 * a) <==> Dv(d, a)
  {
    if Dv(d, 2 * a) {
      var k := DvFactor(d, 2 * a);
      ParityProduct(k, d);
      HalfFactor(k, d);
      DvTimes(d, k / 2);
    }
    if Dv(d, a) {
      var k := DvFactor(d, a);
      assert 2 * a == (2 * k) * d;
      DvTimes(d, 2 * k);
    }
  }

  lemma GcdHalf(a: nat, b: nat)
    requires b % 2 == 1
    ensures Gcd(2 * a, b) == Gcd(a, b)
  {
    forall d: nat ensures Dv(d, 2 * a) && Dv(d, b) <==> Dv(d, a) && Dv(d, b) {
      if Dv(d, b) {
        OddDivisor(d, b);
        OddDividesHalf(d, a);
      }
    }
    GcdFromDivisors(2 * a, b, a, b);
  }

  lemma {:induction false} GcdOddPart(m: nat, k: nat, b: nat)
    requires b % 2 == 1
    ensures Gcd(m * Pow2(k), b) == Gcd(m, b)
  {
    if k == 0 {
      assert m * 1 == m;
    } else {
      GcdOddPart(m, k - 1, b);
      assert m * Pow2(k) == 2 * (m * Pow2(k - 1));
      GcdHalf(m * Pow2(k - 1), b);
    }
  }

  lemma {:induction false} GcdScale(a: nat, b: nat, w: nat)
    requires w > 0
    ensures Gcd(a * w, b * w) == Gcd(a, b) * w
    decreases b
  {
    if b > 0 {
      ScaledDivision(a, b, w);
      MulMono(w, 1, b);
      GcdScale(b, a % b, w);
    }
  }

  /** A common divisor other than 1 is what a failed inverse has. */
  lemma GcdOne(a: nat, b: nat, d: nat)
    requires Gcd(a, b) == 1 && Dv(d, a) && Dv(d, b)
    ensures d == 1
  {
    GcdDivisors(a, b, d);
    DvTimes(1, d);
    MutualDivisors(d, 1);
  }
}
