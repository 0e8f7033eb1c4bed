/** Modular inverse by the binary extended algorithm. */
module MpiInverse {
  import opened Arithmetic
  import opened Limbs
  import opened MpiCore
  import opened MpiAddSub
  import opened MpiShift
  import opened MpiDivide
  import opened Gcds
  import opened MpiGcd

  /** A row keeps t == u1 * ta + u2 * tb. */
  ghost predicate Row(t: int, u1: int, u2: int, ta: int, tb: int) {
    t == u1 * ta + u2 * tb
  }

  lemma ParityOfProduct(x: int, y: int)
    ensures (x * y) % 2 == if x % 2 == 1 && y % 2 == 1 then 1 else 0
  {
    ModLeft(x, y, 2);
    var r := x % 2;
    assert r == 0 ==> r * y == 0;
    assert r == 1 ==> r * y == y;
  }

  lemma OddCoefficients(t: int, u1: int, u2: int, ta: int, tb: int)
    requires Row(t, u1, u2, ta, tb) && t % 2 == 0 && (ta % 2 == 1 || tb % 2 == 1)
    ensures u1 % 2 == 1 || u2 % 2 == 1 ==> (u1 + tb) % 2 == 0 && (u2 - ta) % 2 == 0
  {
    ParityOfProduct(u1, ta);
    ParityOfProduct(u2, tb);
    ParityCases(u1 * ta, u2 * tb, u1, u2, ta, tb);
  }

  lemma ParityCases(a: int, b: int, u1: int, u2: int, ta: int, tb: int)
    requires a % 2 == (if u1 % 2 == 1 && ta % 2 == 1 then 1 else 0)
    requires b % 2 == (if u2 % 2 == 1 && tb % 2 == 1 then 1 else 0)
    requires (a + b) % 2 == 0 && (ta % 2 == 1 || tb % 2 == 1)
    ensures u1 % 2 == 1 || u2 % 2 == 1 ==> (u1 + tb) % 2 == 0 && (u2 - ta) % 2 == 0
  {
  }

  /** For an even t with odd coefficients, adding (tb, -ta) keeps the row and makes both coefficients even. */
  lemma EvenRow(t: int, u1: int, u2: int, ta: int, tb: int)
    requires Row(t, u1, u2, ta, tb) && t % 2 == 0 && (ta % 2 == 1 || tb % 2 == 1)
    ensures u1 % 2 == 1 || u2 % 2 == 1 ==> (u1 + tb) % 2 == 0 && (u2 - ta) % 2 == 0
    ensures Row(t, u1 + tb, u2 - ta, ta, tb)
  {
    OddCoefficients(t, u1, u2, ta, tb);
    assert (u1 + tb) * ta == u1 * ta + tb * ta;
    assert (u2 - ta) * tb == u2 * tb - tb * ta;
  }

  lemma HalfRow(t: int, u1: int, u2: int, ta: int, tb: int)
    requires Row(t, u1, u2, ta, tb) && u1 % 2 == 0 && u2 % 2 == 0
    ensures t % 2 == 0 && Row(t / 2, u1 / 2, u2 / 2, ta, tb)
  {
    var h1, h2 := u1 / 2, u2 / 2;
    assert u1 * ta == 2 * (h1 * ta) && u2 * tb == 2 * (h2 * tb);
  }

  lemma RowDifference(t: int, u1: int, u2: int, v: int, v1: int, v2: int, ta: int, tb: int)
    requires Row(t, u1, u2, ta, tb) && Row(v, v1, v2, ta, tb)
    ensures Row(t - v, u1 - v1, u2 - v2, ta, tb)
  {
    MulSub(ta, u1, v1);
    MulSub(tb, u2, v2);
  }

  /** The parity of a number, of either sign, is that of its lowest limb. */
  lemma LowLimbParity(X: Mpi)
    requires X.p != []
    ensures X.p[0] % 2 == X.Value() % 2
  {
    ParityOfLimbs(X.p);
    hide Val;
  }

  lemma CoprimeHalf(x: nat, y: nat)
    requires Gcd(2 * x, y) == 1
    ensures Gcd(x, y) == 1
  {
    var g := Gcd(x, y);
    GcdPositive(x, y);
    GcdPositive(2 * x, y);
    DvTimes(g, 1);
    GcdDivisors(x, y, g);
    DvLinear(g, x, x, 1);
    GcdOne(2 * x, y, g);
  }

  /** X >>= 1 for an even X of either sign. */
  method HalveEven(X: Mpi)
    requires X.p != [] && X.Value() % 2 == 0
    modifies X
    ensures X.p != [] && X.Value() == old(X.Value()) / 2
  {
    assert Pow2(1) == 2;
    ShiftRight(X, 1);
  }

  /** Halve T while it is even, keeping its row. */
  method HalveRow(T: Mpi, C1: Mpi, C2: Mpi, TA: Mpi, TB: Mpi)
    requires T != C1 && T != C2 && C1 != C2 && T != TA && T != TB && C1 != TA && C1 != TB && C2 != TA && C2 != TB
    requires T.p != [] && C1.p != [] && C2.p != [] && TA.p != [] && TB.p != []
    requires T.Value() > 0 && (TA.Value() % 2 == 1 || TB.Value() % 2 == 1)
    requires Row(T.Value(), C1.Value(), C2.Value(), TA.Value(), TB.Value())
    modifies T, C1, C2
    ensures T.p != [] && C1.p != [] && C2.p != []
    ensures 0 < T.Value() <= old(T.Value())
    ensures Row(T.Value(), C1.Value(), C2.Value(), TA.Value(), TB.Value())
    ensures forall o: nat :: Gcd(old(T.Abs()), o) == 1 ==> Gcd(T.Abs(), o) == 1
  {
    hide Gcd, Val, Row;
    LowLimbParity(T);
    while T.p[0] % 2 == 0
      invariant T.p != [] && C1.p != [] && C2.p != []
      invariant 0 < T.Value() <= old(T.Value()) && T.p[0] % 2 == T.Value() % 2
      invariant Row(T.Value(), C1.Value(), C2.Value(), TA.Value(), TB.Value())
      invariant forall o: nat :: Gcd(old(T.Abs()), o) == 1 ==> Gcd(T.Abs(), o) == 1
      decreases T.Value()
    {
      ghost var t := T.Value();
      forall o: nat | Gcd(T.Abs(), o) == 1 ensures Gcd(t / 2, o) == 1 { CoprimeHalf(t / 2, o); }
      HalveEven(T);
      MakeEven(C1, C2, TA, TB, t);
      HalfRow(t, C1.Value(), C2.Value(), TA.Value(), TB.Value());
      HalveEven(C1);
      HalveEven(C2);
      LowLimbParity(T);
    }
  }

  /** The conditional addition that makes both coefficients of an even row even. */
  method MakeEven(C1: Mpi, C2: Mpi, TA: Mpi, TB: Mpi, ghost t: int)
    requires C1 != C2 && C1 != TA && C1 != TB && C2 != TA && C2 != TB
    requires C1.p != [] && C2.p != [] && TA.p != [] && TB.p != []
    requires t % 2 == 0 && (TA.Value() % 2 == 1 || TB.Value() % 2 == 1)
    requires Row(t, C1.Value(), C2.Value(), TA.Value(), TB.Value())
    modifies C1, C2
    ensures C1.p != [] && C2.p != [] && C1.Value() % 2 == 0 && C2.Value() % 2 == 0
    ensures Row(t, C1.Value(), C2.Value(), TA.Value(), TB.Value())
  {
    hide Val, Row;
    EvenRow(t, C1.Value(), C2.Value(), TA.Value(), TB.Value());
    LowLimbParity(C1);
    LowLimbParity(C2);
    if C1.p[0] % 2 != 0 || C2.p[0] % 2 != 0 {
      Add(C1, C1, TB);
      Sub(C2, C2, TA);
    }
  }

  /** Subtract one row from another. */
  method SubtractRow(T: Mpi, C1: Mpi, C2: Mpi, S: Mpi, D1: Mpi, D2: Mpi)
    requires T != C1 && T != C2 && C1 != C2 && T != D1 && T != D2 && C1 != S && C1 != D2 && C2 != S && C2 != D1
    requires T != S && C1 != D1 && C2 != D2
    requires T.p != [] && C1.p != [] && C2.p != [] && S.p != [] && D1.p != [] && D2.p != []
    modifies T, C1, C2
    ensures T.p != [] && C1.p != [] && C2.p != []
    ensures T.Value() == old(T.Value() - S.Value())
    ensures C1.Value() == old(C1.Value() - D1.Value()) && C2.Value() == old(C2.Value() - D2.Value())
  {
    hide Val;
    Sub(T, T, S);
    Sub(C1, C1, D1);
    Sub(C2, C2, D2);
  }

  lemma CoprimeDifference(x: nat, y: nat)
    requires 0 < y <= x && Gcd(x, y) == 1
    ensures Gcd(x - y, y) == 1 && Gcd(y, x - y) == 1
  {
    GcdSubtract(x, y);
    GcdSymmetric(x - y, y);
  }

  /** One round: halve both rows, subtract the smaller from the larger. */
  method InverseRound(TU: Mpi, U1: Mpi, U2: Mpi, TV: Mpi, V1: Mpi, V2: Mpi, TA: Mpi, TB: Mpi)
    requires Distinct(TU, U1, U2, TV, V1, V2, TA, TB)
    requires Filled(TU, U1, U2, TV, V1, V2, TA, TB)
    requires TU.Value() > 0 && TV.Value() > 0 && (TA.Value() % 2 == 1 || TB.Value() % 2 == 1)
    requires Row(TU.Value(), U1.Value(), U2.Value(), TA.Value(), TB.Value())
    requires Row(TV.Value(), V1.Value(), V2.Value(), TA.Value(), TB.Value())
    requires Gcd(TU.Abs(), TV.Abs()) == 1
    modifies TU, U1, U2, TV, V1, V2
    ensures Filled(TU, U1, U2, TV, V1, V2, TA, TB)
    ensures TU.Value() >= 0 && TV.Value() > 0 && TU.Value() + TV.Value() < old(TU.Value() + TV.Value())
    ensures Row(TU.Value(), U1.Value(), U2.Value(), TA.Value(), TB.Value())
    ensures Row(TV.Value(), V1.Value(), V2.Value(), TA.Value(), TB.Value())
    ensures Gcd(TU.Abs(), TV.Abs()) == 1
  {
    hide Gcd, Val, Row;
    HalveRow(TU, U1, U2, TA, TB);
    GcdSymmetric(TU.Abs(), TV.Abs());
    ghost var u := TU.Abs();
    assert Gcd(TV.Abs(), u) == 1;
    HalveRow(TV, V1, V2, TA, TB);
    assert Gcd(TV.Abs(), u) == 1;
    GcdSymmetric(TU.Abs(), TV.Abs());
    ghost var x, y := TU.Value(), TV.Value();
    var order := Compare(TU, TV);
    if order >= 0 {
      CoprimeDifference(x, y);
      RowDifference(x, U1.Value(), U2.Value(), y, V1.Value(), V2.Value(), TA.Value(), TB.Value());
      SubtractRow(TU, U1, U2, TV, V1, V2);
    } else {
      GcdSymmetric(x, y);
      CoprimeDifference(y, x);
      RowDifference(y, V1.Value(), V2.Value(), x, U1.Value(), U2.Value(), TA.Value(), TB.Value());
      SubtractRow(TV, V1, V2, TU, U1, U2);
    }
  }

  ghost predicate Distinct(a: Mpi, b: Mpi, c: Mpi, d: Mpi, e: Mpi, f: Mpi, g: Mpi, h: Mpi) {
    && a !in {b, c, d, e, f, g, h} && b !in {c, d, e, f, g, h} && c !in {d, e, f, g, h}
    && d !in {e, f, g, h} && e !in {f, g, h} && f !in {g, h}
  }

  ghost predicate Filled(a: Mpi, b: Mpi, c: Mpi, d: Mpi, e: Mpi, f: Mpi, g: Mpi, h: Mpi)
    reads a, b, c, d, e, f, g, h
  {
    && a.p != [] && b.p != [] && c.p != [] && d.p != [] && e.p != [] && f.p != [] && g.p != [] && h.p != []
  }

  lemma NotBothEven(a: nat, b: nat)
    requires Gcd(a, b) == 1
    ensures a % 2 == 1 || b % 2 == 1
  {
    if a % 2 == 0 && b % 2 == 0 { GcdOne(a, b, 2); }
  }

  lemma LastRow(v: int, v1: int, v2: int, ta: int, n: int)
    requires Row(v, v1, v2, ta, n) && v == 1 && n > 1
    ensures (v1 * ta) % n == 1
  {
    AddMultiple(v1 * ta, n, v2);
    DivUnique(1, n, 0, 1);
  }

  /** The coefficient v with v * ta == 1 modulo n, for coprime 0 < ta < n. */
  method BinaryExtended(TA: Mpi, N: Mpi) returns (V1: Mpi)
    requires TA != N && TA.p != [] && N.p != []
    requires 0 < TA.Value() < N.Value() && Gcd(TA.Abs(), N.Abs()) == 1
    ensures fresh(V1)
    ensures (V1.Value() * TA.Value()) % N.Value() == 1
  {
    hide Gcd, Val;
    var TU := new Mpi();
    var TB := new Mpi();
    var TV := new Mpi();
    var U1 := new Mpi();
    var U2 := new Mpi();
    V1 := new Mpi();
    var V2 := new Mpi();
    Copy(TU, TA);
    Copy(TB, N);
    Copy(TV, N);
    SetInt(U1, 1);
    SetInt(U2, 0);
    SetInt(V1, 0);
    SetInt(V2, 1);
    NotBothEven(TA.Abs(), N.Abs());
    RunRounds(TU, U1, U2, TV, V1, V2, TA, TB);
    LastRow(TV.Value(), V1.Value(), V2.Value(), TA.Value(), TB.Value());
  }

  /** The main loop; coprime rows end with TU == 0 and TV == 1. */
  method RunRounds(TU: Mpi, U1: Mpi, U2: Mpi, TV: Mpi, V1: Mpi, V2: Mpi, TA: Mpi, TB: Mpi)
    requires Distinct(TU, U1, U2, TV, V1, V2, TA, TB)
    requires Filled(TU, U1, U2, TV, V1, V2, TA, TB)
    requires TU.Value() > 0 && TV.Value() > 0 && (TA.Value() % 2 == 1 || TB.Value() % 2 == 1)
    requires Row(TU.Value(), U1.Value(), U2.Value(), TA.Value(), TB.Value())
    requires Row(TV.Value(), V1.Value(), V2.Value(), TA.Value(), TB.Value())
    requires Gcd(TU.Abs(), TV.Abs()) == 1
    modifies TU, U1, U2, TV, V1, V2
    ensures TU.Value() == 0 && TV.Value() == 1
    ensures Row(TV.Value(), V1.Value(), V2.Value(), TA.Value(), TB.Value())
  {
    hide Gcd, Val, Row;
    var order := 1;
    while order != 0
      invariant Filled(TU, U1, U2, TV, V1, V2, TA, TB)
      invariant TU.Value() >= 0 && TV.Value() > 0 && order == Order(TU.Value(), 0)
      invariant Row(TU.Value(), U1.Value(), U2.Value(), TA.Value(), TB.Value())
      invariant Row(TV.Value(), V1.Value(), V2.Value(), TA.Value(), TB.Value())
      invariant Gcd(TU.Abs(), TV.Abs()) == 1
      decreases TU.Value() + TV.Value()
    {
      InverseRound(TU, U1, U2, TV, V1, V2, TA, TB);
      order := CompareInt(TU, 0);
    }
    GcdZero(TV.Abs());
  }

  /** The residue of a number coprime to n is coprime to n. */
  lemma CoprimeResidue(a: int, n: nat)
    requires n > 1 && Gcd(AbsInt(a), n) == 1
    ensures 0 < a % n < n && Gcd(a % n, n) == 1
  {
    var r := AbsInt(a) % n;
    assert Gcd(n, r) == 1;
    assert r != 0;
    GcdSymmetric(n, r);
    if a < 0 {
      NegatedRem(-a, n);
      GcdSubtract(n, r);
      GcdSubtract(n, n - r);
      GcdSymmetric(r, n - r);
      GcdSymmetric(n, n - r);
    }
  }

  lemma InverseOf(a: int, v: int, n: int)
    requires n > 1 && (v * (a % n)) % n == 1
    ensures (a * (v % n)) % n == 1
  {
    var t, w := a % n, v % n;
    ModProduct(v, t, n);
    ModProduct(a, w, n);
    DivUnique(t, n, 0, t);
    DivUnique(w, n, 0, w);
    assert t * w == w * t;
  }

  /** X = A^-1 mod N: succeeds exactly for coprime operands. X may be A or N. */
  method InverseMod(X: Mpi, A: Mpi, N: Mpi) returns (ret: Status)
    modifies X
    ensures ret == if old(N.Value()) <= 1 then BadInputData
                   else if Gcd(old(A.Abs()), old(N.Abs())) != 1 then NotAcceptable else Ok
    ensures !ret.Ok? ==> unchanged(X)
    ensures ret.Ok? ==> 0 <= X.Value() < old(N.Value()) && (old(A.Value()) * X.Value()) % old(N.Value()) == 1
  {
    hide Gcd, Val;
    var order := CompareInt(N, 1);
    if order <= 0 { return BadInputData; }
    var G := new Mpi();
    GreatestCommonDivisor(G, A, N);
    order := CompareInt(G, 1);
    if order != 0 { return NotAcceptable; }
    ghost var a, n := A.Value(), N.Value();
    CoprimeResidue(a, n);
    var TA := new Mpi();
    ret := Mod(TA, A, N);
    if N.p == [] || TA.p == [] { EmptyIsZero(); }
    var V1 := BinaryExtended(TA, N);
    ghost var v := V1.Value();
    BringIntoRange(V1, N);
    InverseOf(a, v, n);
    Copy(X, V1);
    return Ok;
  }
}
