/** Long division and reduction. */
module MpiDivide {
  import opened Arithmetic
  import opened Bits
  import opened Limbs
  import opened MpiCore
  import opened MpiAddSub
  import opened MpiMul
  import opened MpiShift
  import opened LimbDivide

  // ----- division that truncates towards zero -----

  function TruncQuot(a: int, b: int): int
    requires b != 0
  {
    if (a < 0) == (b < 0) then AbsInt(a) / AbsInt(b) else -(AbsInt(a) / AbsInt(b))
  }

  function TruncRem(a: int, b: int): int
    requires b != 0
  {
    if a < 0 then -(AbsInt(a) % AbsInt(b)) else AbsInt(a) % AbsInt(b)
  }

  /** The two functions are the one pair (q, r) with a == q*b + r, |r| < |b| and r zero or of a's sign. */
  lemma TruncUnique(a: int, b: int, q: int, r: int)
    requires b != 0
    ensures q == TruncQuot(a, b) && r == TruncRem(a, b)
       <==> a == q * b + r && AbsInt(r) < AbsInt(b) && (r == 0 || (r < 0) == (a < 0))
  {
    var x, y := AbsInt(a), AbsInt(b);
    var q0, r0 := DivMod(x, y);
    NegateProduct(q0, y);
    NegateProduct(q, y);
    var s, e := if (a < 0) == (b < 0) then q else -q, if a < 0 then -r else r;
    assert a == q * b + r <==> x == s * y + e;
    if x == s * y + e && 0 <= e < y { DivUnique(x, y, s, e); }
  }

  // ----- one quotient digit -----

  /** x and y are the leading limbs of X*B and D*B in units of m. */
  ghost predicate Leading(X: nat, D: nat, m: nat, x: nat, y: nat) {
    && x * m <= X * BASE < x * m + m
    && y * m <= D * BASE < y * m + m
  }

  /** A candidate z not above the digit q of X by D passes the test z*y <= x, and one that passes
      is at most one too large. */
  lemma DigitTest(X: nat, D: nat, m: nat, x: nat, y: nat, q: nat, z: nat)
    requires Leading(X, D, m, x, y) && y >= BASE && q * D <= X && z < BASE
    ensures z <= q ==> z * y <= x
    ensures z * y <= x ==> z * D < X + D
  {
    assert z * (D * BASE) == (z * D) * BASE && z * (y * m) == (z * y) * m && z * (y * m + m) == (z * y) * m + z * m;
    MulMono(z, y * m, D * BASE);
    MulMono(z, D * BASE, y * m + m);
    if z <= q {
      MulMono(D, z, q);
      if z * y > x { ScaledBelow(x, z * y, m); }
    }
    if z * y <= x {
      MulMono(m, z * y, x);
      MulMono(m, z + 1, y);
      assert m * (z + 1) == z * m + m;
      assert (z * D) * BASE <= X * BASE + z * m;
    }
  }

  /** The first estimate is never too small. */
  lemma FirstEstimate(q: nat, x2: nat, x1: nat, x0: nat, y1: nat, y0: nat)
    requires q * (y1 * BASE + y0) <= (x2 * BASE + x1) * BASE + x0 && x0 < BASE && y1 > 0
    ensures q <= (x2 * BASE + x1) / y1
  {
    var u := x2 * BASE + x1;
    assert q * (y1 * BASE + y0) == (q * y1) * BASE + q * y0;
    MulMono(q, 0, y0);
    assert q * y1 <= u;
    var t, rem := DivMod(u, y1);
    if q > t { ScaledBelow(t, q, y1); }
  }

  /** The leading limbs of the running remainder and of the shifted divisor. */
  lemma LeadingThree(p: seq<Limb>, i: nat, x0: nat) returns (rest: nat)
    requires 0 < i < |p| && Val(p) < LimbPow(i + 1)
    requires x0 == if i < 2 then 0 else p[i - 2]
    ensures Val(p) * BASE == ((p[i] * BASE + p[i - 1]) * BASE + x0) * LimbPow(i - 1) + rest && rest < LimbPow(i - 1)
  {
    ValHighZero(p, i + 1);
    ValSnoc(p, i);
    ValSnoc(p, i - 1);
    var l := LimbPow(i - 1);
    if i < 2 {
      rest := 0;
      assert Val(p) == p[0] + p[1] * BASE;
    } else {
      ValSnoc(p, i - 2);
      ValBound(p[..i - 2]);
      rest := Val(p[..i - 2]) * BASE;
      Scale3(Val(p[..i - 2]), p[i - 2], p[i - 1], p[i], LimbPow(i - 2));
    }
  }

  lemma Scale3(v: nat, a: nat, b: nat, c: nat, w: nat)
    ensures (((v + a * w) + b * (BASE * w)) + c * (BASE * (BASE * w))) * BASE
         == ((c * BASE + b) * BASE + a) * (BASE * w) + v * BASE
  {
  }

  lemma LeadingTwo(p: seq<Limb>, t: nat, y0: nat) returns (rest: nat)
    requires t < |p| && Val(p) < LimbPow(t + 1)
    requires y0 == if t < 1 then 0 else p[t - 1]
    ensures Val(p) * BASE == (p[t] * BASE + y0) * LimbPow(t) + rest && rest < LimbPow(t)
  {
    ValHighZero(p, t + 1);
    ValSnoc(p, t);
    if t < 1 {
      rest := 0;
    } else {
      ValSnoc(p, t - 1);
      ValBound(p[..t - 1]);
      rest := Val(p[..t - 1]) * BASE;
      Scale2(Val(p[..t - 1]), p[t - 1], p[t], LimbPow(t - 1));
    }
  }

  lemma Scale2(v: nat, a: nat, b: nat, w: nat)
    ensures ((v + a * w) + b * (BASE * w)) * BASE == (b * BASE + a) * (BASE * w) + v * BASE
  {
  }

  lemma LeadingLimbs(xp: seq<Limb>, yp: seq<Limb>, i: nat, t: nat, x0: nat, y0: nat)
    requires t < i < |xp| && t < |yp| && Val(xp) < LimbPow(i + 1) && Val(yp) < LimbPow(t + 1)
    requires x0 == if i < 2 then 0 else xp[i - 2]
    requires y0 == if t < 1 then 0 else yp[t - 1]
    ensures Leading(Val(xp), Val(yp) * LimbPow(i - t - 1), LimbPow(i - 1),
      (xp[i] * BASE + xp[i - 1]) * BASE + x0, yp[t] * BASE + y0)
  {
    hide Val, LimbPow;
    var rx := LeadingThree(xp, i, x0);
    var rest := LeadingTwo(yp, t, y0);
    var k := i - t - 1;
    LimbPowAdd(t, k);
    ScaleLeading(Val(yp), yp[t] * BASE + y0, LimbPow(t), rest, LimbPow(k));
    TopDecides(0, 0, LimbPow(k), rest, LimbPow(t));
  }

  lemma ScaleLeading(v: nat, y: nat, w: nat, r: nat, l: nat)
    requires v * BASE == y * w + r
    ensures (v * l) * BASE == y * (w * l) + r * l
  {
    assert (v * l) * BASE == (v * BASE) * l;
    assert (y * w) * l == y * (w * l);
  }

  lemma ValThree(p: seq<Limb>)
    requires |p| >= 2 && forall k :: 3 <= k < |p| ==> p[k] == 0
    ensures Val(p) == p[0] + BASE * (p[1] + BASE * if |p| > 2 then p[2] else 0)
  {
    ValHead(p, 0);
    assert p[0..] == p;
    ValHead(p, 1);
    if |p| > 2 {
      ValHead(p, 2);
      ValZero(p[3..]);
    }
  }

  method SetTwo(T: Mpi, l0: Limb, l1: Limb)
    requires |T.p| >= 2
    modifies T
    ensures T.s == 1 && |T.p| == old(|T.p|) && T.Abs() == l0 + BASE * l1
  {
    SetInt(T, 0);
    ValZero(T.p);
    T.p := T.p[0 := l0];
    T.p := T.p[1 := l1];
    ValThree(T.p);
  }

  method SetThree(T: Mpi, l0: Limb, l1: Limb, l2: Limb)
    requires |T.p| >= 3
    modifies T
    ensures T.s == 1 && |T.p| == old(|T.p|) && T.Abs() == (l2 * BASE + l1) * BASE + l0
  {
    SetInt(T, 0);
    ValZero(T.p);
    T.p := T.p[0 := l0];
    T.p := T.p[1 := l1];
    T.p := T.p[2 := l2];
    ValThree(T.p);
  }

  /** The running remainder and the divisor when quotient digit i - t - 1 is due. */
  ghost predicate DigitDue(xp: seq<Limb>, yp: seq<Limb>, i: nat, t: nat) {
    && t < i < |xp| && t < |yp| && yp[t] > 0
    && Val(yp) < LimbPow(t + 1)
    && Val(xp) < Val(yp) * LimbPow(i - t)
  }

  lemma DigitBounds(xp: seq<Limb>, yp: seq<Limb>, i: nat, t: nat)
    requires DigitDue(xp, yp, i, t)
    ensures Val(yp) * LimbPow(i - t) == BASE * (Val(yp) * LimbPow(i - t - 1))
    ensures Val(xp) < LimbPow(i + 1) && Val(yp) * LimbPow(i - t - 1) > 0
  {
    hide Val;
    ScaleBase(Val(yp), LimbPow(i - t - 1));
    LimbPowAdd(t + 1, i - t);
    TopDecides(0, 0, LimbPow(i - t), Val(yp), LimbPow(t + 1));
    ValZero(yp);
    MulMono(LimbPow(i - t - 1), 1, Val(yp));
  }

  lemma ScaleBase(v: int, w: int)
    ensures v * (BASE * w) == BASE * (v * w)
  {
  }

  /** The 3-by-2 test. */
  method TestDigit(T1: Mpi, T2: Mpi, z: Limb, y1: Limb, y0: Limb, x2: Limb, x1: Limb, x0: Limb,
                   ghost x: nat, ghost y: nat) returns (above: bool)
    requires T1 != T2 && |T1.p| >= 2 && |T2.p| >= 3
    requires x == (x2 * BASE + x1) * BASE + x0 && y == y1 * BASE + y0
    modifies T1, T2
    ensures |T1.p| >= 2 && |T2.p| >= 3
    ensures above <==> z * y > x
  {
    hide Val;
    SetTwo(T1, y0, y1);
    assert T1.Value() == y;
    MulInt(T1, T1, z);
    SetThree(T2, x0, x1, x2);
    assert T2.Value() == x;
    assert T1.Value() == y * z == z * y;
    var order := Compare(T1, T2);
    above := order > 0;
  }

  /** Lower the estimate until the 3-by-2 test passes. The increment before the loop wraps for the largest limb. */
  method LowerEstimate(T1: Mpi, T2: Mpi, guess: Limb, y1: Limb, y0: Limb, x2: Limb, x1: Limb, x0: Limb,
                       ghost X: nat, ghost D: nat, ghost m: nat, ghost x: nat, ghost y: nat, ghost q: nat)
    returns (z: Limb)
    requires T1 != T2 && |T1.p| >= 2 && |T2.p| >= 3
    requires x == (x2 * BASE + x1) * BASE + x0 && y == y1 * BASE + y0 && y >= BASE
    requires Leading(X, D, m, x, y) && q * D <= X < q * D + D && q <= guess
    modifies T1, T2
    ensures |T1.p| >= 2 && |T2.p| >= 3
    ensures z * D < X + D && X < z * D + D
  {
    hide Val, Leading;
    ghost var candidate := guess;
    z := (guess + 1) % BASE;
    var again := true;
    while again
      invariant |T1.p| >= 2 && |T2.p| >= 3 && q <= candidate
      invariant again ==> z == (candidate + 1) % BASE
      invariant !again ==> z == candidate && z * y <= x
      decreases again, candidate
    {
      WrapBack(candidate);
      z := (z - 1) % BASE;
      DigitTest(X, D, m, x, y, q, candidate);
      again := TestDigit(T1, T2, z, y1, y0, x2, x1, x0, x, y);
      if again { candidate := candidate - 1; }
    }
    DigitTest(X, D, m, x, y, q, z);
    MulMonoLeft(D, q, z);
  }

  lemma WrapBack(c: Limb)
    ensures ((c + 1) % BASE - 1) % BASE == c
  {
  }

  /** The first estimate: the two top limbs of the remainder by the top limb of the divisor. */
  method GuessDigit(x2: Limb, x1: Limb, x0: Limb, y1: Limb, y0: Limb, ghost q: Limb) returns (z: Limb)
    requires q * (y1 * BASE + y0) <= (x2 * BASE + x1) * BASE + x0 && y1 > 0
    ensures q <= z
  {
    FirstEstimate(q, x2, x1, x0, y1, y0);
    if x2 >= y1 {
      z := BASE - 1;
    } else {
      var rest: Limb;
      z, rest := DivideWide(x2, x1, y1);
    }
  }

  /** The estimate of one digit is never too small and at most one too large. */
  method EstimateDigit(X: Mpi, Y: Mpi, T1: Mpi, T2: Mpi, i: nat, t: nat) returns (z: Limb)
    requires T1 != X && T1 != Y && T2 != X && T2 != Y && T1 != T2
    requires DigitDue(X.p, Y.p, i, t) && |T1.p| >= 2 && |T2.p| >= 3
    modifies T1, T2
    ensures |T1.p| >= 2 && |T2.p| >= 3
    ensures var D := Y.Abs() * LimbPow(i - t - 1); z * D < X.Abs() + D && X.Abs() < z * D + D
  {
    hide Val, LimbPow;
    var x0: Limb := if i < 2 then 0 else X.p[i - 2];
    var y0: Limb := if t < 1 then 0 else Y.p[t - 1];
    ghost var D := Y.Abs() * LimbPow(i - t - 1);
    ghost var q := TrueDigit(X.p, Y.p, i, t, x0, y0, X.Abs(), D);
    z := GuessDigit(X.p[i], X.p[i - 1], x0, Y.p[t], y0, q);
    z := LowerEstimate(T1, T2, z, Y.p[t], y0, X.p[i], X.p[i - 1], x0, X.Abs(), D, LimbPow(i - 1),
      (X.p[i] * BASE + X.p[i - 1]) * BASE + x0, Y.p[t] * BASE + y0, q);
  }

  lemma TrueDigit(xp: seq<Limb>, yp: seq<Limb>, i: nat, t: nat, x0: Limb, y0: Limb, X: nat, D: nat) returns (q: Limb)
    requires DigitDue(xp, yp, i, t) && X == Val(xp) && D == Val(yp) * LimbPow(i - t - 1)
    requires x0 == if i < 2 then 0 else xp[i - 2]
    requires y0 == if t < 1 then 0 else yp[t - 1]
    ensures Leading(X, D, LimbPow(i - 1), (xp[i] * BASE + xp[i - 1]) * BASE + x0, yp[t] * BASE + y0)
    ensures q * D <= X < q * D + D
    ensures q * (yp[t] * BASE + y0) <= (xp[i] * BASE + xp[i - 1]) * BASE + x0
  {
    hide Val, LimbPow;
    DigitBounds(xp, yp, i, t);
    LeadingLimbs(xp, yp, i, t, x0, y0);
    q := QuotientDigit(X, D, LimbPow(i - 1), (xp[i] * BASE + xp[i - 1]) * BASE + x0, yp[t] * BASE + y0);
  }

  lemma QuotientDigit(X: nat, D: nat, m: nat, x: nat, y: nat) returns (q: Limb)
    requires Leading(X, D, m, x, y) && y >= BASE && 0 < D && X < BASE * D
    ensures q * D <= X < q * D + D && q * y <= x
  {
    var t, r := DivMod(X, D);
    if t >= BASE { MulMono(D, BASE, t); }
    q := t;
    DigitTest(X, D, m, x, y, q, q);
  }

  /** One round of the division: the remainder loses exactly its digit's share. */
  method DivideDigit(X: Mpi, Y: Mpi, Z: Mpi, T1: Mpi, T2: Mpi, i: nat, t: nat)
    requires T1 != X && T1 != Y && T2 != X && T2 != Y && T1 != T2
    requires Z != X && Z != Y && Z != T1 && Z != T2 && X != Y
    requires DigitDue(X.p, Y.p, i, t) && |T1.p| >= 2 && |T2.p| >= 3
    requires X.Value() >= 0 && Y.s == 1 && i - t - 1 < |Z.p| && Z.p[i - t - 1] == 0
    modifies X, Z, T1, T2
    ensures |T1.p| >= 2 && |T2.p| >= 3 && |X.p| >= old(|X.p|) && Z.s == old(Z.s)
    ensures 0 <= X.Value() < Y.Abs() * LimbPow(i - t - 1)
    ensures |Z.p| == old(|Z.p|) && Z.p == old(Z.p)[i - t - 1 := Z.p[i - t - 1]]
    ensures X.Value() == old(X.Value()) - Z.p[i - t - 1] * (Y.Abs() * LimbPow(i - t - 1))
  {
    hide Val, LimbPow;
    var j := i - t - 1;
    var z := EstimateDigit(X, Y, T1, T2, i, t);
    Z.p := Z.p[j := z];
    MulInt(T1, Y, z);
    ShiftLeft(T1, 64 * j);
    LimbPowIsPow2(j);
    ghost var x, D := X.Value(), Y.Abs() * LimbPow(j);
    assert T1.Value() == z * D by { MulShift(Y.Abs(), z, LimbPow(j)); }
    Sub(X, X, T1);
    var sign := CompareInt(X, 0);
    if sign < 0 {
      OneLess(z, D, x);
      AddBack(X, Y, T1, j);
      Z.p := Z.p[j := Z.p[j] - 1];
    }
    assert Z.p == old(Z.p)[j := Z.p[j]];
  }

  /** The correction after a digit that was one too large. */
  method AddBack(X: Mpi, Y: Mpi, T1: Mpi, j: nat)
    requires X != Y && T1 != X && T1 != Y && X.p != [] && Y.p != [] && Y.s == 1
    modifies X, T1
    ensures X.Value() == old(X.Value()) + Y.Abs() * LimbPow(j)
    ensures |X.p| >= old(|X.p|) && |T1.p| >= old(|T1.p|)
  {
    Copy(T1, Y);
    ShiftLeft(T1, 64 * j);
    LimbPowIsPow2(j);
    Add(X, X, T1);
  }

  lemma MulShift(y: nat, z: nat, w: nat)
    ensures (y * z) * w == z * (y * w)
  {
  }

  lemma OneLess(z: nat, D: nat, x: nat)
    requires x < z * D
    ensures z >= 1 && x - (z - 1) * D == x - z * D + D
  {
    if z == 0 { MulMonoLeft(D, z, 0); }
  }

  // ----- the whole division -----

  const QUARTER := 0x4000_0000_0000_0000

  /** The divisor's top limb has its second-highest bit set, so it is at least a quarter of the limb range. */
  ghost predicate Normal(yp: seq<Limb>, t: nat) {
    && t < |yp|
    && QUARTER * LimbPow(t) <= Val(yp) < LimbPow(t + 1)
  }

  lemma NormalTopLimb(yp: seq<Limb>, t: nat)
    requires Normal(yp, t)
    ensures yp[t] > 0
  {
    hide Val;
    var top := yp[t];
    ValHighZero(yp, t + 1);
    ValSnoc(yp, t);
    ValBound(yp[..t]);
    if top == 0 { MulMonoLeft(LimbPow(t), top, 0); }
  }

  lemma NormalisedDivisor(y: nat, len: nat, k: nat, t: nat)
    requires IsBitLength(y, len) && y > 0 && len + k == 64 * t + 63
    ensures QUARTER * LimbPow(t) <= y * Pow2(k) < LimbPow(t + 1)
  {
    LimbPowIsPow2(t);
    LimbPowIsPow2(t + 1);
    Pow2Add(len - 1, k);
    Pow2Add(len, k);
    Pow2Add(62, 64 * t);
    Pow2Mono(64 * t + 63, 64 * t + 64);
    QuarterPower();
    hide Pow2, LimbPow;
    NormalisedArith(y, Pow2(len - 1), Pow2(len), Pow2(k));
  }

  lemma NormalisedArith(y: nat, low: nat, high: nat, w: nat)
    requires low <= y < high && w > 0
    ensures low * w <= y * w < high * w
  {
    MulMono(w, low, y);
    MulMono(w, y + 1, high);
  }

  lemma QuarterPower()
    ensures Pow2(62) == QUARTER
  {
    Pow2Limb();
    assert Pow2(64) == 2 * Pow2(63) && Pow2(63) == 2 * Pow2(62);
  }

  lemma NormalisedSize(y: nat, len: nat, k: nat, t: nat, n: nat)
    requires IsBitLength(y, len) && k < 64 && len + k == 64 * t + 63
    requires n > 0 && LimbPow(n - 1) <= y < LimbPow(n)
    ensures LimbsForBits(len + k) == t + 1 && n <= t + 1 && (k == 0 ==> n == t + 1)
  {
    hide Val;
    LimbPowIsPow2(n - 1);
    LimbPowIsPow2(n);
    if 64 * (n - 1) >= len { Pow2Mono(len, 64 * (n - 1)); }
    if len - 1 >= 64 * n { Pow2Mono(64 * n, len - 1); }
  }

  /** Shift dividend and divisor left until the divisor is normal. */
  method Normalise(X: Mpi, Y: Mpi) returns (k: nat)
    requires X != Y && 0 < Y.Abs() <= X.Abs() && Significant(Y.p) == |Y.p|
    modifies X, Y
    ensures X.s == old(X.s) && Y.s == old(Y.s)
    ensures X.Abs() == old(X.Abs()) * Pow2(k) && Y.Abs() == old(Y.Abs()) * Pow2(k)
    ensures 0 < |Y.p| <= |X.p| <= old(|X.p|) + 1 && Normal(Y.p, |Y.p| - 1)
  {
    hide Val, LimbPow, Significant, Pow2, Normal, IsBitLength;
    ValSignificant(Y.p);
    ghost var x, y, size := X.Abs(), Y.Abs(), |Y.p|;
    var len := BitLength(Y);
    k := len % 64;
    ghost var xlen := BitLengthOf(X.p);
    NormalShift(len);
    if k < 63 {
      k := 63 - k;
      ShiftLeft(X, k);
      ShiftLeft(Y, k);
    } else {
      k := 0;
      NoShift(x, y);
    }
    ghost var t := NormalisedFacts(x, y, len, k, size);
    NowNormal(Y.p, y * Pow2(k), t);
    LongEnough(X.p, Y.p, t);
  }

  lemma NormalShift(len: nat)
    ensures (len + (63 - len % 64)) % 64 == 63
  {
  }

  lemma NoShift(x: nat, y: nat)
    ensures x * Pow2(0) == x && y * Pow2(0) == y
  {
  }

  lemma NowNormal(yp: seq<Limb>, y: nat, t: nat)
    requires t < |yp| && Val(yp) == y && QUARTER * LimbPow(t) <= y < LimbPow(t + 1)
    ensures Normal(yp, t)
  {
  }

  lemma NormalisedFacts(x: nat, y: nat, len: nat, k: nat, size: nat) returns (t: nat)
    requires IsBitLength(y, len) && 0 < y <= x && k < 64 && (len + k) % 64 == 63
    requires size > 0 && LimbPow(size - 1) <= y < LimbPow(size)
    ensures LimbsForBits(len + k) == t + 1 && size <= t + 1 && (k == 0 ==> size == t + 1)
    ensures QUARTER * LimbPow(t) <= y * Pow2(k) < LimbPow(t + 1) && y * Pow2(k) <= x * Pow2(k)
  {
    t := (len + k) / 64;
    NormalisedSize(y, len, k, t, size);
    NormalisedDivisor(y, len, k, t);
    MulMonoLeft(Pow2(k), y, x);
  }

  lemma LongEnough(xp: seq<Limb>, yp: seq<Limb>, t: nat)
    requires Normal(yp, t) && Val(yp) <= Val(xp)
    ensures t < |xp|
  {
    hide Val;
    ValBound(xp);
    if |xp| <= t { LimbPowMono(|xp|, t); }
  }

  /** A bit length exists, and it is bounded by the buffer. */
  lemma {:induction false} BitLengthOf(p: seq<Limb>) returns (len: nat)
    ensures IsBitLength(Val(p), len) && len <= 64 * |p|
  {
    ValBound(p);
    LimbPowIsPow2(|p|);
    len := 0;
    while Pow2(len) <= Val(p)
      invariant len > 0 ==> Pow2(len - 1) <= Val(p)
      decreases 64 * |p| - len
    {
      Pow2Strict(len, 64 * |p|);
      len := len + 1;
    }
    if len > 64 * |p| { Pow2Mono(64 * |p|, len - 1); }
  }

  /** The top digit by repeated subtraction: at most three rounds. */
  method SubtractTopDigit(X: Mpi, Y: Mpi, Z: Mpi, j: nat)
    requires X != Y && X != Z && Y != Z && j < |Z.p| && Z.p[j] == 0
    requires X.p != [] && Y.p != [] && 0 <= X.Value() < 4 * Y.Value()
    modifies X, Z
    ensures |X.p| >= old(|X.p|) && Z.s == old(Z.s)
    ensures |Z.p| == old(|Z.p|) && Z.p == old(Z.p)[j := Z.p[j]] && Z.p[j] <= 3
    ensures X.Value() == old(X.Value()) - Z.p[j] * Y.Value()
    ensures 0 <= X.Value() < Y.Value()
  {
    ghost var x, D := X.Value(), Y.Value();
    var order := Compare(X, Y);
    while order >= 0
      invariant |X.p| >= old(|X.p|) && Z.s == old(Z.s)
      invariant |Z.p| == old(|Z.p|) && Z.p == old(Z.p)[j := Z.p[j]] && Z.p[j] <= 3
      invariant X.Value() == x - Z.p[j] * D && X.Value() >= 0
      invariant order == Order(X.Value(), D)
      decreases 3 - Z.p[j]
    {
      OneMore(Z.p[j], D, x);
      Z.p := Z.p[j := Z.p[j] + 1];
      Sub(X, X, Y);
      order := Compare(X, Y);
    }
  }

  method TopDigit(X: Mpi, Y: Mpi, Z: Mpi, n: nat, t: nat)
    requires X != Y && X != Z && Y != Z && t <= n && n < |X.p| && n - t < |Z.p| && Z.p[n - t] == 0
    requires Normal(Y.p, t) && Y.s == 1 && 0 <= X.Value() < LimbPow(n + 1)
    modifies X, Y, Z
    ensures Y.s == 1 && Y.Abs() == old(Y.Abs()) && Normal(Y.p, t)
    ensures |X.p| >= old(|X.p|) && Z.s == old(Z.s)
    ensures |Z.p| == old(|Z.p|) && Z.p == old(Z.p)[n - t := Z.p[n - t]] && Z.p[n - t] <= 3
    ensures X.Value() == old(X.Value()) - Z.p[n - t] * (Y.Abs() * LimbPow(n - t))
    ensures 0 <= X.Value() < Y.Abs() * LimbPow(n - t)
  {
    hide Val;
    ghost var y, D := Y.Abs(), Y.Abs() * LimbPow(n - t);
    LimbPowIsPow2(n - t);
    LimbPowAdd(t, n - t);
    QuarterScaled(y, LimbPow(t), LimbPow(n - t));
    ShiftLeft(Y, 64 * (n - t));
    SubtractTopDigit(X, Y, Z, n - t);
    ShiftRight(Y, 64 * (n - t));
    DivUnique(D, LimbPow(n - t), y, 0);
  }

  lemma QuarterScaled(y: nat, w: nat, l: nat)
    requires QUARTER * w <= y
    ensures BASE * (w * l) <= 4 * (y * l)
  {
    MulMono(l, QUARTER * w, y);
    assert l * (QUARTER * w) == QUARTER * (w * l);
  }

  lemma OneMore(c: nat, D: nat, x: nat)
    requires x - c * D >= D && x < 4 * D
    ensures c < 3 && x - (c + 1) * D == x - c * D - D
  {
    if c >= 3 { MulMono(D, 3, c); }
  }

  /** The digits below the top one. */
  method DivideDigits(X: Mpi, Y: Mpi, Z: Mpi, n: nat, t: nat)
    requires X != Y && X != Z && Y != Z && t <= n && n < |X.p| && n - t < |Z.p|
    requires Normal(Y.p, t) && Y.s == 1 && 0 <= X.Value() < Y.Abs() * LimbPow(n - t)
    requires forall k :: 0 <= k < n - t ==> Z.p[k] == 0
    modifies X, Z
    ensures Z.s == old(Z.s) && Z.p != [] && X.p != [] && 0 <= X.Value() < Y.Abs()
    ensures X.Value() + Z.Abs() * Y.Abs() == old(X.Value() + Z.Abs() * Y.Abs())
  {
    assert LimbPow(0) == 1;
    hide Val, LimbPow;
    var T1 := new Mpi();
    var T2 := new Mpi();
    Grow(T1, 2);
    Grow(T2, 3);
    NormalTopLimb(Y.p, t);
    var i := n;
    while i > t
      invariant t <= i <= n && n < |X.p| && n - t < |Z.p| && |T1.p| >= 2 && |T2.p| >= 3
      invariant Z.s == old(Z.s) && 0 <= X.Value() < Y.Abs() * LimbPow(i - t)
      invariant forall k :: 0 <= k < i - t ==> Z.p[k] == 0
      invariant X.Value() + Z.Abs() * Y.Abs() == old(X.Value() + Z.Abs() * Y.Abs())
    {
      ghost var zp := Z.p;
      DivideDigit(X, Y, Z, T1, T2, i, t);
      ValUpdate(zp, i - t - 1, Z.p[i - t - 1]);
      DigitShare(Val(zp), Z.p[i - t - 1], LimbPow(i - t - 1), Y.Abs());
      i := i - 1;
    }
  }

  lemma DigitShare(z: int, q: int, w: int, y: int)
    ensures (z + q * w) * y == z * y + q * (y * w)
  {
    assert (q * w) * y == q * (y * w);
  }

  lemma OneDigit(p: seq<Limb>, j: nat, y: nat)
    requires j < |p| && forall k :: 0 <= k < |p| && k != j ==> p[k] == 0
    ensures Val(p) * y == p[j] * (y * LimbPow(j))
  {
    hide Val, LimbPow;
    var zp := p[j := 0];
    ValZero(zp);
    ValUpdate(zp, j, p[j]);
    assert zp[j := p[j]] == p;
    DigitShare(0, p[j], LimbPow(j), y);
  }

  lemma Descale(x: nat, y: nat, w: nat, z: nat, r: nat)
    requires w > 0 && y > 0 && r + z * (y * w) == x * w && r < y * w
    ensures z == x / y && r / w == x % y
  {
    var q, rem := DivMod(x, y);
    ScaleQuotient(q, y, rem, w);
    TopDecides(0, 0, w, rem, y);
    EuclidUnique(y * w, z, r, q, rem * w);
    DivUnique(rem * w, w, rem, 0);
  }

  lemma ScaleQuotient(q: nat, y: nat, rem: nat, w: nat)
    ensures (q * y + rem) * w == q * (y * w) + rem * w
  {
    assert (q * y) * w == q * (y * w);
  }

  /** Quotient and remainder of the absolute values, for |A| >= |B| > 0. */
  method DivideAbs(A: Mpi, B: Mpi) returns (X: Mpi, Z: Mpi, k: nat)
    requires 0 < B.Abs() <= A.Abs()
    ensures fresh(X) && fresh(Z) && X != Z
    ensures Z.s == 1 && Z.Abs() == A.Abs() / B.Abs() && Z.p != []
    ensures X.p != [] && X.Value() >= 0 && X.Abs() / Pow2(k) == A.Abs() % B.Abs()
  {
    hide Val;
    X := new Mpi();
    Z := new Mpi();
    var Y := new Mpi();
    Copy(X, A);
    Copy(Y, B);
    X.s, Y.s := 1, 1;
    Grow(Z, |A.p| + 2);
    SetInt(Z, 0);
    ValSignificant(B.p);
    SignificantFromVal(Y.p, B.p);
    k := Normalise(X, Y);
    DivideNormal(X, Y, Z);
    Descale(A.Abs(), B.Abs(), Pow2(k), Z.Abs(), X.Abs());
  }

  method DivideNormal(X: Mpi, Y: Mpi, Z: Mpi)
    requires X != Y && X != Z && Y != Z && 0 < |Y.p| <= |X.p| <= |Z.p|
    requires Normal(Y.p, |Y.p| - 1) && X.s == Y.s == Z.s == 1 && Z.Abs() == 0
    modifies X, Y, Z
    ensures Z.s == 1 && Z.p != [] && X.p != [] && 0 <= X.Value() < old(Y.Abs())
    ensures X.Value() + Z.Abs() * old(Y.Abs()) == old(X.Abs())
  {
    hide Val;
    var n, t := |X.p| - 1, |Y.p| - 1;
    ValBound(X.p);
    ValZero(Z.p);
    TopDigit(X, Y, Z, n, t);
    OneDigit(Z.p, n - t, Y.Abs());
    DivideDigits(X, Y, Z, n, t);
  }

  /** The value of operand A as the sign assignment after the write to Q sees it. */
  ghost function Seen(Q: Mpi?, A: Mpi, a: int): int {
    if Q == A then AbsInt(a) else a
  }

  /** The remainder when Q is A: A has been overwritten before R's number and sign are read from it. */
  ghost function AliasedRem(a: int, b: int): int
    requires b != 0
  {
    if AbsInt(a) < AbsInt(b) then 0
    else if b < 0 then -(AbsInt(a) % AbsInt(b)) else AbsInt(a) % AbsInt(b)
  }

  /** What is left in R. */
  ghost function Left(aliased: bool, a: int, b: int): int
    requires b != 0
  {
    if aliased then AliasedRem(a, b) else TruncRem(a, b)
  }

  lemma SmallOperand(a: int, b: int)
    requires AbsInt(a) < AbsInt(b)
    ensures TruncQuot(a, b) == 0 && TruncRem(a, b) == a && AliasedRem(a, b) == 0
  {
    DivUnique(AbsInt(a), AbsInt(b), 0, AbsInt(a));
  }

  /** When the quotient that is stored is the true one: with Q in the place of one operand, that operand has to be
      positive or the quotient zero; with all three the same object it is 1 in any case. */
  ghost predicate QuotientKept(atA: bool, atB: bool, a: int, b: int) {
    (atA == atB) || AbsInt(a) < AbsInt(b) || (if atA then a >= 0 else b > 0)
  }

  lemma StoredQuotient(atA: bool, atB: bool, a: int, b: int)
    requires b != 0 && (atA && atB ==> a == b)
    ensures TruncQuot(if atA then AbsInt(a) else a, if atB then AbsInt(b) else b) == TruncQuot(a, b)
       <==> QuotientKept(atA, atB, a, b)
  {
    var q, r := DivMod(AbsInt(a), AbsInt(b));
    if q == 0 { assert q * AbsInt(b) == 0; }
    if AbsInt(a) < AbsInt(b) { DivUnique(AbsInt(a), AbsInt(b), 0, AbsInt(a)); }
  }

  /** With Q in the place of A the remainder is right exactly for A = 0 below |B|, and otherwise when it is zero or A
      and B have the same sign. */
  ghost predicate RemainderKept(a: int, b: int)
    requires b != 0
  {
    if AbsInt(a) < AbsInt(b) then a == 0 else AbsInt(a) % AbsInt(b) == 0 || (a < 0) == (b < 0)
  }

  lemma StoredRemainder(a: int, b: int)
    requires b != 0
    ensures AliasedRem(a, b) == TruncRem(a, b) <==> RemainderKept(a, b)
  {
    if AbsInt(a) < AbsInt(b) { DivUnique(AbsInt(a), AbsInt(b), 0, AbsInt(a)); }
  }

  /** -7 by 2 onto A stores 3 and 1 instead of -3 and -1; 7 by -2 onto B stores 3 instead of -3. */
  lemma AliasedFails()
    ensures TruncQuot(AbsInt(-7), 2) == 3 && TruncQuot(-7, 2) == -3
    ensures AliasedRem(-7, 2) == 1 && TruncRem(-7, 2) == -1
    ensures TruncQuot(7, AbsInt(-2)) == 3 && TruncQuot(7, -2) == -3
  {
  }

  /** A = Q * B + R, truncating. Q and R may be absent, R may be A or B; the sign of Q and R is taken from
      A and B after Q has been written, so an operand that is also Q counts as positive. */
  method Divide(Q: Mpi?, R: Mpi?, A: Mpi, B: Mpi) returns (ret: Status)
    requires Q != null ==> Q != R
    modifies Q, R
    ensures ret == if old(B.Value()) == 0 then DivisionByZero else Ok
    ensures ret.DivisionByZero? ==> (Q != null ==> unchanged(Q)) && (R != null ==> unchanged(R))
    ensures ret.Ok? && Q != null ==>
      Q.Value() == TruncQuot(Seen(Q, A, old(A.Value())), Seen(Q, B, old(B.Value())))
    ensures ret.Ok? && R != null ==> R.Value() == Left(Q == A, old(A.Value()), old(B.Value()))
    ensures ret.Ok? && Q != null ==>
      (Q.Value() == TruncQuot(old(A.Value()), old(B.Value())) <==>
       QuotientKept(Q == A, Q == B, old(A.Value()), old(B.Value())))
    ensures ret.Ok? && R != null ==>
      (R.Value() == TruncRem(old(A.Value()), old(B.Value())) <==>
       Q == A ==> RemainderKept(old(A.Value()), old(B.Value())))
    ensures ret.Ok? && R != null && Q == null && old(A.p) != [] ==> |R.p| >= old(|R.p|) && |R.p| >= 1
    ensures ret.Ok? && R != null && Q == null && old(A.s) == 1 ==> R.s == 1
  {
    hide Val, TruncQuot, TruncRem, QuotientKept, RemainderKept, AliasedRem;
    var zero := CompareInt(B, 0);
    if zero == 0 { return DivisionByZero; }
    StoredQuotient(Q == A, Q == B, A.Value(), B.Value());
    StoredRemainder(A.Value(), B.Value());
    var order := CompareAbs(A, B);
    if order < 0 {
      SmallOperand(Seen(Q, A, A.Value()), Seen(Q, B, B.Value()));
      SmallOperand(A.Value(), B.Value());
      if Q != null { SetInt(Q, 0); }
      if R != null { Copy(R, A); }
      return Ok;
    }
    DivideLarge(Q, R, A, B);
    return Ok;
  }

  /** The division proper. */
  method DivideLarge(Q: Mpi?, R: Mpi?, A: Mpi, B: Mpi)
    requires (Q != null ==> Q != R) && 0 < B.Abs() <= A.Abs()
    modifies Q, R
    ensures Q != null ==> Q.Value() == TruncQuot(Seen(Q, A, old(A.Value())), Seen(Q, B, old(B.Value())))
    ensures R != null ==> R.Value() == Left(Q == A, old(A.Value()), old(B.Value()))
    ensures R != null && Q == null ==> |R.p| >= old(|R.p|) && |R.p| >= 1 && (old(A.s) == 1 ==> R.s == 1)
  {
    hide Val;
    var X, Z, k := DivideAbs(A, B);
    ghost var a, b := A.Value(), B.Value();
    hide TruncQuot;
    if Q == A == B { DivUnique(AbsInt(a), AbsInt(a), 1, 0); }
    if Q != null { WriteQuotient(Q, Z, A, B, a, b); }
    if R != null { WriteRemainder(R, X, k, A.s, AbsInt(a) % AbsInt(b)); }
  }

  method WriteQuotient(Q: Mpi, Z: Mpi, A: Mpi, B: Mpi, ghost a: int, ghost b: int)
    requires Q != Z && Z != A && Z != B && Z.s == 1 && Z.p != []
    requires A.Value() == a && B.Value() == b && 0 < AbsInt(b) <= AbsInt(a) && Z.Abs() == AbsInt(a) / AbsInt(b)
    modifies Q
    ensures Q.Value() == TruncQuot(Seen(Q, A, a), Seen(Q, B, b))
    ensures Q == A ==> Q.s == if Q == B then 1 else B.s
  {
    hide Val;
    Copy(Q, Z);
    Q.s := TimesSign(A.s, B.s);
  }

  method WriteRemainder(R: Mpi, X: Mpi, k: nat, s: Sign, ghost r: nat)
    requires R != X && X.p != [] && X.Abs() / Pow2(k) == r
    modifies R, X
    ensures |R.p| >= old(|R.p|) && |R.p| >= 1 && (s == 1 ==> R.s == 1)
    ensures R.Value() == if s < 0 then -(r as int) else r
  {
    hide Val;
    ShiftRight(X, k);
    X.s := s;
    Copy(R, X);
    var zero := CompareInt(R, 0);
    if zero == 0 { R.s := 1; }
  }

  /** A = Q * b + R */
  method DivideInt(Q: Mpi?, R: Mpi?, A: Mpi, b: SignedLimb) returns (ret: Status)
    requires Q != null ==> Q != R
    modifies Q, R
    ensures ret == if b == 0 then DivisionByZero else Ok
    ensures ret.Ok? && Q != null ==> Q.Value() == TruncQuot(Seen(Q, A, old(A.Value())), b)
    ensures ret.Ok? && R != null ==> R.Value() == Left(Q == A, old(A.Value()), b)
  {
    var B := FromInt(b);
    ret := Divide(Q, R, A, B);
  }

  lemma TruncToFloor(a: int, b: int)
    requires b > 0
    ensures -b < TruncRem(a, b) < b
    ensures TruncRem(a, b) % b == a % b
  {
    if a < 0 {
      NegatedRem(-a, b);
      NegatedRem((-a) % b, b);
    }
    var t, rem := DivMod(AbsInt(a) % b, b);
    DivUnique(AbsInt(a) % b, b, 0, AbsInt(a) % b);
  }

  /** R = A mod B in [0, B). R may be A; were it a positive B, the final loop would never end. */
  method Mod(R: Mpi, A: Mpi, B: Mpi) returns (ret: Status)
    requires R == B ==> B.Value() <= 0
    modifies R
    ensures ret == if B.Value() < 0 then NegativeValue else if B.Value() == 0 then DivisionByZero else Ok
    ensures !ret.Ok? ==> unchanged(R)
    ensures ret.Ok? ==> R.Value() == old(A.Value()) % B.Value()
    ensures ret.Ok? && old(A.p) != [] && old(A.s) == 1 ==> R.s == 1 && |R.p| >= old(|R.p|) && |R.p| >= 1
  {
    hide Val;
    var order := CompareInt(B, 0);
    if order < 0 { return NegativeValue; }
    ghost var a := A.Value();
    ret := Divide(null, R, A, B);
    if ret != Ok { return ret; }
    TruncToFloor(a, B.Value());
    BringIntoRange(R, B);
  }

  /** Add N until R is not negative, then subtract N until R is below it. */
  method BringIntoRange(R: Mpi, N: Mpi)
    requires R != N && N.Value() > 0
    modifies R
    ensures R.Value() == old(R.Value()) % N.Value()
    ensures 0 <= old(R.Value()) < N.Value() ==> R.s == old(R.s) && R.p == old(R.p)
  {
    hide Val;
    ghost var r0, n := R.Value(), N.Value();
    var order := CompareInt(R, 0);
    while order < 0
      invariant order == Order(R.Value(), 0) && R.Value() % n == r0 % n
      invariant 0 <= r0 ==> R.s == old(R.s) && R.p == old(R.p)
      decreases -R.Value()
    {
      AddMultiple(R.Value(), n, 1);
      Add(R, R, N);
      order := CompareInt(R, 0);
    }
    order := Compare(R, N);
    while order >= 0
      invariant order == Order(R.Value(), n) && R.Value() >= 0 && R.Value() % n == r0 % n
      invariant 0 <= r0 < n ==> R.s == old(R.s) && R.p == old(R.p)
      decreases R.Value()
    {
      AddMultiple(R.Value(), n, -1);
      Sub(R, R, N);
      order := Compare(R, N);
    }
    DivUnique(R.Value(), n, 0, R.Value());
  }

  /** One half-limb step as the code computes it: the running remainder is shifted up by half a limb, within a limb. */
  function HalfStep(y: Limb, half: Limb, b: Limb): (r: Limb)
    requires b > 0
    ensures r < b
  {
    ModBelow((y * HALF) % BASE + half, b);
    ((y * HALF) % BASE + half) % b
  }

  lemma ModBelow(x: nat, b: nat)
    requires b > 0
    ensures 0 <= x % b < b
  {
    var q, r := DivMod(x, b);
  }

  /** What the steps make of all limbs, from the top one down. */
  function Folded(p: seq<Limb>, b: Limb): (r: Limb)
    requires b > 0
    ensures r < b
  {
    if p == [] then 0 else HalfStep(HalfStep(Folded(p[1..], b), p[0] / HALF, b), p[0] % HALF, b)
  }

  method ModHalf(y: Limb, half: Limb, b: Limb) returns (y': Limb)
    requires 0 < b && y < b && half < HALF
    ensures y' == HalfStep(y, half, b)
  {
    HalfShift(y, half);
    var dividend: Limb := BitOr((y * HALF) % BASE, half);
    y' := Reduce(dividend, b);
  }

  /** The divisors for which no shifted-out bit matters. */
  predicate ExactDivisor(b: Limb)
    requires b > 0
  {
    b <= HALF || BASE % b == 0
  }

  lemma HalfStepExact(y: Limb, half: Limb, b: Limb)
    requires 0 < b && y < b && half < HALF && ExactDivisor(b)
    ensures HalfStep(y, half, b) == (y * HALF + half) % b
  {
    var m, w := y * HALF, (y * HALF) % BASE;
    if b > HALF {
      var q, r := DivMod(m, BASE);
      var k, z := DivMod(BASE, b);
      assert m + half == q * (k * b) + (w + half);
      MulAssoc(q, k, b);
      AddMultiple(w + half, b, q * k);
    }
  }

  lemma HalfShift(y: Limb, half: Limb)
    requires half < HALF
    ensures BitOr((y * HALF) % BASE, half) == (y * HALF) % BASE + half < BASE
  {
    hide BitOr, Pow2;
    HighDropped(y);
    Pow2Limb();
    BitOrDisjoint(y % HALF, half, 32);
  }

  lemma HighDropped(y: Limb)
    ensures (y * HALF) % BASE == (y % HALF) * HALF < BASE - HALF + 1
  {
    var q, r := y / HALF, y % HALF;
    DivUnique(y * HALF, BASE, q, r * HALF);
  }

  method Reduce(y: Limb, b: Limb) returns (r: Limb)
    requires b > 0
    ensures r == y % b < b
  {
    ghost var t, rem := DivMod(y, b);
    var z := y / b;
    r := y - z * b;
  }

  lemma ModChain(y: nat, x: nat, b: nat)
    requires b > 0
    ensures (((y % b) * HALF + x / HALF) % b * HALF + x % HALF) % b == (x + BASE * y) % b
  {
    var q, r := DivMod(y, b);
    var q1, r1 := DivMod(r * HALF + x / HALF, b);
    var q2, r2 := DivMod(r1 * HALF + x % HALF, b);
    assert BASE * (q * b + r) == (BASE * q) * b + BASE * r;
    assert (q1 * b) * HALF == (HALF * q1) * b;
    Sum3(BASE * q, HALF * q1, q2, b);
    DivUnique(x + BASE * y, b, BASE * q + HALF * q1 + q2, r2);
  }

  lemma Sum3(x: int, y: int, z: int, b: int)
    ensures (x + y + z) * b == x * b + y * b + z * b
  {
  }

  /** Nothing is lost for an exact divisor. */
  lemma {:induction false} FoldedExact(p: seq<Limb>, b: Limb)
    requires 0 < b && ExactDivisor(b)
    ensures Folded(p, b) == Val(p) % b
  {
    if p == [] {
      DivUnique(0, b, 0, 0);
    } else {
      hide HalfStep, Val;
      var y, x := Folded(p[1..], b), p[0];
      FoldedExact(p[1..], b);
      HalfStepExact(y, x / HALF, b);
      HalfStepExact(HalfStep(y, x / HALF, b), x % HALF, b);
      ValHead(p, 0);
      assert p[0..] == p;
      ModChain(Val(p[1..]), x, b);
    }
  }

  lemma {:induction false} DivisorOfPow2(b: nat, k: nat, n: nat) returns (j: nat)
    requires b * k == Pow2(n)
    ensures j <= n && b == Pow2(j)
  {
    if n == 0 {
      UnitFactor(b, k);
      j := 0;
    } else if b % 2 == 1 {
      EvenFactor(b, k, Pow2(n - 1));
      j := DivisorOfPow2(b, k / 2, n - 1);
    } else {
      HalveFactor(b, k, Pow2(n - 1));
      j := DivisorOfPow2(b / 2, k, n - 1);
      j := j + 1;
    }
  }

  lemma UnitFactor(b: nat, k: nat)
    requires b * k == 1
    ensures b == 1
  {
    if b > 1 { MulMonoLeft(k, 2, b); }
    MulZero(k, 0);
  }

  lemma EvenFactor(b: nat, k: nat, w: nat)
    requires b % 2 == 1 && b * k == 2 * w
    ensures b * (k / 2) == w
  {
    var c, h, l := b / 2, k / 2, k % 2;
    assert b * k == 2 * (c * k) + k;
    assert b * (2 * h) == 2 * (b * h);
  }

  lemma HalveFactor(b: nat, k: nat, w: nat)
    requires b % 2 == 0 && b * k == 2 * w
    ensures (b / 2) * k == w
  {
    assert (2 * (b / 2)) * k == 2 * ((b / 2) * k);
  }

  const LOST: seq<Limb> := [0, HALF]

  /** For any larger divisor the one bit that is set in these limbs is shifted out. */
  lemma LostBit(b: Limb)
    requires HALF < b
    ensures Folded(LOST, b) == 0 && Val(LOST) == HALF * BASE
  {
    var top: seq<Limb> := LOST[1..];
    assert top == [HALF] && top[1..] == [];
    assert Val(top) == HALF && Folded([], b) == 0;
    DivUnique(1, b, 0, 1);
    DivUnique(HALF, b, 0, HALF);
    DivUnique(0, b, 0, 0);
    assert HalfStep(0, 1, b) == 1 && HalfStep(1, 0, b) == HALF && HalfStep(HALF, 0, b) == 0 && HalfStep(0, 0, b) == 0;
    assert Folded(top, b) == HALF;
  }

  lemma Exactly(k: nat, b: nat)
    requires b > 0
    ensures (k * b) % b == 0
  {
    DivUnique(k * b, b, k, 0);
  }

  /** A signed limb that divides 2^96 divides 2^64. */
  lemma SmallDivisor(b: Limb)
    requires 0 < b < 0x8000_0000_0000_0000 && (HALF * BASE) % b == 0
    ensures BASE % b == 0
  {
    hide Pow2;
    LargePowers();
    var q, r := DivMod(HALF * BASE, b);
    Swapped(q, b);
    var j := DivisorOfPow2(b, q, 96);
    if j > 63 { Pow2Mono(63, j); }
    Pow2Add(j, 64 - j);
    Swapped(Pow2(64 - j), b);
    Exactly(Pow2(64 - j), b);
  }

  lemma Swapped(x: int, y: int)
    ensures x * y == y * x
  {
  }

  lemma LargePowers()
    ensures Pow2(64) == BASE && Pow2(63) == 0x8000_0000_0000_0000 && Pow2(96) == HALF * BASE
  {
    assert Pow2(64) == 2 * Pow2(63);
    hide Pow2;
    Pow2Limb();
    Pow2Add(32, 64);
  }

  ghost predicate RightFor(p: seq<Limb>, b: Limb)
    requires b > 0
  {
    Folded(p, b) == Val(p) % b
  }

  lemma LostIsWrong(b: SignedLimb)
    requires b > 0 && !ExactDivisor(b)
    ensures !RightFor(LOST, b)
  {
    hide Folded, Val;
    LostBit(b);
    if (HALF * BASE) % b == 0 { SmallDivisor(b); }
  }

  /** The reduction is right for every number exactly when the divisor is at most 2^32 or divides 2^64. */
  lemma ModIntExact(b: SignedLimb)
    requires b > 0
    ensures (forall p: seq<Limb> :: RightFor(p, b)) <==> ExactDivisor(b)
  {
    if ExactDivisor(b) {
      forall p: seq<Limb> ensures RightFor(p, b) { FoldedExact(p, b); }
    } else {
      LostIsWrong(b);
    }
  }

  /** The smallest divisor that fails: 2^96 modulo 2^32 + 1 is 2^32, the code finds 0. */
  lemma ModIntFails()
    ensures Folded(LOST, HALF + 1) == 0 && Val(LOST) % (HALF + 1) == HALF
  {
    LostBit(HALF + 1);
    hide Folded, Val;
    DivUnique(HALF * BASE, HALF + 1, BASE - HALF, HALF);
  }

  /** r = A mod b, from the top limb down in half-limb steps. */
  method ModInt(A: Mpi, b: SignedLimb) returns (ret: Status, r: Limb)
    requires b == 2 ==> A.p != []
    ensures ret == if b == 0 then DivisionByZero else if b < 0 then NegativeValue else Ok
    ensures b > 0 ==> r == if A.s < 0 && Folded(A.p, b) != 0 then b - Folded(A.p, b) else Folded(A.p, b)
    ensures b > 0 && ExactDivisor(b) ==> r == A.Value() % b
  {
    hide Val, Folded, ExactDivisor;
    if b == 0 { return DivisionByZero, 0; }
    if b < 0 { return NegativeValue, 0; }
    FoldedSigned(A.p, A.s, b);
    FoldedSmall(A.p);
    if b == 1 { return Ok, 0; }
    if b == 2 { return Ok, A.p[0] % 2; }
    var y := ModLimbs(A, b);
    if A.s < 0 && y != 0 { y := b - y; }
    return Ok, y;
  }

  /** The correction for a negative number. */
  lemma FoldedSigned(p: seq<Limb>, s: Sign, b: Limb)
    requires b > 0
    ensures ExactDivisor(b) ==>
      var y := Folded(p, b); (if s < 0 && y != 0 then b - y else y) == (s * Val(p)) % b
  {
    hide Val, Folded, ExactDivisor;
    if ExactDivisor(b) {
      FoldedExact(p, b);
      NegatedRem(Val(p), b);
      assert s * Val(p) == if s < 0 then -(Val(p) as int) else Val(p);
    }
  }

  /** The divisors 1 and 2; the sign does not matter for them. */
  lemma FoldedSmall(p: seq<Limb>)
    ensures Folded(p, 1) == 0 && (p != [] ==> Folded(p, 2) == p[0] % 2)
  {
    hide Val, Folded;
    FoldedExact(p, 1);
    DivUnique(Val(p), 1, Val(p), 0);
    if p != [] {
      FoldedExact(p, 2);
      ValHead(p, 0);
      assert p[0..] == p;
      EvenPart(p[0], Val(p[1..]));
    }
  }

  lemma EvenPart(x: nat, v: nat)
    ensures (x + BASE * v) % 2 == x % 2
  {
    assert BASE * v == 2 * (0x8000_0000_0000_0000 * v);
  }

  method ModLimbs(A: Mpi, b: Limb) returns (y: Limb)
    requires b > 0
    ensures y == Folded(A.p, b)
  {
    hide HalfStep;
    var i := |A.p|;
    y := 0;
    assert A.p[i..] == [];
    while i > 0
      invariant 0 <= i <= |A.p| && y == Folded(A.p[i..], b)
    {
      var x := A.p[i - 1];
      assert A.p[i - 1..][1..] == A.p[i..] && A.p[i - 1..][0] == x;
      y := ModHalf(y, x / HALF, b);
      y := ModHalf(y, x % HALF, b);
      i := i - 1;
    }
    assert A.p[0..] == A.p;
  }
}
