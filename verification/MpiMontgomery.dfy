/** Montgomery reduction: the word inverse and the interleaved product. */
module MpiMontgomery {
  import opened Arithmetic
  import opened Limbs
  import opened MpiCore
  import opened MpiAddSub
  import opened MpiMul

  // ----- the inverse of the low limb -----

  lemma FourBits(m0: Limb, x: Limb)
    requires m0 % 2 == 1 && x == (m0 + 8 * (((m0 + 2) / 4) % 2)) % BASE
    ensures (m0 * x) % 16 == 1
  {
    ModProduct(m0, x, 16);
    InitialResidue(m0, x);
    OddSquares(m0 % 16, x % 16);
  }

  lemma InitialResidue(m0: Limb, x: Limb)
    requires m0 % 2 == 1 && x == (m0 + 8 * (((m0 + 2) / 4) % 2)) % BASE
    ensures var r := m0 % 16; r % 2 == 1 && x % 16 == if r == 3 || r == 5 || r == 11 || r == 13 then (r + 8) % 16 else r
  {
    var k, r := m0 / 16, m0 % 16;
    FourthBit(k, r);
    InnerMod(m0 + 8 * (((m0 + 2) / 4) % 2));
    SixteenTimes(k, r + 8 * (((r + 2) / 4) % 2));
  }

  lemma FourthBit(k: nat, r: nat)
    requires r < 16
    ensures (16 * k + r) % 2 == r % 2 && ((16 * k + r + 2) / 4) % 2 == ((r + 2) / 4) % 2
  {
    DivUnique(16 * k + r + 2, 4, 4 * k + (r + 2) / 4, (r + 2) % 4);
    EvenShift(2 * k, (r + 2) / 4);
    EvenShift(8 * k, r);
  }

  lemma EvenShift(k: nat, v: nat)
    ensures (2 * k + v) % 2 == v % 2
  {
  }

  lemma InnerMod(v: nat)
    ensures (v % BASE) % 16 == v % 16
  {
    var q, r := v / BASE, v % BASE;
    assert v == 16 * (0x1000_0000_0000_0000 * q) + r;
  }

  lemma SixteenTimes(k: nat, v: nat)
    ensures (16 * k + v) % 16 == v % 16
  {
  }

  lemma OddSquares(r: nat, s: nat)
    requires r < 16 && r % 2 == 1 && s == if r == 3 || r == 5 || r == 11 || r == 13 then (r + 8) % 16 else r
    ensures (r * s) % 16 == 1
  {
    assert r == 1 || r == 3 || r == 5 || r == 7 || r == 9 || r == 11 || r == 13 || r == 15;
  }

  /** If m0*x is 1 modulo m, then m0*x*(2 - m0*x) is 1 modulo m squared. */
  lemma NewtonStep(m0: int, x: int, x': int, m: int, k: int)
    requires m > 1 && (m0 * x) % m == 1 && BASE == (m * m) * k
    requires x' % BASE == (x * (2 - m0 * x)) % BASE
    ensures m * m > 1 && (m0 * x') % (m * m) == 1
  {
    var p, t := m0 * x, (m0 * x) / m;
    assert p == 1 + m * t;
    var y := x * (2 - p);
    var j := x' / BASE - y / BASE;
    assert x' == y + BASE * j;
    NewtonArith(m0, x, x', p, m, t, k, j);
    MulMono(m, 1, m);
    AddMultiple(1, m * m, k * j * m0 - t * t);
    DivUnique(1, m * m, 0, 1);
  }

  lemma NewtonArith(m0: int, x: int, x': int, p: int, m: int, t: int, k: int, j: int)
    requires p == m0 * x && p == 1 + m * t && BASE == (m * m) * k
    requires x' == x * (2 - p) + BASE * j
    ensures m0 * x' == 1 + (k * j * m0 - t * t) * (m * m)
  {
    assert m0 * (x * (2 - p)) == p * (2 - p);
    assert p * (2 - p) == 1 - (m * t) * (m * t);
    assert (m * t) * (m * t) == (t * t) * (m * m);
    assert m0 * (BASE * j) == (k * j * m0) * (m * m) by {
      assert BASE * j == (m * m) * (k * j) by { MulAssoc(m * m, k, j); }
      assert m0 * ((m * m) * (k * j)) == (k * j * m0) * (m * m);
    }
    assert m0 * x' == m0 * (x * (2 - p)) + m0 * (BASE * j);
  }

  ghost function Cofactor(m: int): int {
    if m == 16 then 0x100_0000_0000_0000
    else if m == 0x100 then 0x1_0000_0000_0000
    else if m == 0x1_0000 then 0x1_0000_0000
    else 1
  }

  /** mm with m0 * mm == -1 modulo the limb range, by doubling the number of correct bits from four. */
  method MontgomeryInit(m0: Limb) returns (mm: Limb)
    requires m0 % 2 == 1
    ensures (m0 * mm + 1) % BASE == 0
  {
    var x: Limb := (m0 + 8 * (((m0 + 2) / 4) % 2)) % BASE;
    FourBits(m0, x);
    var i := 64;
    ghost var m := 16;
    while i >= 8
      invariant (i == 64 && m == 16) || (i == 32 && m == 0x100) || (i == 16 && m == 0x1_0000)
             || (i == 8 && m == 0x1_0000_0000) || (i == 4 && m == BASE)
      invariant (m0 * x) % m == 1
    {
      var x' := NewtonRound(m0, x);
      NewtonStep(m0, x, x', m, Cofactor(m));
      x, m := x', m * m;
      i := i / 2;
    }
    mm := (BASE - 1 - x + 1) % BASE;
    MinusInverse(m0, x, mm);
  }

  /** One Newton step for the inverse, in limb arithmetic. */
  method NewtonRound(m0: Limb, x: Limb) returns (x': Limb)
    ensures x' % BASE == (x * (2 - m0 * x)) % BASE
  {
    var f: Limb := (2 - m0 * x) % BASE;
    x' := (x * f) % BASE;
    ModLeft(2 - m0 * x, x, BASE);
    assert f * x == x * f && (2 - m0 * x) * x == x * (2 - m0 * x);
  }

  lemma NonZeroFactor(a: int, b: int)
    requires a * b != 0
    ensures b != 0
  {
  }

  lemma MinusInverse(m0: Limb, x: Limb, mm: Limb)
    requires (m0 * x) % BASE == 1 && mm == (BASE - x) % BASE
    ensures (m0 * mm + 1) % BASE == 0
  {
    NonZeroFactor(m0, x);
    var t := (m0 * x) / BASE;
    assert m0 * (BASE - x) == BASE * m0 - m0 * x;
    assert m0 * mm + 1 == BASE * (m0 - t);
  }

  // ----- the interleaved product -----

  /** The multiple of N that makes the low limb vanish. */
  function ReductionDigit(t0: Limb, u0: Limb, b0: Limb, mm: Limb): Limb {
    ((t0 + u0 * b0) * mm) % BASE
  }

  /** The low limb of T + u0*B + u1*N vanishes. */
  lemma LowLimbVanishes(t: nat, t0: Limb, b: nat, b0: Limb, n: nat, n0: Limb, u0: Limb, u1: Limb, mm: Limb)
    requires t % BASE == t0 && b % BASE == b0 && n % BASE == n0
    requires u1 == ReductionDigit(t0, u0, b0, mm) && (n0 * mm + 1) % BASE == 0
    ensures (t + b * u0 + n * u1) % BASE == 0
  {
    var s := t0 + u0 * b0;
    ModLeft(b, u0, BASE);
    ModLeft(n, u1, BASE);
    CancelWord(s, n0, u1, mm);
    CombineMod(t, t0, b * u0, b0 * u0, n * u1, n0 * u1);
  }

  lemma CancelWord(s: nat, n0: nat, u1: nat, mm: nat)
    requires u1 == (s * mm) % BASE && (n0 * mm + 1) % BASE == 0
    ensures (s + n0 * u1) % BASE == 0
  {
    var j, k := (s * mm) / BASE, (n0 * mm + 1) / BASE;
    CancelArith(s, n0, u1, mm, j, k);
  }

  lemma CancelArith(s: int, n0: int, u1: int, mm: int, j: int, k: int)
    requires s * mm == BASE * j + u1 && n0 * mm == BASE * k - 1
    ensures s + n0 * u1 == BASE * (s * k - j * n0)
  {
    assert n0 * u1 == n0 * (s * mm) - BASE * (j * n0) by { assert n0 * (BASE * j + u1) == BASE * (j * n0) + n0 * u1; }
    assert n0 * (s * mm) == s * (n0 * mm) == s * (BASE * k - 1);
    assert s * (BASE * k - 1) == BASE * (s * k) - s;
  }

  lemma CombineMod(t: int, t0: int, x: int, x0: int, y: int, y0: int)
    requires t % BASE == t0 % BASE && x % BASE == x0 % BASE && y % BASE == y0 % BASE
    requires (t0 + x0 + y0) % BASE == 0
    ensures (t + x + y) % BASE == 0
  {
  }

  /** What one round adds, in units of the weight reached so far. */
  lemma RoundArith(t: nat, t': nat, w: nat, a: nat, b: nat, k: nat, n: nat, u0: nat, u1: nat)
    requires t * w == a * b + k * n && t' * BASE == t + b * u0 + n * u1
    ensures t' * (BASE * w) == (a + u0 * w) * b + (k + u1 * w) * n
  {
    assert t' * (BASE * w) == (t' * BASE) * w;
    assert (t + b * u0 + n * u1) * w == t * w + (b * u0) * w + (n * u1) * w;
    assert (b * u0) * w == (u0 * w) * b && (n * u1) * w == (u1 * w) * n;
    assert (a + u0 * w) * b == a * b + (u0 * w) * b;
    assert (k + u1 * w) * n == k * n + (u1 * w) * n;
  }

  /** The running value stays below n + b. */
  lemma RoundBound(t: nat, t': nat, b: nat, n: nat, u0: Limb, u1: Limb)
    requires t < n + b && t' * BASE == t + b * u0 + n * u1
    ensures t' < n + b
  {
    MulMono(b, u0, BASE - 1);
    MulMono(n, u1, BASE - 1);
  }

  /** After i rounds: T holds the limbs of A consumed so far, and above them a value below n + b that,
      scaled by B^i, is a[..i] * b up to k times n. */
  ghost predicate Interleaved(tp: seq<Limb>, ap: seq<Limb>, i: nat, b: nat, n: nat, k: nat) {
    && i <= |tp| && i <= |ap| && tp[..i] == ap[..i]
    && Val(tp[i..]) < n + b
    && Val(tp[i..]) * LimbPow(i) == Val(ap[..i]) * b + k * n
  }

  /** Both products of a round, and every carry, fit the scratch limbs above position i. */
  lemma RoundFits(t: nat, b: nat, n: nat, u0: Limb, u1: Limb, size: nat, room: nat)
    requires t < n + b && b <= n && n < LimbPow(size) && room >= size + 2
    ensures t + b * u0 < LimbPow(room)
    ensures t + b * u0 + n * u1 < LimbPow(size + 2) <= LimbPow(room)
  {
    LimbPowMono(size + 2, room);
    MulMono(b, u0, BASE - 1);
    MulMono(n, u1, BASE - 1);
    MulMono(n, 0, u1);
  }

  /** The two multiply-accumulates of a round leave a zero low limb. */
  method AddProducts(T: Mpi, i: nat, m: nat, bp: seq<Limb>, np: seq<Limb>, u0: Limb, u1: Limb)
    requires 0 < m <= |np| && m <= |bp| && i + |np| + 2 <= |T.p|
    requires Val(bp[..m]) <= Val(np) && Val(T.p[i..]) < Val(np) + Val(bp[..m])
    modifies T
    ensures |T.p| == old(|T.p|) && T.p[..i] == old(T.p)[..i]
    ensures Val(T.p[i..]) == old(Val(T.p[i..])) + Val(bp[..m]) * u0 + Val(np) * u1
    ensures Val(T.p[i..]) < LimbPow(|np| + 2)
  {
    hide Val, LimbPow;
    assert np[..|np|] == np;
    ValBound(np);
    RoundFits(Val(T.p[i..]), Val(bp[..m]), Val(np), u0, u1, |np|, |T.p| - i);
    MulHelper(m, bp, T, i, u0);
    MulHelper(|np|, np, T, i, u1);
  }

  /** One round: make the low limb vanish, keep the consumed limb of A in its place, step up one limb. */
  method MontgomeryRound(A: Mpi, B: Mpi, N: Mpi, T: Mpi, mm: Limb, i: nat, m: nat, ghost k: nat) returns (ghost k': nat)
    requires T != A && T != B && T != N
    requires 0 < m <= |N.p| && m <= |B.p| && i < |N.p| && |N.p| <= |A.p| && |T.p| >= 2 * (|N.p| + 1)
    requires Val(B.p[..m]) <= N.Abs() && (N.p[0] * mm + 1) % BASE == 0
    requires Interleaved(T.p, A.p, i, Val(B.p[..m]), N.Abs(), k)
    modifies T
    ensures |T.p| == old(|T.p|) && Interleaved(T.p, A.p, i + 1, Val(B.p[..m]), N.Abs(), k')
  {
    hide Val, LimbPow, ReductionDigit;
    ghost var b := Val(B.p[..m]);
    ValBound(N.p);
    var u0 := A.p[i];
    var u1 := ReductionDigit(T.p[i], u0, B.p[0], mm);
    ghost var p0 := T.p;
    RoundLow(p0, i, B.p[..m], N.p, u0, u1, mm);
    AddProducts(T, i, m, B.p, N.p, u0, u1);
    ghost var p1 := T.p;
    T.p := T.p[i := u0];
    T.p := T.p[i + |N.p| + 2 := 0];
    k' := RoundDone(p0, p1, A.p, i, b, N.Abs(), |N.p|, k, u0, u1);
    assert T.p == p1[i := u0][i + |N.p| + 2 := 0];
  }

  lemma ValMod(p: seq<Limb>, i: nat)
    requires i < |p|
    ensures Val(p[i..]) % BASE == p[i]
  {
    ValHead(p, i);
  }

  lemma RoundLow(tp: seq<Limb>, i: nat, b: seq<Limb>, n: seq<Limb>, u0: Limb, u1: Limb, mm: Limb)
    requires i < |tp| && b != [] && n != []
    requires u1 == ReductionDigit(tp[i], u0, b[0], mm) && (n[0] * mm + 1) % BASE == 0
    ensures (Val(tp[i..]) + Val(b) * u0 + Val(n) * u1) % BASE == 0
  {
    hide Val, ReductionDigit;
    ValMod(tp, i);
    ValMod(b, 0);
    ValMod(n, 0);
    assert b[0..] == b && n[0..] == n;
    LowLimbVanishes(Val(tp[i..]), tp[i], Val(b), b[0], Val(n), n[0], u0, u1, mm);
  }

  lemma RoundDone(p0: seq<Limb>, p1: seq<Limb>, ap: seq<Limb>, i: nat, b: nat, n: nat, size: nat,
                  k: nat, u0: Limb, u1: Limb) returns (k': nat)
    requires Interleaved(p0, ap, i, b, n, k) && i < |ap| && u0 == ap[i] && b <= n < LimbPow(size)
    requires |p1| == |p0| && i + size + 2 < |p1| && p1[..i] == p0[..i]
    requires Val(p1[i..]) == Val(p0[i..]) + b * u0 + n * u1 && Val(p1[i..]) % BASE == 0
    ensures Interleaved(p1[i := u0][i + size + 2 := 0], ap, i + 1, b, n, k')
  {
    hide Val, LimbPow;
    var q := p1[i := u0];
    var t' := Val(p1[i + 1..]);
    ValHead(p1, i);
    assert t' * BASE == Val(p1[i..]);
    RoundBound(Val(p0[i..]), t', b, n, u0, u1);
    HighLimbZero(p1[i + 1..], size + 1, n, size);
    assert p1[i + 1..][size + 1] == p1[i + size + 2];
    assert q[i + size + 2 := 0] == q;
    assert q[i + 1..] == p1[i + 1..];
    assert q[..i + 1] == p0[..i] + [u0] == ap[..i + 1];
    ValSnoc(ap, i);
    k' := k + u1 * LimbPow(i);
    LimbPowNext(i);
    RoundArith(Val(p0[i..]), t', LimbPow(i), Val(ap[..i]), b, k, n, u0, u1);
  }

  lemma LimbPowNext(i: nat)
    ensures LimbPow(i + 1) == BASE * LimbPow(i)
  {
  }

  lemma HighLimbZero(p: seq<Limb>, j: nat, n: nat, size: nat)
    requires Val(p) < 2 * n && n < LimbPow(size) && j == size + 1 < |p|
    ensures p[j] == 0
  {
    LimbPowNext(size);
    ValHighZero(p, j);
  }

  function Shorter(m: nat, n: nat): nat {
    if m < n then m else n
  }

  /** A = A * B * R^-1 mod N with R = B^n: one conditional subtraction leaves the result below N.
      The subtraction into the scratch vector in the other branch only evens out the timing. */
  method MontgomeryMul(A: Mpi, B: Mpi, N: Mpi, mm: Limb, T: Mpi) returns (ret: Status)
    requires T != A && T != B && T != N && A != N
    requires N.p != [] && B.p != [] && |A.p| >= |N.p| + 1
    requires |T.p| < |N.p| + 1 || |T.p| >= 2 * (|N.p| + 1)
    requires (N.p[0] * mm + 1) % BASE == 0
    requires Val(B.p[..Shorter(|B.p|, |N.p|)]) <= N.Abs() && A.Abs() < LimbPow(|N.p|)
    modifies A, T
    ensures ret == if |T.p| < |N.p| + 1 then BadInputData else Ok
    ensures |T.p| == old(|T.p|) && |A.p| == old(|A.p|) && A.s == old(A.s)
    ensures ret.Ok? ==> 0 <= A.Abs() < N.Abs()
    ensures ret.Ok? ==> (A.Abs() * LimbPow(|N.p|)) % N.Abs()
                        == (old(A.Abs()) * old(Val(B.p[..Shorter(|B.p|, |N.p|)]))) % N.Abs()
  {
    hide Val, LimbPow, ProductResidue;
    if |T.p| < |N.p| + 1 { return BadInputData; }
    T.p := Zeros(|T.p|);
    var n := |N.p|;
    var m := Shorter(|B.p|, n);
    ghost var a, b := A.p, Val(B.p[..m]);
    ghost var k: nat := 0;
    StartRounds(T.p, A.p, b, N.p, mm);
    var i := 0;
    while i < n
      invariant 0 <= i <= n && |T.p| == old(|T.p|) && A.p == a && B.p == old(B.p) && A.s == old(A.s)
      invariant Interleaved(T.p, A.p, i, b, N.Abs(), k)
    {
      k := MontgomeryRound(A, B, N, T, mm, i, m, k);
      i := i + 1;
    }
    ValBound(N.p);
    CopyResult(A.p, T.p, n, b, N.Abs(), k);
    A.p := T.p[n..2 * n + 1] + A.p[n + 1..];
    ghost var t := A.Abs();
    ResidueCongruent(t, LimbPow(n), Val(a), b, N.Abs(), k);
    var order := CompareAbs(A, N);
    if order >= 0 {
      assert N.p[..n] == N.p;
      SubHelper(n, N.p, A);
      OneSubtraction(t, LimbPow(n), Val(a), b, N.Abs(), k);
      ResidueCongruent(t - N.Abs(), LimbPow(n), Val(a), b, N.Abs(), k - LimbPow(n));
    } else {
      SubHelper(n, A.p, T);
    }
    return Ok;
  }

  /** r * w == a * b + k * n */
  ghost predicate ProductResidue(r: int, w: int, a: int, b: int, n: int, k: int) {
    r * w == a * b + k * n
  }

  lemma ResidueCongruent(r: int, w: int, a: int, b: int, n: int, k: int)
    requires ProductResidue(r, w, a, b, n, k) && n > 0
    ensures (r * w) % n == (a * b) % n
  {
    AddMultiple(a * b, n, k);
  }

  lemma OneSubtraction(t: int, w: int, a: int, b: int, n: int, k: int)
    requires ProductResidue(t, w, a, b, n, k)
    ensures ProductResidue(t - n, w, a, b, n, k - w)
  {
    MulSub(w, t, n);
    MulSub(n, k, w);
    assert w * n == n * w;
  }

  lemma StartRounds(tp: seq<Limb>, ap: seq<Limb>, b: nat, np: seq<Limb>, mm: Limb)
    requires np != [] && (np[0] * mm + 1) % BASE == 0 && forall k :: 0 <= k < |tp| ==> tp[k] == 0
    ensures Interleaved(tp, ap, 0, b, Val(np), 0)
  {
    hide Val;
    assert tp[0..] == tp && np[0..] == np && tp[..0] == ap[..0] == [];
    ValZero(tp);
    ValZero(tp[..0]);
    assert np[0] * mm == mm * np[0];
    NonZeroFactor(mm, np[0]);
    ValMod(np, 0);
  }

  /** After n rounds all limbs of A are consumed; the upper half of the scratch vector holds the result
      and the lower half the old limbs of A, which keeps the dummy subtraction inside the vector. */
  lemma CopyResult(ap: seq<Limb>, tp: seq<Limb>, n: nat, b: nat, nv: nat, k: nat)
    requires |ap| >= n + 1 && |tp| >= 2 * (n + 1) && Val(ap) < LimbPow(n) && b <= nv < LimbPow(n)
    requires Interleaved(tp, ap, n, b, nv, k)
    ensures Val(tp[n..2 * n + 1] + ap[n + 1..]) == Val(tp[n..]) < nv + b
    ensures Val((tp[n..2 * n + 1] + ap[n + 1..])[..n]) <= Val(tp)
    ensures ProductResidue(Val(tp[n..]), LimbPow(n), Val(ap), b, nv, k)
  {
    hide Val, LimbPow;
    ValHighZero(ap, n);
    LimbPowNext(n);
    UpperHalf(ap, tp, n);
    SumOfHalves(Val((tp[n..2 * n + 1] + ap[n + 1..])[..n]), Val(tp[n..]), LimbPow(n), tp, tp[n..2 * n + 1] + ap[n + 1..], n);
  }

  lemma UpperHalf(ap: seq<Limb>, tp: seq<Limb>, n: nat)
    requires |ap| >= n + 1 && |tp| >= 2 * (n + 1) && forall k :: n <= k < |ap| ==> ap[k] == 0
    requires Val(tp[n..]) < LimbPow(n + 1)
    ensures Val(tp[n..2 * n + 1] + ap[n + 1..]) == Val(tp[n..])
  {
    hide Val, LimbPow;
    var r, high := tp[n..2 * n + 1] + ap[n + 1..], tp[n..];
    ValHighZero(high, n + 1);
    assert high[..n + 1] == tp[n..2 * n + 1] == r[..n + 1];
    ValTrim(r, n + 1);
  }

  lemma SumOfHalves(low: nat, high: nat, w: nat, tp: seq<Limb>, r: seq<Limb>, n: nat)
    requires n <= |tp| && n <= |r| && w == LimbPow(n) && Val(r) == high == Val(tp[n..]) && low == Val(r[..n])
    ensures low <= Val(tp)
  {
    hide Val, LimbPow;
    ValSplit(r, n);
    ValSplit(tp, n);
    MulMono(w, 0, Val(r[n..]));
    MulMono(high, 1, w);
  }
}
