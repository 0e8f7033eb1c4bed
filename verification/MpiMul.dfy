/** Schoolbook multiplication over the multiply-accumulate step. */
module MpiMul {
  import opened Arithmetic
  import opened Limbs
  import opened MpiCore
  import opened MpiAddSub

  /** The multiply-accumulate step with a double-width product. */
  method MulAddWide(s: Limb, b: Limb, d: Limb, c: Limb) returns (d': Limb, c': Limb)
    ensures d' + c' * BASE == s * b + d + c
  {
    ProductBound(s, b);
    var r: int := s * b;
    var r0: Limb, r1: Limb := r % BASE, r / BASE;
    r0 := (r0 + c) % BASE;
    r1 := r1 + if r0 < c then 1 else 0;
    r0 := (r0 + d) % BASE;
    r1 := r1 + if r0 < d then 1 else 0;
    d', c' := r0, r1;
  }

  lemma ProductBound(s: Limb, b: Limb)
    ensures 0 <= s * b <= (BASE - 1) * (BASE - 1)
  {
    MulMono(s, b, BASE - 1);
    MulMono(BASE - 1, s, BASE - 1);
  }

  const HALF := 0x1_0000_0000

  /** Wrapping addition with its carry. */
  method AddOut(x: Limb, y: Limb) returns (r: Limb, k: Limb)
    ensures r + k * BASE == x + y && k <= 1
  {
    r := (x + y) % BASE;
    k := if r < y then 1 else 0;
  }

  lemma ShiftHalf(x: Limb)
    ensures x * HALF == (x / HALF) * BASE + (x * HALF) % BASE
  {
    assert x * HALF == (x / HALF) * BASE + (x % HALF) * HALF;
    assert 0 <= (x % HALF) * HALF < BASE;
  }

  /** The same step from half-limb products, for targets without a double-width type. */
  method MulAddHalves(s: Limb, b: Limb, d: Limb, c: Limb) returns (d': Limb, c': Limb)
    ensures d' + c' * BASE == s * b + d + c
  {
    var s0, s1, b0, b1 := s % HALF, s / HALF, b % HALF, b / HALF;
    HalfProducts(s0, s1, b0, b1);
    var rx: Limb, r0: Limb := s0 * b1, s0 * b0;
    var ry: Limb, r1: Limb := s1 * b0, s1 * b1;
    ghost var product: int := s * b;
    ProductBound(s, b);
    ShiftHalf(rx);
    ShiftHalf(ry);
    d', c' := SumHalves(r0, rx, ry, r1, d, c, product);
  }

  method SumHalves(low: Limb, mid: Limb, mid': Limb, high: Limb, d: Limb, c: Limb, ghost product: int)
    returns (d': Limb, c': Limb)
    requires product == low + (mid + mid') * HALF + high * BASE
    requires product <= (BASE - 1) * (BASE - 1)
    requires mid * HALF == (mid / HALF) * BASE + (mid * HALF) % BASE
    requires mid' * HALF == (mid' / HALF) * BASE + (mid' * HALF) % BASE
    ensures d' + c' * BASE == product + d + c
  {
    var r1: Limb := high + mid / HALF;
    r1 := r1 + mid' / HALF;
    var rx: Limb, ry: Limb := (mid * HALF) % BASE, (mid' * HALF) % BASE;
    var r0, k := AddOut(low, rx);
    r1 := r1 + k;
    r0, k := AddOut(r0, ry);
    r1 := r1 + k;
    assert product == r0 + r1 * BASE;
    r0, k := AddOut(r0, c);
    r1 := r1 + k;
    r0, k := AddOut(r0, d);
    r1 := r1 + k;
    d', c' := r0, r1;
  }

  lemma HalfProducts(s0: int, s1: int, b0: int, b1: int)
    requires 0 <= s0 < HALF && 0 <= s1 < HALF && 0 <= b0 < HALF && 0 <= b1 < HALF
    ensures 0 <= s0 * b0 <= (HALF - 1) * (HALF - 1) && 0 <= s0 * b1 <= (HALF - 1) * (HALF - 1)
    ensures 0 <= s1 * b0 <= (HALF - 1) * (HALF - 1) && 0 <= s1 * b1 <= (HALF - 1) * (HALF - 1)
    ensures (s0 + s1 * HALF) * (b0 + b1 * HALF) == s0 * b0 + (s0 * b1 + s1 * b0) * HALF + s1 * b1 * BASE
  {
    HalfProduct(s0, b0);
    HalfProduct(s0, b1);
    HalfProduct(s1, b0);
    HalfProduct(s1, b1);
    HalvesProduct(s0, s1, b0, b1);
  }

  lemma HalfProduct(s: int, b: int)
    requires 0 <= s < HALF && 0 <= b < HALF
    ensures 0 <= s * b <= (HALF - 1) * (HALF - 1)
  {
    MulMono(s, b, HALF - 1);
    MulMono(HALF - 1, s, HALF - 1);
  }

  lemma HalvesProduct(s0: int, s1: int, b0: int, b1: int)
    ensures (s0 + s1 * HALF) * (b0 + b1 * HALF) == s0 * b0 + (s0 * b1 + s1 * b0) * HALF + s1 * b1 * BASE
  {
  }

  lemma ScaleSnoc(v: int, x: int, w: int, b: int)
    ensures (v + x * w) * b == v * b + (x * b) * w
  {
    assert (x * w) * b == (x * b) * w;
  }

  lemma CarryTooBig(low: nat, c: nat, w: nat, v: nat)
    requires low + c * w == v && v < w
    ensures c == 0
  {
    NoHighPart(low, w, c, v);
  }

  /** A pending carry has not reached the end of a vector that can hold the sum. */
  lemma CarryInside(p: seq<Limb>, x0: seq<Limb>, i: nat, c: Limb, addend: nat)
    requires Carried(p, x0, i, c, addend) && c > 0
    requires Val(x0) + addend < LimbPow(|x0|)
    ensures i < |p|
  {
    if i == |p| {
      assert x0[..i] == x0;
      CarryTooBig(Val(p[..i]), c, LimbPow(i), Val(x0) + addend);
    }
  }

  lemma MulStep(p: seq<Limb>, off: nat, d0: seq<Limb>, s: seq<Limb>, k: nat, b: Limb, d: Limb, c: Limb, c': Limb)
    requires off + k < |p| && k < |s| && Carried(p[off..], d0, k, c, Val(s[..k]) * b)
    requires d + c' * BASE == s[k] * b + p[off + k] + c
    ensures Carried(p[off + k := d][off..], d0, k + 1, c', Val(s[..k + 1]) * b)
  {
    hide LimbPow;
    CarriedStep(p[off..], d0, k, c, Val(s[..k]) * b, s[k] * b, d, c');
    ValSnoc(s, k);
    ScaleSnoc(Val(s[..k]), s[k], LimbPow(k), b);
    assert p[off + k := d][off..] == p[off..][k := d];
  }

  /** X.p[off..] += s[..n] * b. The closing loop writes one limb above the n products even for a zero carry. */
  method MulHelper(n: nat, s: seq<Limb>, X: Mpi, off: nat, b: Limb)
    requires n <= |s| && off + n < |X.p|
    requires Val(X.p[off..]) + Val(s[..n]) * b < LimbPow(|X.p| - off)
    modifies X
    ensures X.s == old(X.s) && |X.p| == old(|X.p|) && X.p[..off] == old(X.p)[..off]
    ensures Val(X.p[off..]) == old(Val(X.p[off..])) + Val(s[..n]) * b
  {
    hide LimbPow;
    ghost var d0, low := X.p[off..], X.p[..off];
    var k, c: Limb := 0, 0;
    while k < n
      invariant 0 <= k <= n && X.s == old(X.s) && |X.p| == old(|X.p|)
      invariant X.p[..off] == low && Carried(X.p[off..], d0, k, c, Val(s[..k]) * b)
    {
      var d, c' := MulAddWide(s[k], b, X.p[off + k], c);
      MulStep(X.p, off, d0, s, k, b, d, c, c');
      X.p, c := X.p[off + k := d], c';
      k := k + 1;
    }
    MulTail(X, off, n, c, d0, Val(s[..n]) * b);
  }

  /** Push the carry upwards until it is gone; at least one limb is visited. */
  method MulTail(X: Mpi, off: nat, n: nat, carry: Limb, ghost d0: seq<Limb>, ghost addend: nat)
    requires off + n < |X.p| && |d0| == |X.p| - off
    requires Carried(X.p[off..], d0, n, carry, addend)
    requires Val(d0) + addend < LimbPow(|d0|)
    modifies X
    ensures X.s == old(X.s) && |X.p| == old(|X.p|) && X.p[..off] == old(X.p)[..off]
    ensures Val(X.p[off..]) == Val(d0) + addend
  {
    var k, c, first := n, carry, true;
    ghost var low := X.p[..off];
    while first || c != 0
      invariant n <= k && X.s == old(X.s) && |X.p| == old(|X.p|)
      invariant X.p[..off] == low && Carried(X.p[off..], d0, k, c, addend)
      invariant first ==> k == n
      decreases |X.p| - off - k
    {
      if c != 0 { CarryInside(X.p[off..], d0, k, c, addend); }
      var d, c' := AddWithCarry(X.p[off + k], 0, c);
      CarriedStep(X.p[off..], d0, k, c, addend, 0, d, c');
      assert addend + 0 * LimbPow(k) == addend;
      assert X.p[off + k := d][off..] == X.p[off..][k := d];
      X.p, c, first := X.p[off + k := d], c', false;
      k := k + 1;
    }
    CarriedDone(X.p[off..], d0, k, addend);
  }

  function TimesSign(a: Sign, b: Sign): (s: Sign)
    ensures s as int == (a as int) * (b as int)
  {
    if a == b then 1 else -1
  }

  lemma SignedProduct(sa: Sign, a: nat, sb: Sign, b: nat)
    ensures (if sa < 0 then -(a as int) else a) * (if sb < 0 then -(b as int) else b)
         == if TimesSign(sa, sb) < 0 then -(a * b) else a * b
  {
  }

  /** X = A * B */
  method Mul(X: Mpi, A: Mpi, B: Mpi)
    modifies X
    ensures X.Value() == old(A.Value()) * old(B.Value())
    ensures X.Abs() == old(A.Abs()) * old(B.Abs())
    ensures old(A.p != [] && B.p != []) ==> X.s == TimesSign(old(A.s), old(B.s))
    ensures |X.p| >= old(|X.p|) && |X.p| >= 1
  {
    var a, b := A, B;
    if X == A { a := new Mpi(); Copy(a, A); }
    if X == B { b := new Mpi(); Copy(b, B); }
    SignedProduct(a.s, a.Abs(), b.s, b.Abs());
    MulDistinct(X, a, b);
  }

  /** The product loop, for a destination that is neither operand. */
  method MulDistinct(X: Mpi, A: Mpi, B: Mpi)
    requires X != A && X != B
    modifies X
    ensures X.Abs() == A.Abs() * B.Abs() && X.s == TimesSign(A.s, B.s)
    ensures |X.p| >= old(|X.p|) && |X.p| >= 1
  {
    hide LimbPow;
    var i := CountSignificant(A);
    var j := CountSignificant(B);
    ValTrim(A.p, i);
    ValTrim(B.p, j);
    Grow(X, i + j);
    SetInt(X, 0);
    ghost var a, b := Val(A.p[..i]), B.p[..j];
    assert b[j..] == [];
    ValZero(X.p);
    ValZero(X.p[j..]);
    assert a * 0 == 0;
    while j > 0
      invariant 0 <= j <= |b| && |X.p| >= i + |b| && |X.p| >= 1 && |X.p| >= old(|X.p|)
      invariant forall k :: 0 <= k < j ==> X.p[k] == 0
      invariant Val(X.p[j..]) == a * Val(b[j..])
    {
      MulFits(X.p, A.p, i, b, j);
      ghost var low := X.p[..j - 1];
      MulHelper(i, A.p, X, j - 1, B.p[j - 1]);
      j := j - 1;
      forall k | 0 <= k < j ensures X.p[k] == 0 { assert X.p[k] == X.p[..j][k] == low[k]; }
    }
    assert X.p[0..] == X.p && b[0..] == b;
    X.s := TimesSign(A.s, B.s);
  }

  lemma ScaleHead(a: int, x: int, y: int)
    ensures a * (x + BASE * y) == a * x + BASE * (a * y)
  {
  }

  lemma MulFits(x: seq<Limb>, a: seq<Limb>, i: nat, b: seq<Limb>, j: nat)
    requires 0 < j <= |b| && i <= |a| && |x| >= i + |b| && x[j - 1] == 0
    requires Val(x[j..]) == Val(a[..i]) * Val(b[j..])
    ensures Val(x[j - 1..]) + Val(a[..i]) * b[j - 1] == Val(a[..i]) * Val(b[j - 1..])
    ensures Val(a[..i]) * Val(b[j - 1..]) < LimbPow(|x| - (j - 1))
  {
    var m := |b| - (j - 1);
    ValHead(x, j - 1);
    ValHead(b, j - 1);
    ScaleHead(Val(a[..i]), b[j - 1], Val(b[j..]));
    ValBound(a[..i]);
    ValBound(b[j - 1..]);
    ProductBelow(Val(a[..i]), LimbPow(i), Val(b[j - 1..]), LimbPow(m));
    LimbPowAdd(i, m);
    LimbPowMono(i + m, |x| - (j - 1));
  }

  lemma ProductBelow(x: nat, x': nat, y: nat, y': nat)
    requires x < x' && y < y'
    ensures x * y < x' * y'
  {
    MulMono(x, y, y');
    MulMono(y', x + 1, x');
    assert x * y' < y' * (x + 1);
  }

  /** X = A * b */
  method MulInt(X: Mpi, A: Mpi, b: Limb)
    modifies X
    ensures X.Value() == old(A.Value()) * b
    ensures X.Abs() == old(A.Abs()) * b
    ensures old(A.p) != [] ==> X.s == old(A.s)
    ensures |X.p| >= old(|X.p|) && |X.p| >= 1
  {
    var B := new Mpi();
    B.p := [b];
    assert Val(B.p) == B.p[0] + BASE * Val(B.p[1..]);
    Mul(X, A, B);
  }
}
