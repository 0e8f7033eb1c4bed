/** Bit counting and shifting. */
module MpiShift {
  import opened Arithmetic
  import opened Bits
  import opened Limbs
  import opened MpiCore

  // ----- quotients by powers of two -----

  lemma LimbSplitsAt(t: nat)
    requires t <= 64
    ensures Pow2(t) * Pow2(64 - t) == BASE
  {
    Pow2Add(t, 64 - t);
    Pow2Limb();
  }

  // ----- bit length -----

  ghost predicate IsBitLength(v: nat, len: nat) {
    && v < Pow2(len)
    && (v > 0 ==> len > 0 && Pow2(len - 1) <= v)
    && (v == 0 ==> len == 0)
  }

  lemma BitLengthUnique(v: nat, a: nat, b: nat)
    requires IsBitLength(v, a) && IsBitLength(v, b)
    ensures a == b
  {
    if a < b { Pow2Mono(a, b - 1); }
    if b < a { Pow2Mono(b, a - 1); }
  }

  /** Leading zero bits of a limb: the mask walks down from the top bit. */
  method LeadingZeros(x: Limb) returns (j: nat)
    ensures j <= 64 && IsBitLength(x, 64 - j)
  {
    Pow2Limb();
    var mask := 0x8000_0000_0000_0000;
    j := 0;
    while j < 64
      invariant 0 <= j <= 64 && x < Pow2(64 - j) && (j < 64 ==> mask > 0)
      invariant j < 64 ==> mask == Pow2(63 - j)
    {
      BitTest(x, mask);
      if (x / mask) % 2 == 1 { break; }
      mask := mask / 2;
      j := j + 1;
    }
  }

  lemma BitTest(x: nat, mask: nat)
    requires 0 < mask && x < 2 * mask
    ensures (x / mask) % 2 == if x >= mask then 1 else 0
  {
    if x >= mask { DivUnique(x, mask, 1, x - mask); } else { DivUnique(x, mask, 0, x); }
  }

  lemma TopLimbLength(p: seq<Limb>, i: nat, j: nat)
    requires i < |p| && forall k :: i < k < |p| ==> p[k] == 0
    requires IsBitLength(p[i], j) && (i > 0 ==> p[i] != 0)
    ensures IsBitLength(Val(p), i * 64 + j)
  {
    ValTrim(p, i + 1);
    ValSnoc(p, i);
    ValBound(p[..i]);
    LimbPowIsPow2(i);
    Pow2Add(j, 64 * i);
    TopDecides(Val(p[..i]), 0, LimbPow(i), p[i], Pow2(j));
    if p[i] > 0 {
      Pow2Add(j - 1, 64 * i);
      MulMonoLeft(LimbPow(i), Pow2(j - 1), p[i]);
    }
  }

  method BitLength(X: Mpi) returns (len: nat)
    ensures IsBitLength(X.Abs(), len)
  {
    if |X.p| == 0 { return 0; }
    var i := |X.p| - 1;
    while i > 0
      invariant 0 <= i < |X.p|
      invariant forall k :: i < k < |X.p| ==> X.p[k] == 0
    {
      if X.p[i] != 0 { break; }
      i := i - 1;
    }
    var z := LeadingZeros(X.p[i]);
    TopLimbLength(X.p, i, 64 - z);
    return i * 64 + (64 - z);
  }

  // ----- lowest set bit -----

  /** How often 2 divides v; 0 for 0. */
  function TrailingZeros(v: nat): nat {
    if v == 0 || v % 2 == 1 then 0 else 1 + TrailingZeros(v / 2)
  }

  lemma {:induction false} TrailingZerosOf(m: nat, k: nat)
    requires m % 2 == 1
    ensures TrailingZeros(m * Pow2(k)) == k
  {
    if k == 0 {
      assert m * 1 == m;
    } else {
      TrailingZerosOf(m, k - 1);
      assert m * Pow2(k) == 2 * (m * Pow2(k - 1));
      MulMono(Pow2(k - 1), 1, m);
    }
  }

  lemma {:induction false} OddPart(v: nat)
    requires v > 0
    ensures v == (v / Pow2(TrailingZeros(v))) * Pow2(TrailingZeros(v))
    ensures (v / Pow2(TrailingZeros(v))) % 2 == 1
  {
    var k := TrailingZeros(v);
    if v % 2 == 0 {
      OddPart(v / 2);
      DivDiv(v, 2, Pow2(k - 1));
      assert (v / Pow2(k)) * Pow2(k) == 2 * ((v / Pow2(k)) * Pow2(k - 1));
    }
  }

  lemma LowestBit(p: seq<Limb>, i: nat, j: nat, m: nat)
    requires i < |p| && forall k :: 0 <= k < i ==> p[k] == 0
    requires j < 64 && p[i] == m * Pow2(j) && m % 2 == 1
    ensures TrailingZeros(Val(p)) == 64 * i + j && Val(p) > 0
  {
    var x := Pow2(63 - j) * Val(p[i + 1..]);
    assert Val(p) == (m + 2 * x) * Pow2(64 * i + j) by { LowestBitValue(p, i, j, m); }
    OddMultiple(m, x, 64 * i + j);
  }

  lemma OddMultiple(m: nat, x: nat, k: nat)
    requires m % 2 == 1
    ensures TrailingZeros((m + 2 * x) * Pow2(k)) == k && (m + 2 * x) * Pow2(k) > 0
  {
    TrailingZerosOf(m + 2 * x, k);
    MulMono(Pow2(k), 1, m + 2 * x);
  }

  lemma LowestBitValue(p: seq<Limb>, i: nat, j: nat, m: nat)
    requires i < |p| && forall k :: 0 <= k < i ==> p[k] == 0
    requires j < 64 && p[i] == m * Pow2(j)
    ensures Val(p) == (m + 2 * (Pow2(63 - j) * Val(p[i + 1..]))) * Pow2(64 * i + j)
  {
    ValSplit(p, i);
    ValZero(p[..i]);
    ValHead(p, i);
    LimbSplitsAt(j);
    Regroup(m, Pow2(j), Pow2(63 - j), Val(p[i + 1..]), LimbPow(i));
    LimbPowIsPow2(i);
    Pow2Add(j, 64 * i);
  }

  lemma Regroup(m: nat, w: nat, h: nat, v: nat, l: nat)
    requires w * (2 * h) == BASE
    ensures l * (m * w + BASE * v) == (m + 2 * (h * v)) * (w * l)
  {
    assert (m + 2 * (h * v)) * w == m * w + (w * (2 * h)) * v;
    assert l * ((m + 2 * (h * v)) * w) == (m + 2 * (h * v)) * (w * l);
  }

  method LowestSetBit(X: Mpi) returns (count: nat)
    ensures count == TrailingZeros(X.Abs())
  {
    count := 0;
    var i := 0;
    while i < |X.p|
      invariant 0 <= i <= |X.p| && count == 64 * i
      invariant forall k :: 0 <= k < i ==> X.p[k] == 0
    {
      var j := 0;
      ghost var m: nat := X.p[i];
      while j < 64
        invariant 0 <= j <= 64 && count == 64 * i + j
        invariant X.p[i] == m * Pow2(j)
      {
        BitOf(X.p[i], m, j);
        if (X.p[i] / Pow2(j)) % 2 == 1 {
          LowestBit(X.p, i, j, m);
          return;
        }
        m := m / 2;
        j, count := j + 1, count + 1;
      }
      LimbGone(X.p[i], m);
      i := i + 1;
    }
    ValZero(X.p);
    return 0;
  }

  lemma BitOf(x: nat, m: nat, j: nat)
    requires x == m * Pow2(j)
    ensures x / Pow2(j) == m
    ensures m % 2 == 0 ==> x == (m / 2) * Pow2(j + 1)
  {
    DivUnique(x, Pow2(j), m, 0);
    if m % 2 == 0 { assert m * Pow2(j) == (m / 2) * (2 * Pow2(j)); }
  }

  lemma LimbGone(x: Limb, m: nat)
    requires x == m * Pow2(64)
    ensures x == 0
  {
    Pow2Limb();
  }

  // ----- left shift -----

  function LimbsForBits(i: nat): nat {
    i / 64 + if i % 64 != 0 then 1 else 0
  }

  /** X <<= count */
  method ShiftLeft(X: Mpi, count: nat)
    modifies X
    ensures X.s == old(X.s) && X.Abs() == old(X.Abs()) * Pow2(count)
    ensures |X.p| >= old(|X.p|)
    ensures forall len: nat :: IsBitLength(old(X.Abs()), len) ==>
      |X.p| == if old(|X.p|) < LimbsForBits(len + count) then LimbsForBits(len + count) else old(|X.p|)
  {
    hide Val, IsBitLength;
    var len := BitLength(X);
    var i := len + count;
    if |X.p| * 64 < i { Grow(X, LimbsForBits(i)); }
    forall l: nat | IsBitLength(old(X.Abs()), l) ensures l == len { BitLengthUnique(old(X.Abs()), l, len); }
    ShiftInPlace(X, count, len);
  }

  /** By whole limbs, then by the remaining bits. */
  method ShiftInPlace(X: Mpi, count: nat, ghost len: nat)
    requires X.Abs() < Pow2(len) && len + count <= 64 * |X.p|
    modifies X
    ensures X.s == old(X.s) && X.Abs() == old(X.Abs()) * Pow2(count) && |X.p| == old(|X.p|)
  {
    hide Val, LimbPow, Pow2;
    var v0, t1 := count / 64, count % 64;
    ghost var x := X.Abs();
    ShiftRoom(x, len, count, |X.p|);
    ShiftedBy(x, v0, t1);
    if v0 > 0 { ShiftLimbsUp(X, v0); }
    ghost var moved := x * LimbPow(v0);
    assert X.Abs() == moved;
    if t1 > 0 { ShiftBitsUp(X, v0, t1); }
  }

  lemma ShiftedBy(x: nat, v0: nat, t1: nat)
    ensures (x * LimbPow(v0)) * Pow2(t1) == x * Pow2(64 * v0 + t1)
    ensures LimbPow(0) == 1 && Pow2(0) == 1
  {
    LimbPowIsPow2(v0);
    Pow2Add(64 * v0, t1);
    MulAssoc(x, Pow2(64 * v0), Pow2(t1));
  }

  lemma ShiftRoom(v: nat, len: nat, count: nat, n: nat)
    requires v < Pow2(len) && len + count <= 64 * n
    ensures count / 64 <= n && v < LimbPow(n - count / 64)
    ensures (v * LimbPow(count / 64)) * Pow2(count % 64) < LimbPow(n)
  {
    var v0, t1 := count / 64, count % 64;
    LimbPowIsPow2(n);
    LimbPowIsPow2(v0);
    LimbPowIsPow2(n - v0);
    Pow2Mono(len, 64 * (n - v0));
    Pow2Add(64 * v0, t1);
    Pow2Add(len, count);
    Pow2Mono(len + count, 64 * n);
    MulAssoc(v, LimbPow(v0), Pow2(t1));
    TopDecides(0, 0, Pow2(count), v, Pow2(len));
  }

  method ShiftLimbsUp(X: Mpi, v0: nat)
    requires v0 <= |X.p| && X.Abs() < LimbPow(|X.p| - v0)
    modifies X
    ensures X.s == old(X.s) && |X.p| == old(|X.p|)
    ensures X.Abs() == old(X.Abs()) * LimbPow(v0)
    ensures forall k :: 0 <= k < v0 ==> X.p[k] == 0
  {
    hide Val, LimbPow;
    ghost var p0 := X.p;
    var i := |X.p|;
    while i > v0
      invariant v0 <= i <= |X.p| == |p0| && X.s == old(X.s)
      invariant forall k :: 0 <= k < i ==> X.p[k] == p0[k]
      invariant forall k :: i <= k < |p0| ==> X.p[k] == p0[k - v0]
    {
      X.p := X.p[i - 1 := X.p[i - v0 - 1]];
      i := i - 1;
    }
    while i > 0
      invariant 0 <= i <= v0 && |X.p| == |p0| && X.s == old(X.s)
      invariant forall k :: i <= k < v0 ==> X.p[k] == 0
      invariant forall k :: v0 <= k < |p0| ==> X.p[k] == p0[k - v0]
    {
      X.p := X.p[i - 1 := 0];
      i := i - 1;
    }
    ValMoved(X.p, p0, v0);
  }

  lemma ValMoved(p: seq<Limb>, p0: seq<Limb>, v0: nat)
    requires v0 <= |p| == |p0| && Val(p0) < LimbPow(|p0| - v0)
    requires forall k :: 0 <= k < v0 ==> p[k] == 0
    requires forall k :: v0 <= k < |p0| ==> p[k] == p0[k - v0]
    ensures Val(p) == Val(p0) * LimbPow(v0)
  {
    assert Val(p[v0..]) == Val(p0) by {
      ValHighZero(p0, |p0| - v0);
      assert p[v0..] == p0[..|p0| - v0];
    }
    assert Val(p[..v0]) == 0 by { ValZero(p[..v0]); }
    ValSplit(p, v0);
  }

  /** One limb shifted up by t bits, taking in the bits from below and giving up its own top ones. */
  method ShiftLimbUp(p: Limb, r0: Limb, t: nat) returns (p': Limb, r1: Limb)
    requires 0 < t < 64 && r0 < Pow2(t)
    ensures p' + r1 * BASE == p * Pow2(t) + r0 && r1 < Pow2(t)
  {
    LimbShiftUp(p, t);
    var low := p % Pow2(64 - t);
    r1 := p / Pow2(64 - t);
    p' := (p * Pow2(t)) % BASE;
    BitOrDisjoint(low, r0, t);
    MulMono(Pow2(t), low + 1, Pow2(64 - t));
    assert Pow2(t) * (low + 1) == low * Pow2(t) + Pow2(t);
    p' := BitOr(p', r0);
  }

  lemma LimbShiftUp(p: Limb, t: nat)
    requires 0 < t < 64
    ensures p * Pow2(t) == (p / Pow2(64 - t)) * BASE + (p % Pow2(64 - t)) * Pow2(t)
    ensures (p * Pow2(t)) % BASE == (p % Pow2(64 - t)) * Pow2(t)
    ensures p / Pow2(64 - t) < Pow2(t)
    ensures Pow2(t) * Pow2(64 - t) == BASE
  {
    hide Pow2;
    LimbSplitsAt(t);
    var h, l := DivMod(p, Pow2(64 - t));
    LimbShiftArith(p, Pow2(t), Pow2(64 - t), h, l);
  }

  lemma LimbShiftArith(p: Limb, w: nat, u: nat, h: nat, l: nat)
    requires w * u == BASE && p == h * u + l && l < u
    ensures p * w == h * BASE + l * w && (p * w) % BASE == l * w && h < w
  {
    MulAssoc(h, u, w);
    assert u * w == w * u;
    TopDecides(0, 0, w, l, u);
    DivUnique(p * w, BASE, h, l * w);
    if h >= w { MulMono(u, w, h); }
  }

  /** How far the bit shift has got: limbs from i on are still those of p0. */
  ghost predicate ShiftedUp(p: seq<Limb>, p0: seq<Limb>, i: nat, t: nat, r0: Limb) {
    && i <= |p| == |p0| && r0 < Pow2(t)
    && (forall k :: i <= k < |p0| ==> p[k] == p0[k])
    && Val(p[..i]) + r0 * LimbPow(i) == Val(p0[..i]) * Pow2(t)
  }

  method ShiftBitsUp(X: Mpi, from: nat, t: nat)
    requires from <= |X.p| && 0 < t < 64 && forall k :: 0 <= k < from ==> X.p[k] == 0
    requires X.Abs() * Pow2(t) < LimbPow(|X.p|)
    modifies X
    ensures X.s == old(X.s) && |X.p| == old(|X.p|)
    ensures X.Abs() == old(X.Abs()) * Pow2(t)
  {
    ghost var p0 := X.p;
    ValZero(p0[..from]);
    var i, r0: Limb := from, 0;
    while i < |X.p|
      invariant 0 <= i <= |X.p| && X.s == old(X.s) && ShiftedUp(X.p, p0, i, t, r0)
    {
      var p', r1 := ShiftLimbUp(X.p[i], r0, t);
      ShiftUpStep(X.p, p0, i, t, p', r0, r1);
      X.p, r0 := X.p[i := p'], r1;
      i := i + 1;
    }
    assert X.p[..i] == X.p && p0[..i] == p0;
    NoHighPart(X.Abs(), LimbPow(i), r0, Val(p0) * Pow2(t));
  }

  lemma ShiftUpStep(p: seq<Limb>, p0: seq<Limb>, i: nat, t: nat, x: Limb, r0: Limb, r1: Limb)
    requires i < |p| && ShiftedUp(p, p0, i, t, r0)
    requires x + r1 * BASE == p0[i] * Pow2(t) + r0 && r1 < Pow2(t)
    ensures ShiftedUp(p[i := x], p0, i + 1, t, r1)
  {
    ValSnoc(p[i := x], i);
    ValSnoc(p0, i);
    assert p[i := x][..i] == p[..i];
    ShiftUpArith(Val(p[..i]), Val(p0[..i]), LimbPow(i), Pow2(t), p0[i], x, r0, r1);
  }

  lemma ShiftUpArith(v: nat, v0: nat, l: nat, w: nat, y: nat, x: nat, r0: nat, r1: nat)
    requires v + r0 * l == v0 * w && x + r1 * BASE == y * w + r0
    ensures (v + x * l) + r1 * (BASE * l) == (v0 + y * l) * w
  {
    assert (x + r1 * BASE) * l == (y * w + r0) * l;
    assert (x + r1 * BASE) * l == x * l + r1 * (BASE * l);
    assert (y * w + r0) * l == (y * l) * w + r0 * l;
    assert (v0 + y * l) * w == v0 * w + (y * l) * w;
  }

  // ----- right shift -----

  /** X >>= count; a shift by more bits than the buffer holds also resets the sign. */
  method ShiftRight(X: Mpi, count: nat)
    modifies X
    ensures X.Abs() == old(X.Abs()) / Pow2(count)
    ensures X.s == old(X.s) || (X.s == 1 && X.Abs() == 0)
    ensures |X.p| == old(|X.p|) || (old(|X.p|) == 0 && |X.p| == 1)
  {
    hide Val;
    var v0, v1 := count / 64, count % 64;
    LimbPowIsPow2(v0);
    Pow2Add(64 * v0, v1);
    ValBound(X.p);
    if v0 > |X.p| || (v0 == |X.p| && v1 > 0) {
      LimbPowMono(|X.p|, v0);
      MulMono(LimbPow(v0), 1, Pow2(v1));
      DivUnique(X.Abs(), Pow2(count), 0, X.Abs());
      SetInt(X, 0);
      return;
    }
    if v0 > 0 { ShiftLimbsDown(X, v0); }
    assert LimbPow(0) == 1;
    assert X.Abs() == old(X.Abs()) / LimbPow(v0);
    if v1 > 0 { ShiftBitsDown(X, v1); }
    DivDiv(old(X.Abs()), LimbPow(v0), Pow2(v1));
    assert Pow2(0) == 1;
  }

  method ShiftLimbsDown(X: Mpi, v0: nat)
    requires v0 <= |X.p|
    modifies X
    ensures X.s == old(X.s) && |X.p| == old(|X.p|)
    ensures X.Abs() == old(X.Abs()) / LimbPow(v0)
  {
    hide Val, LimbPow;
    ghost var p0 := X.p;
    var i := 0;
    while i < |X.p| - v0
      invariant 0 <= i <= |X.p| - v0 && |X.p| == |p0| && X.s == old(X.s)
      invariant forall k :: i <= k < |p0| ==> X.p[k] == p0[k]
      invariant forall k :: 0 <= k < i ==> X.p[k] == p0[k + v0]
    {
      X.p := X.p[i := X.p[i + v0]];
      i := i + 1;
    }
    while i < |X.p|
      invariant |p0| - v0 <= i <= |X.p| == |p0| && X.s == old(X.s)
      invariant forall k :: 0 <= k < |p0| - v0 ==> X.p[k] == p0[k + v0]
      invariant forall k :: |p0| - v0 <= k < i ==> X.p[k] == 0
    {
      X.p := X.p[i := 0];
      i := i + 1;
    }
    ValTrim(X.p, |p0| - v0);
    assert X.p[..|p0| - v0] == p0[v0..];
    ValSplit(p0, v0);
    ValBound(p0[..v0]);
    assert LimbPow(v0) * X.Abs() == X.Abs() * LimbPow(v0);
    DivUnique(Val(p0), LimbPow(v0), X.Abs(), Val(p0[..v0]));
  }

  /** One limb shifted down by t bits, taking in the bits from above and giving up its own low ones. */
  method ShiftLimbDown(p: Limb, r0: Limb, t: nat, ghost r: nat) returns (p': Limb, r1: Limb)
    requires 0 < t < 64 && r < Pow2(t) && r0 == r * Pow2(64 - t)
    ensures p' == p / Pow2(t) + r0
    ensures r1 == (p % Pow2(t)) * Pow2(64 - t)
  {
    LimbShiftUp(p, 64 - t);
    r1 := (p * Pow2(64 - t)) % BASE;
    BitOrDisjoint(r, p / Pow2(t), 64 - t);
    MulMono(Pow2(64 - t), r + 1, Pow2(t));
    assert Pow2(64 - t) * (r + 1) == r * Pow2(64 - t) + Pow2(64 - t);
    p' := p / Pow2(t);
    p' := BitOr(p', r0);
  }

  method ShiftBitsDown(X: Mpi, t: nat)
    requires 0 < t < 64
    modifies X
    ensures X.s == old(X.s) && |X.p| == old(|X.p|)
    ensures X.Abs() == old(X.Abs()) / Pow2(t)
  {
    ghost var p0 := X.p;
    var i, r0: Limb := |X.p|, 0;
    assert p0[i..] == [];
    DivUnique(0, Pow2(t), 0, 0);
    while i > 0
      invariant 0 <= i <= |X.p| == |p0| && X.s == old(X.s)
      invariant forall k :: 0 <= k < i ==> X.p[k] == p0[k]
      invariant Val(X.p[i..]) == Val(p0[i..]) / Pow2(t)
      invariant r0 == (Val(p0[i..]) % Pow2(t)) * Pow2(64 - t)
    {
      var p', r1 := ShiftLimbDown(X.p[i - 1], r0, t, Val(p0[i..]) % Pow2(t));
      ShiftDownStep(X.p, p0, i - 1, t, p');
      X.p, r0 := X.p[i - 1 := p'], r1;
      i := i - 1;
    }
    assert X.p[0..] == X.p && p0[0..] == p0;
  }

  lemma ShiftDownStep(p: seq<Limb>, p0: seq<Limb>, i: nat, t: nat, x: Limb)
    requires i < |p| == |p0| && 0 < t < 64
    requires Val(p[i + 1..]) == Val(p0[i + 1..]) / Pow2(t)
    requires x == p0[i] / Pow2(t) + (Val(p0[i + 1..]) % Pow2(t)) * Pow2(64 - t)
    ensures Val(p[i := x][i..]) == Val(p0[i..]) / Pow2(t)
    ensures Val(p0[i..]) % Pow2(t) == p0[i] % Pow2(t)
  {
    ValHead(p[i := x], i);
    ValHead(p0, i);
    assert p[i := x][i + 1..] == p[i + 1..];
    LimbSplitsAt(t);
    ShiftDownArith(p0[i], Val(p0[i + 1..]), Pow2(t), Pow2(64 - t));
  }

  lemma ShiftDownArith(y: nat, v: nat, w: nat, u: nat)
    requires w > 0 && w * u == BASE
    ensures (y + BASE * v) / w == BASE * (v / w) + (y / w + (v % w) * u)
    ensures (y + BASE * v) % w == y % w
  {
    var q, r, h, l := v / w, v % w, y / w, y % w;
    assert BASE * (q * w + r) == BASE * (q * w) + (w * u) * r;
    assert (BASE * q + (h + r * u)) * w == BASE * (q * w) + h * w + (w * u) * r;
    DivUnique(y + BASE * v, w, BASE * q + (h + r * u), l);
  }
}
