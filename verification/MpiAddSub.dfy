/** Addition and subtraction. Operands may be the same object as the destination. */
module MpiAddSub {
  import opened Limbs
  import opened MpiCore

  /** One limb of a carry chain. */
  lemma CarryStep(vx: int, vb: int, vr: int, w: int, x: int, b: int, c: int, r: int, c': int)
    requires vr + c * w == vx + vb
    requires r + c' * BASE == x + b + c
    ensures (vr + r * w) + c' * (BASE * w) == (vx + x * w) + (vb + b * w)
  {
    assert (r + c' * BASE) * w == (x + b + c) * w;
    assert (r + c' * BASE) * w == r * w + c' * (BASE * w);
    assert (x + b + c) * w == x * w + b * w + c * w;
  }

  /** Add the carry, then the other limb; each addition that wraps counts one into the new carry. */
  method AddWithCarry(p: Limb, t: Limb, c: Limb) returns (r: Limb, c': Limb)
    requires c <= 1 || t == 0
    ensures r + c' * BASE == p + t + c && c' <= 1
  {
    r := (p + c) % BASE;
    c' := if r < c then 1 else 0;
    r := (r + t) % BASE;
    c' := c' + if r < t then 1 else 0;
  }

  /** Subtract the borrow, then the other limb; the new borrow counts the subtractions that wrap. */
  method SubWithBorrow(d: Limb, t: Limb, c: Limb) returns (r: Limb, c': Limb)
    requires c <= 1
    ensures d + c' * BASE == r + t + c && c' <= 1
  {
    var z: Limb := if d < c then 1 else 0;
    r := (d - c) % BASE;
    c' := (if r < t then 1 else 0) + z;
    r := (r - t) % BASE;
  }

  /** Where a carry chain over two vectors has got to: limbs from i on are still those of x0. */
  ghost predicate Carried(p: seq<Limb>, x0: seq<Limb>, i: nat, c: Limb, addend: nat) {
    && i <= |p| == |x0|
    && (forall k :: i <= k < |p| ==> p[k] == x0[k])
    && Val(p[..i]) + c * LimbPow(i) == Val(x0[..i]) + addend
  }

  lemma CarriedStep(p: seq<Limb>, x0: seq<Limb>, i: nat, c: Limb, addend: nat, t: nat, r: Limb, c': Limb)
    requires Carried(p, x0, i, c, addend) && i < |p|
    requires r + c' * BASE == p[i] + t + c
    ensures Carried(p[i := r], x0, i + 1, c', addend + t * LimbPow(i))
  {
    var q := p[i := r];
    ValSnoc(q, i);
    ValSnoc(x0, i);
    assert q[..i] == p[..i];
    CarryStep(Val(x0[..i]), addend, Val(p[..i]), LimbPow(i), x0[i], t, c, r, c');
  }

  lemma CarriedDone(p: seq<Limb>, x0: seq<Limb>, i: nat, addend: nat)
    requires Carried(p, x0, i, 0, addend)
    ensures Val(p) == Val(x0) + addend
  {
    ValSplit(p, i);
    ValSplit(x0, i);
    assert p[i..] == x0[i..];
  }

  /** X = |A| + |B| */
  method AddAbs(X: Mpi, A: Mpi, B: Mpi)
    modifies X
    ensures X.s == 1 && X.Abs() == old(A.Abs() + B.Abs())
    ensures old(A.p != [] && B.p != []) ==> |X.p| >= old(|X.p|)
  {
    var a, b := A, B;
    if X == b { a, b := X, A; }
    if X != a { Copy(X, a); }
    X.s := 1;
    var j := CountSignificant(b);
    ValSignificant(b.p);
    Grow(X, j);
    AddLimbs(X, b, j);
  }

  /** The two loops of the addition. */
  method AddLimbs(X: Mpi, b: Mpi, j: nat)
    requires j == Significant(b.p) <= |X.p|
    modifies X
    ensures X.s == old(X.s) && |X.p| >= old(|X.p|)
    ensures X.Abs() == old(X.Abs() + b.Abs())
  {
    ghost var x0, b0 := X.p, b.p;
    ValTrim(b0, j);
    var i, c: Limb := 0, 0;
    while i < j
      invariant 0 <= i <= j <= |b0| && X.s == old(X.s)
      invariant |b.p| == |b0| && forall k :: i <= k < |b0| ==> b.p[k] == b0[k]
      invariant Carried(X.p, x0, i, c, Val(b0[..i])) && c <= 1
    {
      var tmp := b.p[i];
      var r, c' := AddWithCarry(X.p[i], tmp, c);
      CarriedStep(X.p, x0, i, c, Val(b0[..i]), tmp, r, c');
      ValSnoc(b0, i);
      X.p, c := X.p[i := r], c';
      i := i + 1;
    }
    PropagateCarry(X, j, c, x0, Val(b0));
  }

  /** The carry left over at limb `from`, pushed upwards; the buffer grows when the carry leaves it. */
  method PropagateCarry(X: Mpi, from: nat, carry: Limb, ghost x0: seq<Limb>, ghost addend: nat)
    requires Carried(X.p, x0, from, carry, addend) && carry <= 1
    modifies X
    ensures X.s == old(X.s) && X.Abs() == Val(x0) + addend
    ensures |X.p| >= old(|X.p|)
  {
    hide LimbPow;
    var i, c := from, carry;
    ghost var x1 := x0;
    while c != 0
      invariant 0 <= i && |x1| >= |x0| && Val(x1) == Val(x0) && X.s == old(X.s)
      invariant Carried(X.p, x1, i, c, addend) && c <= 1
      decreases c, |X.p| - i
    {
      if i >= |X.p| {
        ghost var p0 := X.p;
        Grow(X, i + 1);
        ValPad(x1, 1);
        assert X.p[..i] == p0[..i] && (x1 + Zeros(1))[..i] == x1[..i];
        x1 := x1 + Zeros(1);
      }
      var r, c' := AddWithCarry(X.p[i], 0, c);
      CarriedStep(X.p, x1, i, c, addend, 0, r, c');
      assert addend + 0 * LimbPow(i) == addend;
      X.p, c := X.p[i := r], c';
      i := i + 1;
    }
    CarriedDone(X.p, x1, i, addend);
  }

  /** The same for a borrow chain. */
  ghost predicate Borrowed(p: seq<Limb>, d0: seq<Limb>, i: nat, c: Limb, taken: nat) {
    && i <= |p| == |d0| && c <= 1
    && (forall k :: i <= k < |p| ==> p[k] == d0[k])
    && Val(d0[..i]) + c * LimbPow(i) == Val(p[..i]) + taken
  }

  lemma BorrowedStep(p: seq<Limb>, d0: seq<Limb>, i: nat, c: Limb, taken: nat, t: Limb, r: Limb, c': Limb)
    requires Borrowed(p, d0, i, c, taken) && i < |p|
    requires p[i] + c' * BASE == r + t + c && c' <= 1
    ensures Borrowed(p[i := r], d0, i + 1, c', taken + t * LimbPow(i))
  {
    var q := p[i := r];
    ValSnoc(q, i);
    ValSnoc(d0, i);
    assert q[..i] == p[..i];
    CarryStep(Val(p[..i]), taken, Val(d0[..i]), LimbPow(i), r, t, c, d0[i], c');
  }

  /** A borrow that is still pending has not reached the end of a vector that is large enough. */
  lemma BorrowInside(p: seq<Limb>, d0: seq<Limb>, i: nat, taken: nat)
    requires Borrowed(p, d0, i, 1, taken) && taken <= Val(d0)
    ensures i < |p|
  {
    if i == |p| {
      assert d0[..i] == d0;
      ValBound(p[..i]);
    }
  }

  lemma BorrowedDone(p: seq<Limb>, d0: seq<Limb>, i: nat, taken: nat)
    requires Borrowed(p, d0, i, 0, taken)
    ensures Val(p) == Val(d0) - taken
  {
    ValSplit(p, i);
    ValSplit(d0, i);
    assert p[i..] == d0[i..];
  }

  /** d - s over n limbs, then the borrow chased upwards. That it stops inside d rests on the value of d alone. */
  method SubHelper(n: nat, s: seq<Limb>, D: Mpi)
    requires n <= |s| && n <= |D.p| && Val(s[..n]) <= D.Abs()
    modifies D
    ensures D.s == old(D.s) && |D.p| == old(|D.p|)
    ensures D.Abs() == old(D.Abs()) - Val(s[..n])
  {
    hide LimbPow;
    ghost var d0 := D.p;
    var i, c: Limb := 0, 0;
    while i < n
      invariant 0 <= i <= n && D.s == old(D.s)
      invariant Borrowed(D.p, d0, i, c, Val(s[..i]))
    {
      var d, c' := SubWithBorrow(D.p[i], s[i], c);
      BorrowedStep(D.p, d0, i, c, Val(s[..i]), s[i], d, c');
      ValSnoc(s, i);
      D.p, c := D.p[i := d], c';
      i := i + 1;
    }
    while c != 0
      invariant n <= i && D.s == old(D.s)
      invariant Borrowed(D.p, d0, i, c, Val(s[..n]))
      decreases |D.p| - i
    {
      BorrowInside(D.p, d0, i, Val(s[..n]));
      var d, c' := SubWithBorrow(D.p[i], 0, c);
      BorrowedStep(D.p, d0, i, c, Val(s[..n]), 0, d, c');
      assert Val(s[..n]) + 0 * LimbPow(i) == Val(s[..n]);
      D.p, c := D.p[i := d], c';
      i := i + 1;
    }
    BorrowedDone(D.p, d0, i, Val(s[..n]));
  }

  lemma FewerLimbs(b: seq<Limb>, a: seq<Limb>)
    requires Val(b) <= Val(a)
    ensures Significant(b) <= |a| && Val(b[..Significant(b)]) == Val(b)
  {
    ValSignificant(b);
    if Significant(a) < Significant(b) { ValShorter(a, b); }
  }

  /** X = |A| - |B| */
  method SubAbs(X: Mpi, A: Mpi, B: Mpi) returns (ret: Status)
    modifies X
    ensures ret == if old(A.Abs() < B.Abs()) then NegativeValue else Ok
    ensures ret.NegativeValue? ==> unchanged(X)
    ensures ret.Ok? ==> X.s == 1 && X.Abs() == old(A.Abs() - B.Abs())
    ensures old(A.p != [] && B.p != []) ==> |X.p| >= old(|X.p|)
  {
    var order := CompareAbs(A, B);
    if order < 0 { return NegativeValue; }
    var b := B;
    if X == B {
      b := new Mpi();
      Copy(b, B);
    }
    if X != A { Copy(X, A); }
    X.s := 1;
    var n := CountSignificant(b);
    FewerLimbs(b.p, X.p);
    SubHelper(n, b.p, X);
    return Ok;
  }

  function FlipSign(s: Sign): Sign {
    if s == 1 then -1 else 1
  }

  /** X = A + B */
  method Add(X: Mpi, A: Mpi, B: Mpi)
    modifies X
    ensures X.Value() == old(A.Value() + B.Value())
    ensures old(A.s == B.s) ==> X.s == old(A.s)
    ensures old(A.p != [] && B.p != []) ==> |X.p| >= old(|X.p|)
  {
    var s := A.s;
    if A.s != B.s {
      var order := CompareAbs(A, B);
      if order >= 0 {
        var _ := SubAbs(X, A, B);
        X.s := s;
      } else {
        var _ := SubAbs(X, B, A);
        X.s := FlipSign(s);
      }
    } else {
      AddAbs(X, A, B);
      X.s := s;
    }
  }

  /** X = A - B */
  method Sub(X: Mpi, A: Mpi, B: Mpi)
    modifies X
    ensures X.Value() == old(A.Value() - B.Value())
    ensures old(A.s != B.s) ==> X.s == old(A.s)
    ensures old(A.p != [] && B.p != []) ==> |X.p| >= old(|X.p|)
  {
    var s := A.s;
    if A.s == B.s {
      var order := CompareAbs(A, B);
      if order >= 0 {
        var _ := SubAbs(X, A, B);
        X.s := s;
      } else {
        var _ := SubAbs(X, B, A);
        X.s := FlipSign(s);
      }
    } else {
      AddAbs(X, A, B);
      X.s := s;
    }
  }

  /** X = A + b */
  method AddInt(X: Mpi, A: Mpi, b: SignedLimb)
    modifies X
    ensures X.Value() == old(A.Value()) + b
    ensures b >= 0 && old(A.s) == 1 ==> X.s == 1
    ensures old(A.p) != [] ==> |X.p| >= old(|X.p|)
  {
    var B := FromInt(b);
    Add(X, A, B);
  }

  /** X = A - b */
  method SubInt(X: Mpi, A: Mpi, b: SignedLimb)
    modifies X
    ensures X.Value() == old(A.Value()) - b
    ensures b >= 0 && old(A.s) == -1 ==> X.s == -1
    ensures old(A.p) != [] ==> |X.p| >= old(|X.p|)
  {
    var B := FromInt(b);
    Sub(X, A, B);
  }
}
