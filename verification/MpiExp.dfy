/** Sliding-window exponentiation in Montgomery form. */
module MpiExp {
  import opened Arithmetic
  import opened Bits
  import opened Limbs
  import opened MpiCore
  import opened MpiAddSub
  import opened MpiShift
  import opened MpiDivide
  import opened MpiMontgomery
  import opened Gcds

  // ----- powers -----

  function Exp(a: int, e: nat): int {
    if e == 0 then 1 else a * Exp(a, e - 1)
  }

  lemma {:induction false} ExpAdd(a: int, e: nat, f: nat)
    ensures Exp(a, e + f) == Exp(a, e) * Exp(a, f)
  {
    if e > 0 {
      ExpAdd(a, e - 1, f);
      MulAssoc(a, Exp(a, e - 1), Exp(a, f));
    }
  }

  lemma {:induction false} ExpResidue(a: int, e: nat, n: int)
    requires n > 0
    ensures Exp(a, e) % n == Exp(a % n, e) % n
  {
    if e > 0 {
      ExpResidue(a, e - 1, n);
      ModProduct(a, Exp(a, e - 1), n);
      ModProduct(a % n, Exp(a % n, e - 1), n);
      DivUnique(a % n, n, 0, a % n);
    }
  }

  lemma {:induction false} ExpNegated(a: int, e: nat)
    ensures Exp(-a, e) == if e % 2 == 0 then Exp(a, e) else -Exp(a, e)
  {
    if e > 0 {
      ExpNegated(a, e - 1);
      NegateProduct(a, Exp(a, e - 1));
    }
  }

  lemma {:induction false} ExpNatural(a: nat, e: nat)
    ensures Exp(a, e) >= 0
  {
    if e > 0 {
      ExpNatural(a, e - 1);
      MulMono(a, 0, Exp(a, e - 1));
    }
  }

  // ----- cancelling a power of two modulo an odd number -----

  lemma CancelTwo(x: int, y: int, n: int)
    requires n > 0 && n % 2 == 1 && (2 * x) % n == (2 * y) % n
    ensures x % n == y % n
  {
    var k := (2 * x) / n - (2 * y) / n;
    assert 2 * (x - y) == k * n by { MulSub(n, (2 * x) / n, (2 * y) / n); }
    ModLeft(k, n, 2);
    var r := k % 2;
    assert r == 1 ==> r * n == n;
    assert k == 2 * (k / 2);
    MulAssoc(2, k / 2, n);
    AddMultiple(y, n, k / 2);
  }

  lemma {:induction false} CancelPow2(x: int, y: int, k: nat, n: int)
    requires n > 0 && n % 2 == 1 && (x * Pow2(k)) % n == (y * Pow2(k)) % n
    ensures x % n == y % n
  {
    if k == 0 {
      assert x * 1 == x && y * 1 == y;
    } else {
      var u, v := x * Pow2(k - 1), y * Pow2(k - 1);
      assert x * Pow2(k) == 2 * u && y * Pow2(k) == 2 * v;
      CancelTwo(u, v, n);
      CancelPow2(x, y, k - 1, n);
    }
  }

  // ----- powers of a in Montgomery form -----

  /** x is the residue below n that stands for a^e, scaled by w. */
  ghost predicate MontForm(x: int, a: int, e: nat, w: int, n: int) {
    n > 0 && 0 <= x < n && x % n == (Exp(a, e) * w) % n
  }

  /** The Montgomery product of a^e and a^f is a^(e+f). */
  lemma MontProduct(x: int, e: nat, y: int, f: nat, z: int, a: int, size: nat, n: int)
    requires MontForm(x, a, e, LimbPow(size), n) && MontForm(y, a, f, LimbPow(size), n) && n % 2 == 1
    requires 0 <= z < n && (z * LimbPow(size)) % n == (x * y) % n
    ensures MontForm(z, a, e + f, LimbPow(size), n)
  {
    var w := LimbPow(size);
    var p, q := Exp(a, e), Exp(a, f);
    ModProduct(x, y, n);
    ModProduct(p * w, q * w, n);
    ExpAdd(a, e, f);
    ProductOfScaled(p, q, w);
    LimbPowIsPow2(size);
    CancelPow2(z, Exp(a, e + f) * w, 64 * size, n);
  }

  lemma ProductOfScaled(p: int, q: int, w: int)
    ensures (p * w) * (q * w) == ((p * q) * w) * w
  {
    assert (p * w) * (q * w) == p * (w * (q * w));
    assert w * (q * w) == (q * w) * w;
    assert p * ((q * w) * w) == (p * (q * w)) * w;
    assert p * (q * w) == (p * q) * w;
  }

  /** Into Montgomery form, with rr == w*w modulo n. */
  lemma MontEnter(x: int, rr: int, z: int, a: int, e: nat, size: nat, n: int)
    requires n > 0 && n % 2 == 1 && x % n == Exp(a, e) % n && rr % n == (LimbPow(size) * LimbPow(size)) % n
    requires 0 <= z < n && (z * LimbPow(size)) % n == (x * rr) % n
    ensures MontForm(z, a, e, LimbPow(size), n)
  {
    var w, p := LimbPow(size), Exp(a, e);
    ModProduct(x, rr, n);
    ModProduct(p, w * w, n);
    MulAssoc(p, w, w);
    LimbPowIsPow2(size);
    CancelPow2(z, p * w, 64 * size, n);
  }

  /** Out of Montgomery form. */
  lemma MontLeave(x: int, z: int, a: int, e: nat, size: nat, n: int)
    requires MontForm(x, a, e, LimbPow(size), n) && n % 2 == 1
    requires 0 <= z < n && (z * LimbPow(size)) % n == (x * 1) % n
    ensures z == Exp(a, e) % n
  {
    LimbPowIsPow2(size);
    CancelPow2(z, Exp(a, e), 64 * size, n);
    DivUnique(z, n, 0, z);
  }

  // ----- the steps on Montgomery forms -----

  ghost predicate Ready(N: Mpi, T: Mpi, mm: Limb)
    reads N, T
  {
    && N != T && N.p != [] && N.Abs() % 2 == 1 && (N.p[0] * mm + 1) % BASE == 0
    && |T.p| >= 2 * (|N.p| + 1)
  }

  ghost predicate Holds(X: Mpi, a: int, e: nat, N: Mpi)
    reads X, N
  {
    |X.p| >= |N.p| + 1 && MontForm(X.Abs(), a, e, LimbPow(|N.p|), N.Abs())
  }

  /** A residue uses no limb above those of the modulus. */
  lemma ResidueLimbs(b: seq<Limb>, n: seq<Limb>)
    requires Val(b) < Val(n)
    ensures Val(b[..Shorter(|b|, |n|)]) == Val(b) < LimbPow(|n|)
  {
    ValBound(n);
    if |b| > |n| { ValHighZero(b, |n|); } else { assert b[..|b|] == b; }
  }

  /** X = X * W */
  method Times(X: Mpi, W: Mpi, N: Mpi, mm: Limb, T: Mpi, ghost a: int, ghost e: nat, ghost f: nat)
    requires Ready(N, T, mm) && X != T && X != N && W != T
    requires Holds(X, a, e, N) && Holds(W, a, f, N)
    modifies X, T
    ensures Ready(N, T, mm) && Holds(X, a, e + f, N) && X.s == old(X.s)
  {
    hide Val, LimbPow, Exp;
    ghost var x, y := X.Abs(), W.Abs();
    ResidueLimbs(X.p, N.p);
    ResidueLimbs(W.p, N.p);
    var ret := MontgomeryMul(X, W, N, mm, T);
    MontProduct(x, e, y, f, X.Abs(), a, |N.p|, N.Abs());
  }

  /** Square X the given number of times. */
  method Squarings(X: Mpi, count: nat, N: Mpi, mm: Limb, T: Mpi, ghost a: int, ghost e: nat)
    requires Ready(N, T, mm) && X != T && X != N && Holds(X, a, e, N)
    modifies X, T
    ensures Ready(N, T, mm) && Holds(X, a, e * Pow2(count), N) && X.s == old(X.s)
  {
    hide Holds, Ready;
    assert e * Pow2(0) == e;
    for i := 0 to count
      invariant Ready(N, T, mm) && Holds(X, a, e * Pow2(i), N) && X.s == old(X.s)
    {
      Times(X, X, N, mm, T, a, e * Pow2(i), e * Pow2(i));
      assert e * Pow2(i) + e * Pow2(i) == e * Pow2(i + 1);
    }
  }

  /** The window table: entry k stands for a^(first + k). */
  ghost predicate Table(table: seq<Mpi>, a: int, first: nat, N: Mpi)
    reads set k | 0 <= k < |table| :: table[k], N
  {
    forall k :: 0 <= k < |table| ==> Holds(table[k], a, first + k, N)
  }

  /** X = X^(2^wsize) * W[wbits] */
  method ApplyWindow(X: Mpi, table: seq<Mpi>, wsize: nat, wbits: nat, N: Mpi, mm: Limb, T: Mpi, ghost a: int, ghost e: nat)
    requires Ready(N, T, mm) && X != T && X != N && X !in table && T !in table
    requires wsize > 0 && Pow2(wsize - 1) <= wbits < Pow2(wsize) && |table| == Pow2(wsize - 1)
    requires Holds(X, a, e, N) && Table(table, a, Pow2(wsize - 1), N)
    modifies X, T
    ensures Ready(N, T, mm) && Holds(X, a, e * Pow2(wsize) + wbits, N) && X.s == old(X.s)
    ensures Table(table, a, Pow2(wsize - 1), N)
  {
    hide Holds, MontForm;
    Squarings(X, wsize, N, mm, T, a, e);
    Times(X, table[wbits - Pow2(wsize - 1)], N, mm, T, a, e * Pow2(wsize), wbits);
  }

  // ----- reading the exponent -----

  /** Limb i, bit j of the exponent extends the prefix above it. */
  lemma NextBit(p: seq<Limb>, i: nat, j: nat)
    requires i < |p| && j < 64
    ensures Val(p) / Pow2(64 * i + j) == 2 * (Val(p) / Pow2(64 * i + j + 1)) + (p[i] / Pow2(j)) % 2
  {
    var k := 64 * i + j;
    var q := Val(p) / Pow2(k);
    Pow2Add(k, 1);
    DivDiv(Val(p), Pow2(k), 2);
    assert Pow2(1) == 2 && Pow2(k + 1) == Pow2(k) * 2;
    LimbQuotient(p, i, j);
  }

  lemma LimbQuotient(p: seq<Limb>, i: nat, j: nat)
    requires i < |p| && j < 64
    ensures (Val(p) / Pow2(64 * i + j)) % 2 == (p[i] / Pow2(j)) % 2
  {
    hide Val;
    SuffixQuotient(p, i, j);
    ValHead(p, i);
    LimbSplitsAt(j);
    assert Pow2(64 - j) == 2 * Pow2(63 - j);
    LowBitOfQuotient(p[i], Val(p[i + 1..]), Pow2(j), Pow2(63 - j));
  }

  lemma SuffixQuotient(p: seq<Limb>, i: nat, j: nat)
    requires i < |p|
    ensures Val(p) / Pow2(64 * i + j) == Val(p[i..]) / Pow2(j)
  {
    hide Val;
    LimbPowIsPow2(i);
    Pow2Add(64 * i, j);
    DivDiv(Val(p), LimbPow(i), Pow2(j));
    ValSplit(p, i);
    ValBound(p[..i]);
    QuotientOfSum(Val(p[..i]), LimbPow(i), Val(p[i..]), Val(p));
  }

  lemma QuotientOfSum(low: nat, w: nat, high: nat, v: nat)
    requires v == low + w * high && low < w
    ensures v / w == high
  {
    assert w * high == high * w;
    DivUnique(v, w, high, low);
  }

  lemma LowBitOfQuotient(x: nat, v: nat, d: nat, h: nat)
    requires d > 0 && d * (2 * h) == BASE
    ensures ((x + BASE * v) / d) % 2 == (x / d) % 2
  {
    ShiftDownArith(x, v, d, 2 * h);
    EvenPart(v, d, h, x / d);
  }

  lemma EvenPart(v: nat, d: nat, h: nat, q: nat)
    requires d > 0 && d * (2 * h) == BASE
    ensures (BASE * (v / d) + (q + (v % d) * (2 * h))) % 2 == q % 2
  {
    assert (v % d) * (2 * h) == 2 * ((v % d) * h);
  }

  /** The pending window: v of nbits bits, kept left-aligned in wbits. */
  ghost predicate Pending(prefix: nat, e: nat, v: nat, nbits: nat, wbits: nat, wsize: nat, state: nat) {
    && nbits < wsize && prefix == e * Pow2(nbits) + v && v < Pow2(nbits)
    && wbits == v * Pow2(wsize - nbits)
    && state <= 2
    && (state == 0 ==> e == 0)
    && (state == 2 <==> nbits > 0)
    && (nbits > 0 ==> v >= Pow2(nbits - 1))
  }

  /** A bit joins the pending window. */
  lemma PushBit(prefix: nat, e: nat, v: nat, nbits: nat, wbits: nat, wsize: nat, state: nat, ei: nat)
    requires Pending(prefix, e, v, nbits, wbits, wsize, state) && ei <= 1 && (ei == 1 || state == 2)
    ensures BitOr(wbits, ei * Pow2(wsize - (nbits + 1))) == (2 * v + ei) * Pow2(wsize - (nbits + 1))
    ensures Pow2(nbits) <= 2 * v + ei < Pow2(nbits + 1)
    ensures 2 * prefix + ei == e * Pow2(nbits + 1) + (2 * v + ei)
  {
    PushedWindow(v, ei, wsize - (nbits + 1));
    DoublePower(e, nbits, 0);
    if nbits == 0 { NoBits(0, 0); } else { HalfPower(nbits); }
    HalfPower(nbits + 1);
  }

  lemma HalfPower(k: nat)
    requires k > 0
    ensures Pow2(k) == 2 * Pow2(k - 1)
  {
  }

  lemma PushedWindow(v: nat, ei: nat, k: nat)
    requires ei <= 1
    ensures BitOr(v * Pow2(k + 1), ei * Pow2(k)) == (2 * v + ei) * Pow2(k)
  {
    var w := Pow2(k);
    PushArith(v, ei, w);
    HalfPower(k + 1);
    BitOrDisjoint(v, ei * w, k + 1);
  }

  lemma PushArith(v: nat, ei: nat, w: nat)
    requires ei <= 1 && w > 0
    ensures v * (2 * w) + ei * w == (2 * v + ei) * w && ei * w < 2 * w
  {
    MulMonoLeft(w, ei, 1);
  }

  /** One exponent bit: skipped, squared in, or taken into the window; a full window is multiplied in. */
  method ConsumeBit(X: Mpi, ei: nat, N: Mpi, mm: Limb, T: Mpi, table: seq<Mpi>, wsize: nat,
                    nbits: nat, wbits: nat, state: nat, ghost a: int, ghost prefix: nat, ghost e: nat, ghost v: nat)
    returns (nbits': nat, wbits': nat, state': nat, ghost e': nat, ghost v': nat)
    requires Ready(N, T, mm) && X != T && X != N && X !in table && T !in table
    requires wsize > 0 && |table| == Pow2(wsize - 1) && Table(table, a, Pow2(wsize - 1), N)
    requires Pending(prefix, e, v, nbits, wbits, wsize, state) && ei <= 1 && Holds(X, a, e, N)
    modifies X, T
    ensures Ready(N, T, mm) && Table(table, a, Pow2(wsize - 1), N) && X.s == old(X.s)
    ensures Pending(2 * prefix + ei, e', v', nbits', wbits', wsize, state') && Holds(X, a, e', N)
  {
    hide Holds, MontForm, Pow2;
    nbits', wbits', state', e', v' := nbits, wbits, state, e, v;
    NoBits(e, wsize);
    if ei == 0 && state == 0 { return; }
    if ei == 0 && state == 1 {
      Squarings(X, 1, N, mm, T, a, e);
      e' := e * Pow2(1);
      NoBits(e', wsize);
      return;
    }
    state' := 2;
    nbits' := nbits + 1;
    PushBit(prefix, e, v, nbits, wbits, wsize, state, ei);
    wbits' := BitOr(wbits, ei * Pow2(wsize - nbits'));
    v' := 2 * v + ei;
    if nbits' == wsize {
      assert wbits' == v' by { NoBits(v', wsize); }
      ApplyWindow(X, table, wsize, wbits', N, mm, T, a, e);
      e', v' := e * Pow2(wsize) + wbits', 0;
      state' := 1;
      nbits', wbits' := 0, 0;
      NoBits(e', wsize);
    }
  }

  lemma NoBits(e: nat, wsize: nat)
    ensures e * Pow2(0) == e && 0 * Pow2(wsize) == 0 && Pow2(0) == 1 && Pow2(1) == 2
  {
  }

  /** The main loop over the exponent bits, most significant first. */
  method Windows(X: Mpi, E: Mpi, N: Mpi, mm: Limb, T: Mpi, table: seq<Mpi>, wsize: nat, ghost a: int)
    returns (nbits: nat, wbits: nat, ghost e: nat, ghost v: nat)
    requires Ready(N, T, mm) && X != T && X != N && X !in table && T !in table && X != E && T != E
    requires wsize > 0 && |table| == Pow2(wsize - 1) && Table(table, a, Pow2(wsize - 1), N)
    requires Holds(X, a, 0, N)
    modifies X, T
    ensures Ready(N, T, mm) && Table(table, a, Pow2(wsize - 1), N) && X.s == old(X.s)
    ensures nbits < wsize && E.Abs() == e * Pow2(nbits) + v && v < Pow2(nbits) && wbits == v * Pow2(wsize - nbits)
    ensures Holds(X, a, e, N)
  {
    hide Holds, Ready, Table, Pow2, Val;
    var nblimbs, bufsize, state := |E.p|, 0, 0;
    nbits, wbits, e, v := 0, 0, 0, 0;
    NoBits(0, wsize);
    NoPrefix(E.p);
    while true
      invariant 0 <= nblimbs <= |E.p| && 0 <= bufsize < 64 && (bufsize > 0 ==> nblimbs < |E.p|)
      invariant E.p == old(E.p)
      invariant Ready(N, T, mm) && Table(table, a, Pow2(wsize - 1), N) && X.s == old(X.s)
      invariant Pending(E.Abs() / Pow2(64 * nblimbs + bufsize), e, v, nbits, wbits, wsize, state)
      invariant Holds(X, a, e, N)
      decreases 64 * nblimbs + bufsize
    {
      if bufsize == 0 {
        if nblimbs == 0 { break; }
        nblimbs := nblimbs - 1;
        bufsize := 64;
      }
      bufsize := bufsize - 1;
      var ei := (E.p[nblimbs] / Pow2(bufsize)) % 2;
      NextBit(E.p, nblimbs, bufsize);
      ghost var prefix := E.Abs() / Pow2(64 * nblimbs + bufsize + 1);
      assert E.Abs() / Pow2(64 * nblimbs + bufsize) == 2 * prefix + ei;
      nbits, wbits, state, e, v := ConsumeBit(X, ei, N, mm, T, table, wsize, nbits, wbits, state, a, prefix, e, v);
    }
    NoBits(E.Abs(), wsize);
  }

  lemma NoPrefix(p: seq<Limb>)
    ensures Val(p) / Pow2(64 * |p|) == 0
  {
    ValBound(p);
    LimbPowIsPow2(|p|);
    DivUnique(Val(p), Pow2(64 * |p|), 0, Val(p));
  }

  /** The next bit of the window, seen at position wsize after the shift. */
  /** Bit k of x. */
  function BitAt(x: nat, k: nat): nat {
    (x / Pow2(k)) % 2
  }

  lemma ShiftedBit(v: nat, nbits: nat, i: nat, wsize: nat)
    requires i < nbits < wsize && v < Pow2(nbits)
    ensures BitAt(v * Pow2(wsize - nbits) * Pow2(i + 1), wsize) == (v / Pow2(nbits - i - 1)) % 2
    ensures v / Pow2(nbits - i - 1) == 2 * (v / Pow2(nbits - i)) + (v / Pow2(nbits - i - 1)) % 2
  {
    hide Pow2;
    var k := nbits - i - 1;
    Pow2Add(wsize - nbits, i + 1);
    MulAssoc(v, Pow2(wsize - nbits), Pow2(i + 1));
    Pow2Add(k, wsize - k);
    ScaledDivision(v, Pow2(k), Pow2(wsize - k));
    NoBits(0, 0);
    DivDiv(v, Pow2(k), 2);
    HalfPower(k + 1);
  }

  /** The exponent once i of the n bits of v have been consumed behind e. */
  function Consumed(e: nat, v: nat, n: nat, i: nat): nat
    requires i <= n
  {
    QuotientNatural(v, Pow2(n - i));
    e * Pow2(i) + v / Pow2(n - i)
  }

  lemma QuotientNatural(v: nat, w: nat)
    requires w > 0
    ensures v / w >= 0
  {
    var q, r := DivMod(v, w);
  }

  lemma ConsumedEnds(e: nat, v: nat, n: nat)
    requires v < Pow2(n)
    ensures Consumed(e, v, n, 0) == e && Consumed(e, v, n, n) == e * Pow2(n) + v
  {
    hide Pow2;
    DivUnique(v, Pow2(n), 0, v);
    NoBits(e, 0);
    NoBits(v, 0);
  }

  lemma ConsumedStep(e: nat, v: nat, n: nat, i: nat, wsize: nat, window: nat)
    requires i < n < wsize && v < Pow2(n) && window == v * Pow2(wsize - n)
    ensures window * Pow2(i) * 2 == window * Pow2(i + 1)
    ensures Consumed(e, v, n, i + 1) == 2 * Consumed(e, v, n, i) + BitAt(window * Pow2(i + 1), wsize)
  {
    hide Pow2;
    ShiftedBit(v, n, i, wsize);
    DoublePower(e, i, window);
  }

  /** The bits left in the last, incomplete window, one squaring and at most one product each. */
  method RemainingBits(X: Mpi, W1: Mpi, N: Mpi, mm: Limb, T: Mpi, wsize: nat, nbits: nat, window: nat,
                       ghost a: int, ghost e: nat, ghost v: nat)
    requires Ready(N, T, mm) && X != T && X != N && X != W1 && T != W1 && Holds(W1, a, 1, N) && Holds(X, a, e, N)
    requires nbits < wsize && v < Pow2(nbits) && window == v * Pow2(wsize - nbits)
    modifies X, T
    ensures Ready(N, T, mm) && Holds(X, a, e * Pow2(nbits) + v, N) && X.s == old(X.s)
  {
    hide Holds, MontForm, Pow2, BitAt, Consumed;
    var i, wbits := 0, window;
    ConsumedEnds(e, v, nbits);
    NoBits(window, wsize);
    while i < nbits
      invariant 0 <= i <= nbits && wbits == window * Pow2(i) && X.s == old(X.s)
      invariant Ready(N, T, mm) && Holds(W1, a, 1, N)
      invariant Holds(X, a, Consumed(e, v, nbits, i), N)
    {
      ghost var f := Consumed(e, v, nbits, i);
      Squarings(X, 1, N, mm, T, a, f);
      NoBits(f, wsize);
      ConsumedStep(e, v, nbits, i, wsize, window);
      BitValue(wbits * 2, wsize);
      wbits := wbits * 2;
      if BitAt(wbits, wsize) != 0 {
        Times(X, W1, N, mm, T, a, f * 2, 1);
      }
      i := i + 1;
    }
  }

  lemma BitValue(x: nat, k: nat)
    ensures 0 <= BitAt(x, k) <= 1
  {
  }

  lemma DoublePower(e: nat, i: nat, window: nat)
    ensures 2 * (e * Pow2(i)) == e * Pow2(i + 1) && (window * Pow2(i)) * 2 == window * Pow2(i + 1)
  {
  }

  /** W[2^(wsize-1)] by squaring W[1], every later entry from the one before. */
  method BuildTable(W1: Mpi, wsize: nat, N: Mpi, mm: Limb, T: Mpi, ghost a: int) returns (table: seq<Mpi>)
    requires wsize > 0 && Ready(N, T, mm) && W1 != T && W1 != N && Holds(W1, a, 1, N)
    modifies T
    ensures Ready(N, T, mm) && Holds(W1, a, 1, N)
    ensures |table| == Pow2(wsize - 1) && Table(table, a, Pow2(wsize - 1), N)
    ensures forall k :: 0 <= k < |table| ==> table[k] == W1 || fresh(table[k])
  {
    hide Holds, MontForm, Pow2;
    NoBits(1, wsize);
    if wsize == 1 { return [W1]; }
    var j := Pow2(wsize - 1);
    var Wj := CopyPower(W1, N, a, 1);
    Squarings(Wj, wsize - 1, N, mm, T, a, 1);
    table := [Wj];
    assert 1 * j == j;
    var i := j + 1;
    HalfPower(wsize);
    while i < 2 * j
      invariant j < i <= 2 * j && |table| == i - j
      invariant Ready(N, T, mm) && Holds(W1, a, 1, N) && Table(table, a, j, N)
      invariant forall k :: 0 <= k < |table| ==> fresh(table[k]) && table[k] != T && table[k] != N
    {
      var Wi := CopyPower(table[i - 1 - j], N, a, i - 1);
      Times(Wi, W1, N, mm, T, a, i - 1, 1);
      table := table + [Wi];
      i := i + 1;
    }
  }

  method CopyPower(W: Mpi, N: Mpi, ghost a: int, ghost e: nat) returns (C: Mpi)
    requires Holds(W, a, e, N)
    ensures fresh(C) && Holds(C, a, e, N)
  {
    hide Val, MontForm;
    C := new Mpi();
    Grow(C, |N.p| + 1);
    Copy(C, W);
  }

  /** R^2 mod N */
  method SquaredRadix(N: Mpi) returns (RR: Mpi)
    requires N.Value() > 0
    ensures fresh(RR) && RR.s == 1 && RR.p != [] && RR.Value() == (LimbPow(|N.p|) * LimbPow(|N.p|)) % N.Value()
  {
    hide Val, Pow2;
    RR := new Mpi();
    SetInt(RR, 1);
    ShiftLeft(RR, |N.p| * 2 * 64);
    LimbPowIsPow2(|N.p|);
    Pow2Add(64 * |N.p|, 64 * |N.p|);
    assert 1 * Pow2(|N.p| * 2 * 64) == Pow2(|N.p| * 2 * 64);
    var ret := Mod(RR, RR, N);
  }

  /** W[1] = A and X = 1, both in Montgomery form. */
  method EnterForm(X: Mpi, W1: Mpi, A: Mpi, RR: Mpi, N: Mpi, mm: Limb, T: Mpi)
    requires Ready(N, T, mm) && N.Value() > 0 && A.p != [] && A.s == 1
    requires X !in {T, N, RR, W1} && W1 !in {T, N, RR, A} && RR !in {T, N} && A != T
    requires RR.s == 1 && RR.p != [] && RR.Value() == (LimbPow(|N.p|) * LimbPow(|N.p|)) % N.Value()
    requires |X.p| >= |N.p| + 1 && |W1.p| >= |N.p| + 1
    modifies X, W1, T
    ensures Ready(N, T, mm) && Holds(W1, old(A.Value()), 1, N) && Holds(X, old(A.Value()), 0, N) && X.s == 1
  {
    hide Val, LimbPow;
    ghost var a, n, w := A.Value(), N.Value(), LimbPow(|N.p|);
    assert Exp(a, 1) == a * Exp(a, 0) == a;
    DivUnique(RR.Value(), n, 0, RR.Value());
    var order := Compare(A, N);
    if order >= 0 {
      var ret := Mod(W1, A, N);
      DivUnique(a % n, n, 0, a % n);
    } else {
      Copy(W1, A);
    }
    ghost var x := W1.Abs();
    assert 0 <= x < n && x % n == a % n;
    ResidueLimbs(W1.p, N.p);
    ResidueLimbs(RR.p, N.p);
    var ret := MontgomeryMul(W1, RR, N, mm, T);
    MontEnter(x, RR.Abs(), W1.Abs(), a, 1, |N.p|, n);
    Copy(X, RR);
    Reduce1(X, N, mm, T);
    MontEnter(1, RR.Abs(), X.Abs(), a, 0, |N.p|, n);
  }

  /** A = A * R^-1 mod N */
  method Reduce1(X: Mpi, N: Mpi, mm: Limb, T: Mpi)
    requires Ready(N, T, mm) && X != T && X != N && |X.p| >= |N.p| + 1 && X.Abs() < N.Abs()
    modifies X, T
    ensures Ready(N, T, mm) && |X.p| == old(|X.p|) && X.s == old(X.s)
    ensures X.Abs() < N.Abs() && (X.Abs() * LimbPow(|N.p|)) % N.Abs() == old(X.Abs()) % N.Abs()
  {
    hide LimbPow;
    var U := new Mpi();
    U.p := [1];
    assert Val(U.p) == 1 + BASE * Val(U.p[1..]);
    assert U.p[..1] == U.p;
    ResidueLimbs(X.p, N.p);
    ghost var x := X.Abs();
    assert x * 1 == x;
    var ret := MontgomeryMul(X, U, N, mm, T);
  }

  /** `wsize` from the bit length of the exponent, capped by the configured maximum. */
  function WindowSize(bits: nat, maximum: nat): (w: nat)
    requires maximum >= 1
    ensures 1 <= w <= maximum
  {
    var w := if bits > 671 then 6 else if bits > 239 then 5 else if bits > 79 then 4 else if bits > 23 then 3 else 1;
    if w > maximum then maximum else w
  }

  /** The residue that the code returns for the residue r of |A|^E. */
  function FinalResidue(r: int, n: int, negative: bool, e: nat): int {
    if negative && e % 2 == 1 then n - r else r
  }

  /** X = |A|^E mod N, in [0, N), with the window table and R^2 mod N given. */
  method PowerOfAbs(X: Mpi, A: Mpi, E: Mpi, N: Mpi, RR: Mpi, mm: Limb, T: Mpi, wsize: nat)
    requires Ready(N, T, mm) && N.Value() > 0 && A.p != [] && A.s == 1 && wsize > 0
    requires X !in {T, N, RR, E} && RR !in {T, N} && A != T && E != T
    requires RR.s == 1 && RR.p != [] && RR.Value() == (LimbPow(|N.p|) * LimbPow(|N.p|)) % N.Value()
    requires |X.p| >= |N.p| + 1
    modifies X, T
    ensures X.s == 1 && X.Value() == Exp(old(A.Value()), E.Abs()) % N.Value()
  {
    hide Holds, MontForm, Val, LimbPow, Pow2, Exp;
    ghost var a := A.Value();
    var W1 := new Mpi();
    Grow(W1, |N.p| + 1);
    EnterForm(X, W1, A, RR, N, mm, T);
    var table := BuildTable(W1, wsize, N, mm, T, a);
    var nbits, wbits, e, v := Windows(X, E, N, mm, T, table, wsize, a);
    RemainingBits(X, W1, N, mm, T, wsize, nbits, wbits, a, e, v);
    ghost var x := X.Abs();
    LeaveForm(X, N, mm, T, a, E.Abs());
  }

  method LeaveForm(X: Mpi, N: Mpi, mm: Limb, T: Mpi, ghost a: int, ghost e: nat)
    requires Ready(N, T, mm) && X != T && X != N && Holds(X, a, e, N)
    modifies X, T
    ensures X.s == old(X.s) && X.Abs() == Exp(a, e) % N.Abs()
  {
    hide Val, LimbPow, Exp;
    ghost var x := X.Abs();
    Reduce1(X, N, mm, T);
    assert x * 1 == x;
    MontLeave(x, X.Abs(), a, e, |N.p|, N.Abs());
  }

  /** X = A^E mod N. `cache` is the optional speed-up argument: empty on the first call, R^2 mod N afterwards. */
  method ExpMod(X: Mpi, A: Mpi, E: Mpi, N: Mpi, cache: Mpi?, maxWindow: nat) returns (ret: Status)
    requires X != N && X != E && A.p != [] && 1 <= maxWindow <= 6
    requires cache != null ==> cache !in {X, A, E, N}
    requires cache != null && cache.p != [] && N.Value() > 0 ==>
      cache.s == 1 && cache.Value() == (LimbPow(|N.p|) * LimbPow(|N.p|)) % N.Value()
    modifies X, cache
    ensures ret == if N.Value() <= 0 || N.Value() % 2 == 0 || E.Value() < 0 then BadInputData else Ok
    ensures !ret.Ok? ==> unchanged(X)
    ensures ret.Ok? ==>
      X.Value() == FinalResidue(Exp(old(A.Abs()), E.Abs()) % N.Value(), N.Value(), old(A.s) == -1, E.Abs())
    ensures ret.Ok? ==>
      (X.Value() == Exp(old(A.Value()), E.Abs()) % N.Value() <==>
       !(old(A.s) == -1 && E.Abs() % 2 == 1 && DividesPower(N.Value(), old(A.Abs()), E.Abs())))
    ensures ret.Ok? && (old(A.s) == 1 || E.Abs() % 2 == 0 || (N.Value() > 1 && Gcd(N.Value(), old(A.Abs())) == 1)) ==>
      X.Value() == Exp(old(A.Value()), E.Abs()) % N.Value()
    ensures ret.Ok? && cache != null ==> cache.Value() == (LimbPow(|N.p|) * LimbPow(|N.p|)) % N.Value()
  {
    hide Val, LimbPow, Pow2, Exp, DividesPower, Gcd;
    ghost var neg, a := A.s == -1, A.Value();
    var order := CompareInt(N, 0);
    if order <= 0 { return BadInputData; }
    NonEmpty(N.p);
    ParityOfLimbs(N.p);
    if N.p[0] % 2 == 0 { return BadInputData; }
    order := CompareInt(E, 0);
    if order < 0 { return BadInputData; }
    ExpModOdd(X, A, E, N, cache, maxWindow);
    ExpModExact(neg, a, E.Abs(), N.Value());
    if !neg || E.Abs() % 2 == 0 || (N.Value() > 1 && Gcd(N.Value(), AbsInt(a)) == 1) {
      ExpModRight(neg, a, E.Abs(), N.Value());
    }
    return Ok;
  }

  /** The computation after the argument checks. */
  method ExpModOdd(X: Mpi, A: Mpi, E: Mpi, N: Mpi, cache: Mpi?, maxWindow: nat)
    requires N.Value() > 0 && N.p != [] && N.p[0] % 2 == 1 && N.Abs() % 2 == 1
    requires X != N && X != E && A.p != [] && 1 <= maxWindow <= 6
    requires cache != null ==> cache !in {X, A, E, N}
    requires cache != null && cache.p != [] ==>
      cache.s == 1 && cache.Value() == (LimbPow(|N.p|) * LimbPow(|N.p|)) % N.Value()
    modifies X, cache
    ensures X.Value() == FinalResidue(Exp(old(A.Abs()), E.Abs()) % N.Value(), N.Value(), old(A.s) == -1, E.Abs())
    ensures cache != null ==> cache.Value() == (LimbPow(|N.p|) * LimbPow(|N.p|)) % N.Value()
  {
    hide Val, LimbPow, Exp;
    var mm := MontgomeryInit(N.p[0]);
    var bits := BitLength(E);
    var wsize := WindowSize(bits, maxWindow);
    var T := new Mpi();
    Grow(X, |N.p| + 1);
    Grow(T, (|N.p| + 1) * 2);
    var neg := A.s == -1;
    var base := A;
    if neg {
      base := new Mpi();
      Copy(base, A);
      base.s := 1;
    }
    var RR := RadixFor(cache, N);
    PowerOfAbs(X, base, E, N, RR, mm, T, wsize);
    RestoreSign(X, E, N, neg);
  }

  /** The correction for a negative base. */
  method RestoreSign(X: Mpi, E: Mpi, N: Mpi, neg: bool)
    requires X != E && X != N && X.s == 1
    modifies X
    ensures X.Value() == FinalResidue(old(X.Value()), N.Value(), neg, E.Abs())
  {
    hide Val;
    if E.p != [] { ParityOfLimbs(E.p); } else { EmptyIsZero(); }
    if neg && |E.p| != 0 && E.p[0] % 2 != 0 {
      X.s := -1;
      Add(X, N, X);
    }
  }

  /** R^2 mod N, computed unless the cache already holds it. */
  method RadixFor(cache: Mpi?, N: Mpi) returns (RR: Mpi)
    requires N.Value() > 0 && cache != N
    requires cache != null && cache.p != [] ==>
      cache.s == 1 && cache.Value() == (LimbPow(|N.p|) * LimbPow(|N.p|)) % N.Value()
    modifies cache
    ensures fresh(RR) && RR.s == 1 && RR.p != [] && RR.Value() == (LimbPow(|N.p|) * LimbPow(|N.p|)) % N.Value()
    ensures cache != null ==> cache.Value() == RR.Value()
  {
    hide Val, LimbPow;
    if cache == null || cache.p == [] {
      RR := SquaredRadix(N);
      if cache != null { cache.s, cache.p := RR.s, RR.p; }
    } else {
      RR := new Mpi();
      RR.s, RR.p := cache.s, cache.p;
    }
  }

  lemma NonEmpty(p: seq<Limb>)
    requires Val(p) > 0
    ensures p != []
  {
  }

  /** When the returned number is A^E mod N: always, except for a sign flag that is set, odd E and N dividing |A|^E,
      where it is N itself. The flag may be set on a zero. */
  lemma ExpModExact(neg: bool, a: int, e: nat, n: int)
    requires n > 0 && (if neg then a <= 0 else a >= 0)
    ensures FinalResidue(Exp(AbsInt(a), e) % n, n, neg, e) == Exp(a, e) % n
       <==> !(neg && e % 2 == 1 && DividesPower(n, AbsInt(a), e))
    ensures neg && e % 2 == 1 && DividesPower(n, AbsInt(a), e) ==>
      FinalResidue(Exp(AbsInt(a), e) % n, n, neg, e) == n && Exp(a, e) % n == 0
  {
    PowerMultiple(n, AbsInt(a), e);
    hide DividesPower;
    if neg {
      ExpNegated(-a, e);
      ExpNatural(-a, e);
      NegatedRem(Exp(-a, e), n);
    }
  }

  /** What a caller can check first: a sign flag that is not set, an even exponent, or a base coprime to N. */
  lemma ExpModRight(neg: bool, a: int, e: nat, n: int)
    requires n > 0 && (if neg then a <= 0 else a >= 0)
    requires !neg || e % 2 == 0 || (n > 1 && Gcd(n, AbsInt(a)) == 1)
    ensures FinalResidue(Exp(AbsInt(a), e) % n, n, neg, e) == Exp(a, e) % n
  {
    hide Exp, Gcd, DividesPower;
    ExpModExact(neg, a, e, n);
    if n > 1 && Gcd(n, AbsInt(a)) == 1 { CoprimePower(n, AbsInt(a), e); }
  }

  /** (-3)^3 modulo 9 is 0, the code gives 9; and a zero whose sign flag is set gives N for an odd exponent. */
  lemma ExpModFails()
    ensures FinalResidue(Exp(AbsInt(-3), 3) % 9, 9, true, 3) == 9 && Exp(-3, 3) % 9 == 0
    ensures FinalResidue(Exp(AbsInt(0), 1) % 3, 3, true, 1) == 3 && Exp(0, 1) % 3 == 0
  {
    assert Exp(3, 3) == 27 && Exp(-3, 3) == -27 && Exp(0, 1) == 0;
  }

  // ----- when n divides a power of a -----

  /** n without what it shares with a. */
  function Unshared(n: nat, a: nat): (m: nat)
    requires n > 0
    ensures m > 0 && Gcd(n, a) > 0 && n == m * Gcd(n, a)
  {
    UnsharedFacts(n, a);
    n / Gcd(n, a)
  }

  lemma UnsharedFacts(n: nat, a: nat)
    requires n > 0
    ensures Gcd(n, a) > 0 && n / Gcd(n, a) > 0 && n == (n / Gcd(n, a)) * Gcd(n, a)
  {
    hide Gcd;
    GcdPositive(n, a);
    DvTimes(Gcd(n, a), 1);
    GcdDivisors(n, a, Gcd(n, a));
    var k := DvFactor(Gcd(n, a), n);
    DivUnique(n, Gcd(n, a), k, 0);
  }

  /** n divides a^e: e times, what it shares with a is divided out, and nothing is left. */
  predicate DividesPower(n: nat, a: nat, e: nat)
    requires n > 0
    decreases e
  {
    if e == 0 then n == 1 else DividesPower(Unshared(n, a), a, e - 1)
  }

  lemma {:induction false} PowerMultiple(n: nat, a: nat, e: nat)
    requires n > 0
    ensures DividesPower(n, a, e) <==> Exp(a, e) % n == 0
    decreases e
  {
    if e == 0 {
      if n > 1 { DivUnique(1, n, 0, 1); }
    } else {
      hide Gcd, Unshared;
      var m := Unshared(n, a);
      PowerMultiple(m, a, e - 1);
      ExpNatural(a, e - 1);
      assert Exp(a, e) == a * Exp(a, e - 1);
      hide Exp;
      OneFactor(n, a, m, Exp(a, e - 1));
    }
  }

  /** One factor a settles what n shares with it. */
  lemma OneFactor(n: nat, a: nat, m: nat, p: nat)
    requires n > 0 && m > 0 && n == m * Gcd(n, a)
    ensures (a * p) % n == 0 <==> p % m == 0
  {
    hide Gcd;
    var g := Gcd(n, a);
    UnsharedFacts(n, a);
    DvTimes(g, 1);
    GcdDivisors(n, a, g);
    var b := DvFactor(g, a);
    GcdScale(m, b, g);
    UnitQuotient(Gcd(m, b), g);
    CancelCoprime(m, b, p);
    MoveFactor(b, g, p);
    MulMono(b, 0, p);
    ScaledDivision(b * p, m, g);
    NonzeroTimes((b * p) % m, g);
  }

  lemma UnitQuotient(k: nat, g: nat)
    requires k * g == g > 0
    ensures k == 1
  {
    if k > 1 { MulMonoLeft(g, 2, k); }
  }

  lemma MoveFactor(b: nat, g: nat, p: nat)
    ensures (b * g) * p == (b * p) * g
  {
    MulAssoc(b, g, p);
    MulAssoc(b, p, g);
    assert g * p == p * g;
  }

  lemma NonzeroTimes(x: nat, g: nat)
    requires g > 0
    ensures x * g == 0 <==> x == 0
  {
    if x > 0 { MulMonoLeft(g, 1, x); }
  }

  /** A factor coprime to m does not help m to divide. */
  lemma CancelCoprime(m: nat, b: nat, p: nat)
    requires m > 0 && Gcd(m, b) == 1
    ensures (b * p) % m == 0 <==> p % m == 0
  {
    hide Gcd;
    var u, v := Bezout(m, b);
    Combined(u, m, v, b, p);
    AddMultiple((b * p) * v, m, u * p);
    MultipleOfMultiple(b * p, v, m);
    Commute(b, p);
    MultipleOfMultiple(p, b, m);
  }

  lemma Commute(x: int, y: int)
    ensures x * y == y * x
  {
  }

  lemma MultipleOfMultiple(x: int, y: int, m: int)
    requires m > 0
    ensures x % m == 0 ==> (x * y) % m == 0
  {
    ModLeft(x, y, m);
    DivUnique(0, m, 0, 0);
    if x % m == 0 { assert (x % m) * y == 0; }
  }

  lemma Combined(u: int, m: int, v: int, b: int, p: int)
    requires u * m + v * b == 1
    ensures (b * p) * v + (u * p) * m == p
  {
    Commute(b * p, v);
    MulAssoc(v, b, p);
    MulAssoc(u, p, m);
    MulAssoc(u, m, p);
    assert p * m == m * p;
    assert (u * m + v * b) * p == (u * m) * p + (v * b) * p;
  }

  /** The greatest common divisor as a combination of the two numbers. */
  lemma {:induction false} Bezout(x: nat, y: nat) returns (u: int, v: int)
    ensures u * x + v * y == Gcd(x, y)
    decreases y
  {
    if y == 0 {
      u, v := 1, 0;
    } else {
      var q, r := DivMod(x, y);
      var u1, v1 := Bezout(y, r);
      u, v := v1, u1 - v1 * q;
      BackStep(u1, v1, q, r, x, y);
    }
  }

  lemma BackStep(u: int, v: int, q: int, r: int, x: int, y: int)
    requires x == q * y + r
    ensures v * x + (u - v * q) * y == u * y + v * r
  {
    MulSub(y, u, v * q);
    MulAssoc(v, q, y);
    assert v * (q * y + r) == v * (q * y) + v * r;
  }

  /** Nothing is ever divided out for a number coprime to n > 1. */
  lemma {:induction false} CoprimePower(n: nat, a: nat, e: nat)
    requires n > 1 && Gcd(n, a) == 1
    ensures !DividesPower(n, a, e)
    decreases e
  {
    if e > 0 {
      hide Gcd;
      assert Unshared(n, a) * 1 == n;
      CoprimePower(n, a, e - 1);
    }
  }
}
