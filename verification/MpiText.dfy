/** Text and binary import and export. */
module MpiText {
  import opened Arithmetic
  import opened Bytes
  import opened Bits
  import opened Limbs
  import opened MpiCore
  import opened MpiShift
  import opened LimbDivide
  import opened MpiExp

  // ----- packing digits of u bits into limbs -----

  /** Put a digit into its place in its limb, above everything already packed. */
  method PackDigit(X: Mpi, pos: nat, d: Limb, u: nat)
    requires (u == 4 || u == 8) && pos % u == 0 && d < Pow2(u) && pos / 64 < |X.p| && X.Abs() < Pow2(pos)
    modifies X
    ensures X.s == old(X.s) && |X.p| == old(|X.p|) && X.Abs() == old(X.Abs()) + d * Pow2(pos)
  {
    hide Val, Pow2, LimbPow;
    var i, t := pos / 64, pos % 64;
    PlaceInLimb(pos, u);
    ghost var p0, low := X.p, X.p[i];
    LimbBelow(p0, i, t);
    DigitFits(d, u, t);
    var packed := OrDigit(X.p[i], d, t);
    X.p := X.p[i := packed];
    ValUpdate(p0, i, packed);
    PackedWeight(packed - low, d, t, i);
  }

  lemma PlaceInLimb(pos: nat, u: nat)
    requires (u == 4 || u == 8) && pos % u == 0
    ensures pos == 64 * (pos / 64) + pos % 64 && pos % 64 % u == 0
  {
    if u == 4 { assert pos % 64 % 4 == 0; } else { assert pos % 64 % 8 == 0; }
  }

  method OrDigit(x: Limb, d: Limb, t: nat) returns (y: Limb)
    requires x < Pow2(t) && d * Pow2(t) + Pow2(t) <= BASE
    ensures y == x + d * Pow2(t)
  {
    hide BitOr;
    ModSmall(d * Pow2(t));
    BitOrDisjoint(d, x, t);
    y := BitOr(x, (d * Pow2(t)) % BASE);
  }

  lemma PackedWeight(x: nat, d: nat, t: nat, i: nat)
    requires x == d * Pow2(t)
    ensures x * LimbPow(i) == d * Pow2(64 * i + t)
  {
    LimbPowIsPow2(i);
    Pow2Add(t, 64 * i);
    MulAssoc(d, Pow2(t), LimbPow(i));
  }

  lemma DigitFits(d: Limb, u: nat, t: nat)
    requires (u == 4 || u == 8) && t % u == 0 && t < 64 && d < Pow2(u)
    ensures d * Pow2(t) + Pow2(t) <= BASE
  {
    hide Pow2;
    Pow2Add(u, t);
    ScaledBelow(d, Pow2(u), Pow2(t));
    assert t + u <= 64;
    Pow2Mono(u + t, 64);
    Pow2Limb();
  }

  lemma LimbBelow(p: seq<Limb>, i: nat, t: nat)
    requires i < |p| && Val(p) < Pow2(64 * i + t)
    ensures p[i] < Pow2(t)
  {
    hide Val;
    ValSplit(p, i);
    ValHead(p, i);
    LimbPowIsPow2(i);
    Pow2Add(t, 64 * i);
    var w := LimbPow(i);
    MulMono(w, p[i], Val(p[i..]));
    if p[i] >= Pow2(t) { MulMono(w, Pow2(t), p[i]); }
    assert w * Pow2(t) == Pow2(t) * w;
  }

  /** What v has from bit pos upwards. */
  function HighPart(v: nat, pos: nat): int {
    v / Pow2(pos)
  }

  /** The u-bit digit of the limb vector at position pos. */
  function DigitOf(p: seq<Limb>, pos: nat, u: nat): (d: nat)
    requires pos / 64 < |p|
    ensures d < Pow2(u)
  {
    (p[pos / 64] / Pow2(pos % 64)) % Pow2(u)
  }

  lemma DigitAt(p: seq<Limb>, pos: nat, u: nat)
    requires (u == 4 || u == 8) && pos % u == 0 && pos / 64 < |p|
    ensures HighPart(Val(p), pos) == HighPart(Val(p), pos + u) * Pow2(u) + DigitOf(p, pos, u)
  {
    hide Val, Pow2, HighPart;
    DigitOfSuffix(p, pos / 64, pos % 64, u);
    HighPartStep(Val(p), pos, u);
  }

  lemma HighPartStep(v: nat, pos: nat, u: nat)
    ensures HighPart(v, pos) == HighPart(v, pos + u) * Pow2(u) + HighPart(v, pos) % Pow2(u)
  {
    hide Pow2;
    Pow2Add(pos, u);
    DivDiv(v, Pow2(pos), Pow2(u));
  }

  lemma DigitOfSuffix(p: seq<Limb>, i: nat, t: nat, u: nat)
    requires i < |p| && t + u <= 64
    ensures HighPart(Val(p), 64 * i + t) % Pow2(u) == (p[i] / Pow2(t)) % Pow2(u)
  {
    hide Val, Pow2;
    SuffixQuotient(p, i, t);
    ValHead(p, i);
    LimbSplitsAt(t);
    Pow2Add(64 - t - u, u);
    DigitOfSum(p[i], Val(p[i + 1..]), Pow2(t), Pow2(64 - t - u), Pow2(u));
  }

  lemma DigitOfSum(x: nat, v: nat, d: nat, h: nat, w: nat)
    requires d > 0 && w > 0 && d * (h * w) == BASE
    ensures ((x + BASE * v) / d) % w == (x / d) % w
  {
    ShiftDownArith(x, v, d, h * w);
    DigitOfQuotient(x / d, v, d, h, w);
  }

  lemma DigitOfQuotient(q: nat, v: nat, d: nat, h: nat, w: nat)
    requires d > 0 && w > 0 && d * (h * w) == BASE
    ensures (BASE * (v / d) + (q + (v % d) * (h * w))) % w == q % w
  {
    var a, b := v / d, v % d;
    var m := (d * a) * h;
    assert BASE * a == m * w by {
      assert (d * (h * w)) * a == (d * a) * (h * w);
      MulAssoc(d * a, h, w);
    }
    MulAssoc(b, h, w);
    AddMultiple(q, w, m);
    AddMultiple(q + m * w, w, b * h);
  }

  // ----- binary -----

  /** X from big-endian bytes; the buffer gets exactly the limbs needed, but at least one. */
  method ReadBinary(X: Mpi, buf: seq<Byte>)
    modifies X
    ensures X.s == 1 && X.Abs() == BigEndian(buf)
    ensures |X.p| == if |buf| == 0 then 1 else (|buf| + 7) / 8
  {
    hide Val, Pow2;
    var limbs := |buf| / 8 + if |buf| % 8 != 0 then 1 else 0;
    if |X.p| != limbs {
      X.s, X.p := 1, [];
      Grow(X, limbs);
    }
    SetInt(X, 0);
    var i, j := |buf|, 0;
    assert buf[i..] == [];
    assert Plain([]) == [];
    while i > 0
      invariant 0 <= i <= |buf| && j == |buf| - i && X.s == 1
      invariant |X.p| == if |buf| == 0 then 1 else (|buf| + 7) / 8
      invariant X.Abs() == BigEndian(buf[i..])
    {
      BigEndianCons(buf, i);
      SmallPowers();
      PackDigit(X, 8 * j, buf[i - 1], 8);
      i, j := i - 1, j + 1;
    }
    assert buf[0..] == buf;
  }

  function ByteSize(len: nat): nat {
    (len + 7) / 8
  }

  /** Big-endian bytes of |X| with zeros in front. */
  method WriteBinary(X: Mpi, buf: array<Byte>) returns (ret: Status)
    modifies buf
    ensures ret.Ok? || ret.BufferTooSmall?
    ensures ret.Ok? <==> X.Abs() < Pow2(8 * buf.Length)
    ensures ret.Ok? ==> BigEndian(buf[..]) == X.Abs()
    ensures ret.BufferTooSmall? ==> buf[..] == old(buf[..])
  {
    hide Val;
    var len := BitLength(X);
    var n := ByteSize(len);
    BytesNeeded(X.Abs(), len, buf.Length);
    if buf.Length < n { return BufferTooSmall; }
    forall k | 0 <= k < buf.Length { buf[k] := 0; }
    WriteBytes(X, buf, n, len);
    return Ok;
  }

  lemma BytesNeeded(v: nat, len: nat, size: nat)
    requires IsBitLength(v, len)
    ensures size < ByteSize(len) <==> v >= Pow2(8 * size)
  {
    if size < ByteSize(len) { Pow2Mono(8 * size, len - 1); } else { Pow2Mono(len, 8 * size); }
  }

  method WriteBytes(X: Mpi, buf: array<Byte>, n: nat, ghost len: nat)
    requires n <= buf.Length && n == ByteSize(len) && IsBitLength(X.Abs(), len)
    requires forall k :: 0 <= k < buf.Length ==> buf[k] == 0
    modifies buf
    ensures BigEndian(buf[..]) == X.Abs()
  {
    hide Val, Pow2, IsBitLength, HighPart, DigitOf, BigEndian;
    EnoughLimbs(X.p, len);
    var i, j, m := buf.Length - 1, 0, n;
    ghost var v := X.Abs();
    WholePart(v);
    assert buf[buf.Length..] == [];
    while m > 0
      invariant 0 <= m <= n && j == n - m && i == buf.Length - 1 - j
      invariant forall k :: 0 <= k <= i ==> buf[k] == 0
      invariant v == HighPart(v, 8 * j) * Pow2(8 * j) + BigEndian(buf[i + 1..])
    {
      DigitAt(X.p, 8 * j, 8);
      SmallPowers();
      ghost var tail := buf[i + 1..];
      buf[i] := DigitOf(X.p, 8 * j, 8);
      assert buf[i..] == [buf[i]] + tail;
      BigEndianFront(buf[i], tail);
      ByteStep(HighPart(v, 8 * j), HighPart(v, 8 * j + 8), 8 * j, buf[i]);
      i, j, m := i - 1, j + 1, m - 1;
    }
    assert buf[..][i + 1..] == buf[i + 1..];
    LeadingZeroBytes(buf[..], i + 1);
    NothingAbove(v, len, n);
  }

  lemma WholePart(v: nat)
    ensures HighPart(v, 0) * Pow2(0) == HighPart(v, 0) == v && BigEndian([]) == 0
  {
    DivUnique(v, 1, v, 0);
    assert Plain([]) == [];
  }

  lemma ByteStep(x: int, y: int, pos: nat, b: int)
    requires x == y * Pow2(8) + b
    ensures x * Pow2(pos) == y * Pow2(pos + 8) + b * Pow2(pos)
  {
    hide Pow2;
    Pow2Add(pos, 8);
    ByteArith(y, Pow2(8), b, Pow2(pos));
  }

  lemma ByteArith(a: int, w: int, b: int, p: int)
    ensures (a * w + b) * p == a * (p * w) + b * p
  {
    MulAssoc(a, w, p);
  }

  lemma NothingAbove(v: nat, len: nat, n: nat)
    requires IsBitLength(v, len) && n == ByteSize(len)
    ensures HighPart(v, 8 * n) == 0
  {
    Pow2Mono(len, 8 * n);
    DivUnique(v, Pow2(8 * n), 0, v);
  }

  lemma EnoughLimbs(p: seq<Limb>, len: nat)
    requires IsBitLength(Val(p), len)
    ensures len <= 64 * |p|
  {
    ValBound(p);
    LimbPowIsPow2(|p|);
    if len > 64 * |p| { Pow2Mono(64 * |p|, len - 1); }
  }

}
