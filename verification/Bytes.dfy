/** Bytes, their exclusive or, and the numbers that sequences of them stand for. */
module Bytes {
  import opened Bits
  import opened Limbs
  import opened Positional

  type Byte = b: int | 0 <= b < 256 witness 0

  /** The number that big-endian bytes stand for. */
  function BigEndian(b: seq<Byte>): nat {
    Number(Plain(b), 256)
  }

  function Plain(b: seq<Byte>): (ds: seq<nat>)
    ensures |ds| == |b| && forall k :: 0 <= k < |b| ==> ds[k] == b[k]
  {
    seq(|b|, k requires 0 <= k < |b| => b[k])
  }

  /** The first byte is the more significant one. */
  lemma BigEndianTwo(a: Byte, b: Byte)
    ensures BigEndian([a, b]) == 256 * a as int + b as int
  {
    NumberOne(a, 256);
    NumberSnoc([a], b, 256);
    assert Plain([a, b]) == [a as nat] + [b as nat];
  }

  lemma BigEndianCons(b: seq<Byte>, i: nat)
    requires 0 < i <= |b|
    ensures BigEndian(b[i - 1..]) == b[i - 1] * Pow2(8 * (|b| - i)) + BigEndian(b[i..])
    ensures BigEndian(b[i..]) < Pow2(8 * (|b| - i))
  {
    assert Pow2(8) == 256;
    NumberCons(Plain(b[i - 1..]), 8);
    assert Plain(b[i - 1..])[1..] == Plain(b[i..]);
    NumberBound(Plain(b[i..]), 8);
  }

  lemma BigEndianFront(b: Byte, tail: seq<Byte>)
    ensures BigEndian([b] + tail) == b * Pow2(8 * |tail|) + BigEndian(tail)
  {
    var s := [b] + tail;
    BigEndianCons(s, 1);
    assert s[0..] == s && s[1..] == tail;
  }

  lemma BigEndianLast(b: seq<Byte>, x: Byte)
    ensures BigEndian(b + [x]) == 256 * BigEndian(b) + x
  {
    NumberSnoc(Plain(b), x, 256);
    assert Plain(b + [x]) == Plain(b) + [x];
  }

  lemma BigEndianBound(b: seq<Byte>)
    ensures BigEndian(b) < Pow2(8 * |b|)
  {
    assert Pow2(8) == 256;
    NumberBound(Plain(b), 8);
  }

  lemma {:induction false} LeadingZeroBytes(b: seq<Byte>, i: nat)
    requires i <= |b| && forall k :: 0 <= k < i ==> b[k] == 0
    ensures BigEndian(b) == BigEndian(b[i..])
  {
    if i == 0 {
      assert b[0..] == b;
    } else {
      LeadingZeroBytes(b, i - 1);
      BigEndianCons(b, i);
      assert 0 * Pow2(8 * (|b| - i)) == 0;
    }
  }

  /** Bytes of one length are determined by their number, so writing what was read gives the bytes back. */
  lemma BigEndianInjective(a: seq<Byte>, b: seq<Byte>)
    requires |a| == |b| && BigEndian(a) == BigEndian(b)
    ensures a == b
  {
    NumberInjective(Plain(a), Plain(b), 256);
    forall k | 0 <= k < |a| ensures a[k] == b[k] {
      assert Plain(a)[k] == Plain(b)[k];
    }
  }

  // ----- exclusive or -----

  /** Exclusive or on bytes. */
  function XorByte(a: Byte, b: Byte): Byte {
    assert Pow2(8) == 256;
    XorBelow(8, a, b);
    XorBits(8, a, b)
  }

  lemma XorBack(a: Byte, b: Byte)
    ensures XorByte(XorByte(a, b), b) == a
    ensures XorByte(a, b) == XorByte(b, a)
  {
    assert Pow2(8) == 256;
    hide XorBits;
    XorBitsBack(8, a, b);
    XorCommutes(8, a, b);
  }

  lemma XorZero(a: Byte, b: Byte)
    ensures XorByte(a, b) == 0 <==> a == b
    ensures XorByte(0, b) == b
  {
    assert Pow2(8) == 256;
    XorNothing(8, b);
    hide XorBits;
    XorCommutes(8, 0, b);
    XorBack(a, b);
    XorBack(b, b);
    XorBack(0, b);
  }

  /** Bytewise exclusive or; the second operand may be longer. */
  function Xor(a: seq<Byte>, b: seq<Byte>): (r: seq<Byte>)
    requires |a| <= |b|
    ensures |r| == |a|
    ensures forall k :: 0 <= k < |a| ==> r[k] == XorByte(a[k], b[k])
  {
    seq(|a|, k requires 0 <= k < |a| => XorByte(a[k], b[k]))
  }

  lemma XorTwice(a: seq<Byte>, b: seq<Byte>)
    requires |a| <= |b|
    ensures Xor(Xor(a, b), b) == a
  {
    hide XorByte;
    forall k | 0 <= k < |a| ensures Xor(Xor(a, b), b)[k] == a[k] { XorBack(a[k], b[k]); }
  }

  // ----- little-endian words -----

  /** The number that bytes stand for, least significant byte first. */
  function LittleEndian(b: seq<Byte>): nat {
    if b == [] then 0 else b[0] + 256 * LittleEndian(b[1..])
  }

  /** The lowest n bytes of v, least significant byte first. */
  function LittleBytes(v: nat, n: nat): (b: seq<Byte>)
    ensures |b| == n
  {
    if n == 0 then [] else [v % 256] + LittleBytes(v / 256, n - 1)
  }

  lemma {:induction false} LittleBytesBack(b: seq<Byte>)
    ensures LittleBytes(LittleEndian(b), |b|) == b
  {
    if b != [] {
      LowByte(b[0], LittleEndian(b[1..]));
      LittleBytesBack(b[1..]);
    }
  }

  lemma BytePower(n: nat)
    requires n > 0
    ensures Pow2(8 * n) == 256 * Pow2(8 * (n - 1))
  {
    assert Pow2(8) == 256;
    Pow2Add(8, 8 * (n - 1));
  }

  lemma ByteCarry(w: nat, v: nat)
    ensures (256 * w) * v == 256 * (w * v)
  {
  }

  lemma LowByte(x: Byte, h: nat)
    ensures (x + 256 * h) % 256 == x && (x + 256 * h) / 256 == h
  {
  }

  /** One more byte at the top. */
  lemma {:induction false} LittleEndianSnoc(b: seq<Byte>, x: Byte)
    ensures LittleEndian(b + [x]) == LittleEndian(b) + Pow2(8 * |b|) * x
  {
    assert (b + [x])[1..] == if b == [] then [] else b[1..] + [x];
    if b == [] {
      assert Pow2(0) * x == x && LittleEndian([]) == 0;
    } else {
      LittleEndianSnoc(b[1..], x);
      BytePower(|b|);
      ByteCarry(Pow2(8 * (|b| - 1)), x);
    }
  }

  lemma {:induction false} LittleEndianBound(b: seq<Byte>)
    ensures LittleEndian(b) < Pow2(8 * |b|)
  {
    if b != [] {
      BytePower(|b|);
      LittleEndianBound(b[1..]);
    }
  }
}
