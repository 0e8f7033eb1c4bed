/** The hash functions against the equations of FIPS 180-4 and RFC 2104, bit by bit and byte by byte. */
module Sha256Standard {
  import opened Arithmetic
  import opened Limbs
  import opened Bits
  import opened BitLevel
  import opened Bytes
  import opened Sha256
  import opened Sha256Stream

  // ----- section 4.1.2 -----

  lemma RotrBit(x: Word, n: nat, i: nat)
    requires 0 < n < 32 && i < 32
    ensures Bit(Rotr(x, n), i) == Bit(x, (i + n) % 32)
  {
    hide Pow2, Bit, BitOr;
    RotrIsRotation(x, n);
    var h, l := DivMod(x, Pow2(n));
    RotatedHigh(x, n);
    BitOfSum(l, 32 - n, h, i);
    BitOfSum(h, n, l, (i + n) % 32);
  }

  lemma RotatedHigh(x: Word, n: nat)
    requires 0 < n < 32
    ensures x / Pow2(n) < Pow2(32 - n)
  {
    hide Pow2;
    WordPowers();
    Pow2Add(n, 32 - n);
    var h, l := DivMod(x, Pow2(n));
    RotateArith(x, Pow2(n), Pow2(32 - n), h, l);
  }

  lemma ShrBit(x: Word, n: nat, i: nat)
    requires n < 32 && i < 32
    ensures Bit(Shr(x, n), i) == if i + n < 32 then Bit(x, i + n) else 0
  {
    hide Pow2, Bit;
    var q, r := DivMod(x, Pow2(n));
    BitOfSum(q, n, r, i + n);
    WordPowers();
    if i + n >= 32 {
      Pow2Mono(32, i + n);
      NoBit(x, i + n);
    }
  }

  lemma XorWordBit(x: Word, y: Word, i: nat)
    requires i < 32
    ensures Bit(XorWord(x, y), i) == (Bit(x, i) + Bit(y, i)) % 2
  {
    hide Bit, XorBits;
    XorBit(32, x, y, i);
  }

  lemma ThreeBits(x: Word, y: Word, z: Word, i: nat)
    requires i < 32
    ensures Bit(XorWord(XorWord(x, y), z), i) == (Bit(x, i) + Bit(y, i) + Bit(z, i)) % 2
  {
    hide Bit, XorWord;
    XorWordBit(x, y, i);
    XorWordBit(XorWord(x, y), z, i);
  }

  /** Which bits of x each bit of the four functions is the sum of, modulo 2. */
  lemma SigmaBits(x: Word, i: nat)
    requires i < 32
    ensures Bit(Sigma0(x), i) == (Bit(x, (i + 2) % 32) + Bit(x, (i + 13) % 32) + Bit(x, (i + 22) % 32)) % 2
    ensures Bit(Sigma1(x), i) == (Bit(x, (i + 6) % 32) + Bit(x, (i + 11) % 32) + Bit(x, (i + 25) % 32)) % 2
    ensures Bit(SigmaLow0(x), i) ==
            (Bit(x, (i + 7) % 32) + Bit(x, (i + 18) % 32) + if i < 29 then Bit(x, i + 3) else 0) % 2
    ensures Bit(SigmaLow1(x), i) ==
            (Bit(x, (i + 17) % 32) + Bit(x, (i + 19) % 32) + if i < 22 then Bit(x, i + 10) else 0) % 2
  {
    hide Bit, XorWord, Rotr, Shr;
    RotrBit(x, 2, i); RotrBit(x, 13, i); RotrBit(x, 22, i);
    ThreeBits(Rotr(x, 2), Rotr(x, 13), Rotr(x, 22), i);
    RotrBit(x, 6, i); RotrBit(x, 11, i); RotrBit(x, 25, i);
    ThreeBits(Rotr(x, 6), Rotr(x, 11), Rotr(x, 25), i);
    RotrBit(x, 7, i); RotrBit(x, 18, i); ShrBit(x, 3, i);
    ThreeBits(Rotr(x, 7), Rotr(x, 18), Shr(x, 3), i);
    RotrBit(x, 17, i); RotrBit(x, 19, i); ShrBit(x, 10, i);
    ThreeBits(Rotr(x, 17), Rotr(x, 19), Shr(x, 10), i);
  }

  /** A bit of x chooses between those of y and z, and the majority of three bits. */
  lemma ChoiceBits(x: Word, y: Word, z: Word, i: nat)
    requires i < 32
    ensures Bit(Ch(x, y, z), i) == if Bit(x, i) == 1 then Bit(y, i) else Bit(z, i)
    ensures Bit(Maj(x, y, z), i) == if Bit(x, i) + Bit(y, i) + Bit(z, i) >= 2 then 1 else 0
  {
    WordPowers();
    hide Bit, BitAnd, BitNot, XorBits, Pow2;
    NotBit(32, x, i);
    AndBit(x, y, i);
    AndBit(BitNot(32, x), z, i);
    XorBit(32, BitAnd(x, y), BitAnd(BitNot(32, x), z), i);
    AndBit(x, z, i);
    AndBit(y, z, i);
    XorBit(32, BitAnd(x, y), BitAnd(x, z), i);
    XorBit(32, XorBits(32, BitAnd(x, y), BitAnd(x, z)), BitAnd(y, z), i);
  }

  // ----- section 6.2.2 -----

  /** Four bytes as a number, the first one on top. */
  function FourBytes(b: seq<Byte>, i: nat): int
    requires i + 4 <= |b|
  {
    b[i] as int * 0x100_0000 + b[i + 1] as int * 0x1_0000 + b[i + 2] as int * 0x100 + b[i + 3]
  }

  /** Word t of the schedule of a block. */
  ghost predicate ScheduleAt(block: seq<Byte>, w: seq<Word>, t: nat)
    requires |block| == 64 && |w| == 64 && t < 64
  {
    w[t] == if t < 16 then FourBytes(block, 4 * t)
            else (SigmaLow1(w[t - 2]) + w[t - 7] + SigmaLow0(w[t - 15]) + w[t - 16]) % 0x1_0000_0000
  }

  /** One round on a to h, from before to after. */
  ghost predicate Turn(before: State, after: State, k: Word, w: Word) {
    var t1 := before[7] + Sigma1(before[4]) + Ch(before[4], before[5], before[6]) + k + w;
    var t2 := Sigma0(before[0]) + Maj(before[0], before[1], before[2]);
    && after[0] == (t1 + t2) % 0x1_0000_0000 && after[4] == (before[3] + t1) % 0x1_0000_0000
    && after[1] == before[0] && after[2] == before[1] && after[3] == before[2]
    && after[5] == before[4] && after[6] == before[5] && after[7] == before[6]
  }

  /** Schedule w and working variables s take the hash value h to r. */
  ghost predicate Section622(h: State, block: seq<Byte>, w: seq<Word>, s: seq<State>, r: State)
    requires |block| == 64
  {
    && |w| == 64 && |s| == 65 && s[0] == h
    && (forall t :: 0 <= t < 64 ==> ScheduleAt(block, w, t))
    && (forall t :: 0 <= t < 64 ==> Turn(s[t], s[t + 1], K(t), w[t]))
    && Summed(h, s[64], r)
  }

  ghost predicate Summed(h: State, s: State, r: State) {
    forall i :: 0 <= i < 8 ==> r[i] == (h[i] as int + s[i]) % 0x1_0000_0000
  }

  /** The compression function satisfies the equations of the standard. */
  lemma CompressIsStandard(h: State, block: seq<Byte>) returns (w: seq<Word>, s: seq<State>)
    requires |block| == 64
    ensures Section622(h, block, w, s, Compress(h, block))
  {
    hide W, K, Round, Turn, Rounds, ScheduleAt, Summed, Compress;
    w := seq(64, t requires 0 <= t < 64 => W(block, t));
    s := seq(65, t requires 0 <= t < 65 => Rounds(h, block, t));
    FirstAndLast(h, block);
    forall t | 0 <= t < 64 ensures ScheduleAt(block, w, t) { Scheduled(block, w, t); }
    forall t | 0 <= t < 64 ensures Turn(s[t], s[t + 1], K(t), w[t]) {
      NextRound(h, block, t);
      RoundTurns(s[t], K(t), w[t]);
    }
  }

  lemma FirstAndLast(h: State, block: seq<Byte>)
    requires |block| == 64
    ensures Rounds(h, block, 0) == h && Summed(h, Rounds(h, block, 64), Compress(h, block))
  {
    assert Rounds(h, block, 0) == h;
    hide Rounds;
  }

  lemma NextRound(h: State, block: seq<Byte>, t: nat)
    requires |block| == 64 && t < 64
    ensures Rounds(h, block, t + 1) == Round(Rounds(h, block, t), K(t), W(block, t))
  {
    hide Round, K, W;
  }

  lemma Scheduled(block: seq<Byte>, w: seq<Word>, t: nat)
    requires |block| == 64 && |w| == 64 && t < 64 && forall u :: 0 <= u < 64 ==> w[u] == W(block, u)
    ensures ScheduleAt(block, w, t)
  {
    hide W, SigmaLow0, SigmaLow1, BigEndian, FourBytes;
    ScheduleStep(block, t);
    assert w[t] == W(block, t);
    if t < 16 {
      FourBytesValue(block, 4 * t);
    } else {
      assert w[t - 2] == W(block, t - 2) && w[t - 7] == W(block, t - 7);
      assert w[t - 15] == W(block, t - 15) && w[t - 16] == W(block, t - 16);
    }
  }

  lemma FourBytesValue(b: seq<Byte>, i: nat)
    requires i + 4 <= |b|
    ensures BigEndian(b[i..i + 4]) == FourBytes(b, i)
  {
    hide BigEndian;
    NoBytes();
    BigEndianLast([], b[i]);
    BigEndianLast([b[i]], b[i + 1]);
    BigEndianLast([b[i], b[i + 1]], b[i + 2]);
    BigEndianLast([b[i], b[i + 1], b[i + 2]], b[i + 3]);
    FourSnoc(b[i], b[i + 1], b[i + 2], b[i + 3]);
    assert b[i..i + 4] == [b[i], b[i + 1], b[i + 2], b[i + 3]];
  }

  lemma FourSnoc(a: Byte, b: Byte, c: Byte, d: Byte)
    ensures [] + [a] == [a] && [a] + [b] == [a, b] && [a, b] + [c] == [a, b, c] && [a, b, c] + [d] == [a, b, c, d]
  {
  }

  lemma NoBytes()
    ensures BigEndian([]) == 0
  {
  }

  lemma RoundTurns(s: State, k: Word, w: Word)
    ensures Turn(s, Round(s, k, w), k, w)
  {
    hide Sigma0, Sigma1, Ch, Maj;
    var t1 := s[7] + Sigma1(s[4]) + Ch(s[4], s[5], s[6]) + k + w;
    var t2 := Sigma0(s[0]) + Maj(s[0], s[1], s[2]);
    SumOfResidues(t1, t2);
    SumOfResidues(t1, s[3]);
  }

  lemma SumOfResidues(x: nat, y: nat)
    ensures (x % 0x1_0000_0000 + y % 0x1_0000_0000) % 0x1_0000_0000 == (x + y) % 0x1_0000_0000
    ensures (x % 0x1_0000_0000 + y) % 0x1_0000_0000 == (x + y) % 0x1_0000_0000
  {
  }

  // ----- sections 5.1.1 and 6.2 -----

  /** What is hashed: the message, one bit, the fewest zeros that fill whole blocks, and the number of bits of the
      message in 64 bits. */
  lemma PaddedShape(m: seq<Byte>)
    ensures var p := Padded(m);
            && |p| % 64 == 0 && |m| + 9 <= |p| < |m| + 73
            && p[..|m|] == m && p[|m|] == 0x80
            && (forall i :: |m| < i < |p| - 8 ==> p[i] == 0)
            && BigEndian(p[|p| - 8..]) == 8 * |m| % 0x1_0000_0000_0000_0000
  {
    hide BigBytes, BigEndian;
    var p, z := Padded(m), ZeroCount(|m|);
    BigBytesValue(8 * |m|, 8);
    WordPowers();
    assert p[|p| - 8..] == BigBytes(8 * |m|, 8);
    forall i | |m| < i < |p| - 8 ensures p[i] == 0 {
      assert p[i] == ZeroBytes(z)[i - |m| - 1];
    }
  }

  lemma {:induction false} BigBytesValue(v: nat, n: nat)
    ensures BigEndian(BigBytes(v, n)) == v % Pow2(8 * n)
  {
    if n == 0 {
      NoBytes();
      DivUnique(v, 1, v, 0);
    } else {
      hide BigEndian;
      BigBytesValue(v / 256, n - 1);
      BigEndianLast(BigBytes(v / 256, n - 1), v % 256);
      BytePower(n);
      var w := Pow2(8 * (n - 1));
      hide Pow2;
      TopAndLast(v, w);
    }
  }

  lemma TopAndLast(v: nat, w: nat)
    requires w > 0
    ensures 256 * ((v / 256) % w) + v % 256 == v % (256 * w)
  {
    var h, l := DivMod(v, 256);
    var q, r := DivMod(h, w);
    MulAssoc(q, w, 256);
    assert v == q * (256 * w) + (256 * r + l);
    ScaledBelow(r, w, 256);
    DivUnique(v, 256 * w, q, 256 * r + l);
  }

  /** The hash values h of the blocks of the padded message, and the digest as the words of the last one. */
  lemma HashIsStandard(m: seq<Byte>) returns (h: seq<State>)
    ensures var p, d := Padded(m), Hash(m);
            && |h| == |p| / 64 + 1 && h[0] == InitialState()
            && (forall i :: 0 <= i < |p| / 64 ==> h[i + 1] == Compress(h[i], p[64 * i..64 * i + 64]))
            && forall i :: 0 <= i < 8 ==> FourBytes(d, 4 * i) == h[|p| / 64][i]
  {
    hide Compress, Padded, InitialState, Digest;
    var p := Padded(m);
    h := seq(|p| / 64 + 1, i requires 0 <= i <= |p| / 64 => Fold(InitialState(), p[..64 * i]));
    FoldNothing(InitialState());
    assert p[..0] == [] && p[..64 * (|p| / 64)] == p;
    hide Fold;
    forall i | 0 <= i < |p| / 64 ensures h[i + 1] == Compress(h[i], p[64 * i..64 * i + 64]) {
      assert p[..64 * i + 64] == p[..64 * i] + p[64 * i..64 * i + 64];
      FoldBlock(InitialState(), p[..64 * i], p[64 * i..64 * i + 64]);
    }
    HashIs(m, p);
    forall i | 0 <= i < 8 ensures FourBytes(Hash(m), 4 * i) == h[|p| / 64][i] {
      DigestWord(Fold(InitialState(), p), i);
    }
  }

  lemma FoldNothing(h: State)
    ensures Fold(h, []) == h
  {
  }

  lemma DigestWord(s: State, i: nat)
    requires i < 8
    ensures FourBytes(Digest(s), 4 * i) == s[i]
  {
    hide BigBytes, BigEndian;
    var d := Digest(s);
    assert d[4 * i..4 * i + 4] == BigBytes(s[i], 4);
    FourBytesValue(d, 4 * i);
    BigBytesValue(s[i], 4);
    WordPowers();
    DivUnique(s[i], Pow2(32), 0, s[i]);
  }

  /** Section 2 of RFC 2104: the inner and the outer block, byte by byte. */
  lemma HmacIsStandard(key: seq<Byte>, m: seq<Byte>) returns (inner: seq<Byte>, outer: seq<Byte>)
    requires |key| <= 64
    ensures |inner| == |outer| == 64
    ensures forall i :: 0 <= i < 64 ==>
      var k: Byte := if i < |key| then key[i] else 0;
      inner[i] == XorByte(k, 0x36) && outer[i] == XorByte(k, 0x5C)
    ensures Hmac(key, m) == Hash(outer + Hash(inner + m))
  {
    hide Hash, XorByte;
    inner, outer := KeyPad(key, 0x36), KeyPad(key, 0x5C);
  }
}
