/** The block modes against the equations of NIST SP 800-38A and IEEE Std 1619-2007, block by block and bit by bit. */
module CipherStandard {
  import opened Bits
  import opened Limbs
  import opened BitLevel
  import opened Bytes
  import opened BlockCiphers
  import opened AesCbc
  import opened AesXts

  // ----- CBC, section 6.2 of NIST SP 800-38A -----

  /** What block j is chained to: the vector for the first one, the ciphertext block before it for the others. */
  function Previous(iv: Block, x: seq<Byte>, j: nat): Block
    requires 16 * j <= |x|
  {
    if j == 0 then iv else x[16 * j - 16..16 * j]
  }

  lemma {:induction false} CbcEncryptAt(c: BlockCipher, iv: Block, p: seq<Byte>, j: nat)
    requires WholeBlocks(p) && 16 * j + 16 <= |p|
    ensures var x := CbcEncrypt(c, iv, p);
            x[16 * j..16 * j + 16] == c.enc(Xor(p[16 * j..16 * j + 16], Previous(iv, x, j)))
    decreases j
  {
    hide Xor;
    var x := CbcEncrypt(c, iv, p);
    var first := c.enc(Xor(p[..16], iv));
    var rest := CbcEncrypt(c, first, p[16..]);
    assert x == first + rest;
    if j > 0 {
      CbcEncryptAt(c, first, p[16..], j - 1);
      hide CbcEncrypt;
      Behind(x, first, rest, j);
      assert p[16..][16 * (j - 1)..16 * j] == p[16 * j..16 * j + 16];
      PreviousBehind(iv, x, first, rest, j);
    }
  }

  lemma {:induction false} CbcDecryptAt(c: BlockCipher, iv: Block, x: seq<Byte>, j: nat)
    requires WholeBlocks(x) && 16 * j + 16 <= |x|
    ensures CbcDecrypt(c, iv, x)[16 * j..16 * j + 16] == Xor(c.dec(x[16 * j..16 * j + 16]), Previous(iv, x, j))
    decreases j
  {
    hide Xor;
    var p := CbcDecrypt(c, iv, x);
    var first, rest := Xor(c.dec(x[..16]), iv), CbcDecrypt(c, x[..16], x[16..]);
    assert p == first + rest;
    if j > 0 {
      CbcDecryptAt(c, x[..16], x[16..], j - 1);
      hide CbcDecrypt;
      Behind(p, first, rest, j);
      assert x[16..][16 * (j - 1)..16 * j] == x[16 * j..16 * j + 16];
      assert x == x[..16] + x[16..];
      PreviousBehind(iv, x, x[..16], x[16..], j);
    }
  }

  lemma Behind(x: seq<Byte>, first: Block, rest: seq<Byte>, j: nat)
    requires x == first + rest && 0 < j && 16 * j + 16 <= |x|
    ensures x[16 * j..16 * j + 16] == rest[16 * (j - 1)..16 * j]
  {
  }

  lemma PreviousBehind(iv: Block, x: seq<Byte>, first: Block, rest: seq<Byte>, j: nat)
    requires x == first + rest && 0 < j && 16 * j + 16 <= |x|
    ensures Previous(iv, x, j) == Previous(first, rest, j - 1)
  {
  }

  /** The cipher's input is the plaintext block with the previous ciphertext block added bit by bit. */
  lemma CbcEncryptBlock(c: BlockCipher, iv: Block, p: seq<Byte>, j: nat) returns (m: Block)
    requires WholeBlocks(p) && 16 * j + 16 <= |p|
    ensures var x := CbcEncrypt(c, iv, p);
            x[16 * j..16 * j + 16] == c.enc(m)
            && forall i, b :: 0 <= i < 16 && 0 <= b < 8 ==>
                 Bit(m[i], b) == (Bit(p[16 * j + i], b) + Bit(Previous(iv, x, j)[i], b)) % 2
  {
    hide Bit, XorByte, Xor, CbcEncrypt, Previous;
    CbcEncryptAt(c, iv, p, j);
    m := Xor(p[16 * j..16 * j + 16], Previous(iv, CbcEncrypt(c, iv, p), j));
    AddedBits(m, p[16 * j..16 * j + 16], Previous(iv, CbcEncrypt(c, iv, p), j));
  }

  /** The plaintext block is the cipher's output with the previous ciphertext block added bit by bit. */
  lemma CbcDecryptBlock(c: BlockCipher, iv: Block, x: seq<Byte>, j: nat)
    requires WholeBlocks(x) && 16 * j + 16 <= |x|
    ensures forall i, b :: 0 <= i < 16 && 0 <= b < 8 ==>
      Bit(CbcDecrypt(c, iv, x)[16 * j + i], b)
      == (Bit(c.dec(x[16 * j..16 * j + 16])[i], b) + Bit(Previous(iv, x, j)[i], b)) % 2
  {
    hide Bit, XorByte, Xor, CbcDecrypt, Previous;
    CbcDecryptAt(c, iv, x, j);
    var b := CbcDecrypt(c, iv, x)[16 * j..16 * j + 16];
    AddedBits(b, c.dec(x[16 * j..16 * j + 16]), Previous(iv, x, j));
    forall i, k | 0 <= i < 16 && 0 <= k < 8
      ensures Bit(CbcDecrypt(c, iv, x)[16 * j + i], k)
              == (Bit(c.dec(x[16 * j..16 * j + 16])[i], k) + Bit(Previous(iv, x, j)[i], k)) % 2
    {
      assert b[i] == CbcDecrypt(c, iv, x)[16 * j + i];
    }
  }

  /** The sum of two byte strings, bit by bit. */
  lemma AddedBits(m: seq<Byte>, a: seq<Byte>, k: seq<Byte>)
    requires |m| == |a| <= |k| && m == Xor(a, k)
    ensures forall i, b :: 0 <= i < |a| && 0 <= b < 8 ==> Bit(m[i], b) == (Bit(a[i], b) + Bit(k[i], b)) % 2
  {
    hide Bit, XorByte;
    forall i, b | 0 <= i < |a| && 0 <= b < 8 ensures Bit(m[i], b) == (Bit(a[i], b) + Bit(k[i], b)) % 2 {
      XorByteBit(a[i], k[i], b);
    }
  }

  // ----- XTS, section 5 of IEEE Std 1619-2007 -----

  /** Bit j of a tweak, lowest byte and lowest bit first. */
  function TweakBit(t: Block, j: nat): nat
    requires j < 128
  {
    Bit(t[j / 8], j % 8)
  }

  /** Multiplication by alpha moves every bit up by one and adds the bit that leaves at the top to the bits 0, 1, 2
      and 7. */
  lemma AlphaBits(t: Block, j: nat)
    requires j < 128
    ensures TweakBit(Alpha(t), j) ==
            ((if j == 0 then 0 else TweakBit(t, j - 1)) + (if j in {0, 1, 2, 7} then TweakBit(t, 127) else 0)) % 2
  {
    hide Bit, XorByte, Doubled;
    var d := Doubled(t, 0);
    var at, b, top := j / 8, j % 8, TopBit(t);
    DoubledBit(t, 0, at, b);
    TopIsBit(t[15]);
    if at == 0 {
      XorByteBit(d[0], 135 * top, b);
      Reduction(top, b);
    }
  }

  /** 135 is 2^0 + 2^1 + 2^2 + 2^7. */
  lemma Reduction(top: nat, b: nat)
    requires top < 2 && b < 8
    ensures Bit(135 * top, b) == if b in {0, 1, 2, 7} then top else 0
  {
    assert Pow2(0) == 1 && Pow2(1) == 2 && Pow2(2) == 4 && Pow2(3) == 8;
    assert Pow2(4) == 16 && Pow2(5) == 32 && Pow2(6) == 64 && Pow2(7) == 128;
  }

  lemma TopIsBit(x: Byte)
    ensures x / 128 == Bit(x, 7)
  {
    assert Pow2(7) == 128;
  }

  lemma {:induction false} DoubledBit(t: seq<Byte>, carry: nat, at: nat, b: nat)
    requires carry < 2 && at < |t| && b < 8
    ensures Bit(Doubled(t, carry)[at], b) ==
            if b > 0 then Bit(t[at], b - 1) else if at > 0 then Bit(t[at - 1], 7) else carry
  {
    hide Bit;
    if at == 0 {
      ShiftedBit(t[0], carry, b);
    } else {
      DoubledBit(t[1..], t[0] / 128, at - 1, b);
      TopIsBit(t[0]);
    }
  }

  lemma ShiftedBit(x: Byte, carry: nat, b: nat)
    requires carry < 2 && b < 8
    ensures Bit(2 * (x % 128) + carry, b) == if b > 0 then Bit(x, b - 1) else carry
  {
    var y := 2 * (x % 128) + carry;
    BitStep(y, if b > 0 then b - 1 else 0);
    if b > 0 {
      assert Half(y) == x % 128;
      assert Pow2(7) == 128;
      BitOfSum(x / 128, 7, x % 128, b - 1);
    }
  }

  /** One block between two additions of its tweak. */
  ghost predicate IsXex(cipher: Block -> Block, t: Block, b: Block, r: Block) {
    exists m: Block :: IsXexWith(cipher, t, b, m, r)
  }

  ghost predicate IsXexWith(cipher: Block -> Block, t: Block, b: Block, m: Block, r: Block) {
    && (forall i, k :: 0 <= i < 16 && 0 <= k < 8 ==> Bit(m[i], k) == (Bit(b[i], k) + Bit(t[i], k)) % 2)
    && (forall i, k :: 0 <= i < 16 && 0 <= k < 8 ==> Bit(r[i], k) == (Bit(cipher(m)[i], k) + Bit(t[i], k)) % 2)
  }

  lemma XexIsXex(c: BlockCipher, mode: Mode, t: Block, b: Block)
    ensures IsXex(if mode == Encrypt then c.enc else c.dec, t, b, Xex(c, mode, t, b))
  {
    hide Bit, Xor;
    var m := Xor(b, t);
    AddedBits(m, b, t);
    AddedBits(Xex(c, mode, t, b), Crypt(c, mode, m), t);
    assert IsXexWith(if mode == Encrypt then c.enc else c.dec, t, b, m, Xex(c, mode, t, b));
  }

  /** Full blocks, up to the last one if no bytes are left over and else up to the last but one, are each encrypted or
      decrypted under their own tweak, and each tweak is alpha times the one before it. */
  lemma XtsFull(c: BlockCipher, mode: Mode, t: Block, data: seq<Byte>) returns (tweaks: seq<Block>)
    requires |data| >= 16
    ensures |tweaks| == |data| / 16 + 1 && tweaks[0] == t
    ensures forall k :: 0 <= k < |data| / 16 ==> tweaks[k + 1] == Alpha(tweaks[k])
    ensures forall k :: 0 <= k && 16 * k + 16 <= |data| && (|data| % 16 == 0 || 16 * k + 32 <= |data|) ==>
      IsXex(if mode == Encrypt then c.enc else c.dec, tweaks[k], data[16 * k..16 * k + 16],
            Xts(c, mode, t, data)[16 * k..16 * k + 16])
  {
    hide IsXex, Xex, Xts, Alpha, Steal;
    tweaks := seq(|data| / 16 + 1, k requires 0 <= k => TweakAt(t, k));
    forall k | 0 <= k && 16 * k + 16 <= |data| && (|data| % 16 == 0 || 16 * k + 32 <= |data|)
      ensures IsXex(if mode == Encrypt then c.enc else c.dec, tweaks[k], data[16 * k..16 * k + 16],
                    Xts(c, mode, t, data)[16 * k..16 * k + 16])
    {
      XtsBlockIs(c, mode, t, data, k);
      XexIsXex(c, mode, TweakAt(t, k), data[16 * k..16 * k + 16]);
    }
  }

  lemma XtsBlockIs(c: BlockCipher, mode: Mode, t: Block, data: seq<Byte>, k: nat)
    requires 16 * k + 16 <= |data| && (|data| % 16 == 0 || 16 * k + 32 <= |data|)
    ensures Xts(c, mode, t, data)[16 * k..16 * k + 16] == Xex(c, mode, TweakAt(t, k), data[16 * k..16 * k + 16])
  {
    hide Xex, Alpha, Steal, TweakAt, Leading;
    XtsFrom(c, mode, t, data, k);
    FirstBlockIs(c, mode, TweakAt(t, k), data[16 * k..]);
    assert data[16 * k..][..16] == data[16 * k..16 * k + 16];
    var front, behind := Leading(c, mode, t, data, k), Xts(c, mode, TweakAt(t, k), data[16 * k..]);
    hide Xts;
    assert (front + behind)[16 * k..16 * k + 16] == behind[..16];
  }

  lemma FirstBlockIs(c: BlockCipher, mode: Mode, t: Block, data: seq<Byte>)
    requires |data| == 16 || |data| >= 32
    ensures Xts(c, mode, t, data)[..16] == Xex(c, mode, t, data[..16])
  {
    hide Xex, Alpha, Steal;
    assert |data| == 16 ==> data[..16] == data;
  }

  /** The last full block and the n bytes behind it: the block is treated under the tweak t of its place, or, when
      decrypting, under alpha times that; the first n bytes of the result end the output, and the leftover bytes with the
      rest of it are treated under the other tweak. */
  lemma XtsStolen(c: BlockCipher, mode: Mode, t: Block, data: seq<Byte>) returns (whole: Block)
    requires 16 < |data| < 32
    ensures var cipher, n, r := if mode == Encrypt then c.enc else c.dec, |data| - 16, Xts(c, mode, t, data);
            var first, second := if mode == Encrypt then t else Alpha(t), if mode == Encrypt then Alpha(t) else t;
            && IsXex(cipher, first, data[..16], whole) && r[16..] == whole[..n]
            && IsXex(cipher, second, data[16..] + whole[n..], r[..16])
  {
    hide IsXex, Xex, Alpha;
    var n := |data| - 16;
    whole := Xex(c, mode, LastTweak(mode, t), data[..16]);
    var mixed: Block := data[16..] + whole[n..];
    XexIsXex(c, mode, LastTweak(mode, t), data[..16]);
    XexIsXex(c, mode, StolenTweak(mode, t), mixed);
    var stolen := Xex(c, mode, StolenTweak(mode, t), mixed);
    assert (stolen + whole[..n])[16..] == whole[..n] && (stolen + whole[..n])[..16] == stolen;
  }

  /** The last 17 to 31 bytes of a longer text are treated as such a text under the tweak of their place. */
  lemma XtsEnd(c: BlockCipher, mode: Mode, t: Block, data: seq<Byte>) returns (tweaks: seq<Block>)
    requires |data| > 16 && |data| % 16 != 0
    ensures |tweaks| == |data| / 16 && tweaks[0] == t
    ensures forall k :: 0 <= k < |data| / 16 - 1 ==> tweaks[k + 1] == Alpha(tweaks[k])
    ensures var k := |data| / 16 - 1;
            Xts(c, mode, t, data)[16 * k..] == Xts(c, mode, tweaks[k], data[16 * k..])
  {
    hide Xex, Alpha, Steal, Leading, Xts;
    var k := |data| / 16 - 1;
    tweaks := seq(|data| / 16, i requires 0 <= i => TweakAt(t, i));
    XtsFrom(c, mode, t, data, k);
    var front, behind := Leading(c, mode, t, data, k), Xts(c, mode, TweakAt(t, k), data[16 * k..]);
    assert (front + behind)[16 * k..] == behind;
  }
}
