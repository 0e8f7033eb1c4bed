/** AES-XTS over an abstract block cipher. */
module AesXts {
  import opened Bits
  import opened Limbs
  import opened Bytes
  import opened Buffers
  import opened BlockCiphers

  // ----- multiplication by x in GF(2^128) -----

  /** The double of a little-endian byte string with c shifted in; the bit shifted out is dropped. */
  function Doubled(b: seq<Byte>, c: nat): (r: seq<Byte>)
    requires c < 2
    ensures |r| == |b|
  {
    if b == [] then [] else [2 * (b[0] % 128) + c] + Doubled(b[1..], b[0] / 128)
  }

  /** The bit that leaves at the top. */
  function TopBit(b: seq<Byte>): (t: nat)
    requires b != []
    ensures t < 2
  {
    b[|b| - 1] / 128
  }

  /** Multiplication of the tweak by alpha, byte by byte, as section 5.2 of IEEE Std 1619-2007 has it. */
  function Alpha(t: Block): Block {
    var d := Doubled(t, 0);
    [XorByte(d[0], 135 * TopBit(t))] + d[1..]
  }

  lemma {:induction false} DoubledValue(b: seq<Byte>, c: nat)
    requires c < 2 && b != []
    ensures 2 * LittleEndian(b) + c == LittleEndian(Doubled(b, c)) + Pow2(8 * |b|) * TopBit(b)
  {
    BytePower(|b|);
    var t, h := TopBit(b), b[0] / 128;
    var rest := Doubled(b[1..], h);
    assert Doubled(b, c)[1..] == rest;
    if |b| == 1 {
      assert b[1..] == [] && rest == [] && LittleEndian([]) == 0;
      assert Pow2(0) == 1 && Pow2(8) == 256;
    } else {
      DoubledValue(b[1..], h);
      assert TopBit(b[1..]) == t;
      ByteCarry(Pow2(8 * (|b| - 1)), t);
    }
  }

  lemma {:induction false} DoubledSplit(a: seq<Byte>, b: seq<Byte>, c: nat)
    requires c < 2 && a != []
    ensures Doubled(a + b, c) == Doubled(a, c) + Doubled(b, TopBit(a))
  {
    assert (a + b)[1..] == a[1..] + b;
    if |a| == 1 {
      assert a[1..] + b == b && Doubled(a[1..], a[0] / 128) == [];
    } else {
      DoubledSplit(a[1..], b, a[0] / 128);
      assert TopBit(a[1..]) == TopBit(a);
    }
  }

  const WORD := 0x1_0000_0000_0000_0000

  /** The word code of mbedtls_gf128mul_x_ble computes alpha times x. */
  method MultiplyByX(x: Block) returns (r: Block)
    ensures r == Alpha(x)
  {
    hide LittleEndian, LittleBytes, XorBits, BitOr, Doubled;
    var a, b := LittleEndian(x[..8]), LittleEndian(x[8..]);
    ghost var ta, tb := TopBit(x[..8]), TopBit(x[8..]);
    WordTop(x[..8]);
    WordTop(x[8..]);
    var reduce := if b / 0x8000_0000_0000_0000 == 1 then 0x87 else 0;
    var ra := XorBits(64, (a * 2) % WORD, reduce);
    var rb := BitOr(a / 0x8000_0000_0000_0000, (b * 2) % WORD);
    LowWord(x[..8], reduce);
    HighWord(x[8..], ta);
    r := LittleBytes(ra, 8) + LittleBytes(rb, 8);
    assert x == x[..8] + x[8..];
    DoubledSplit(x[..8], x[8..], 0);
  }

  /** The top bit of a 64-bit word is the top bit of its last byte. */
  lemma WordTop(s: seq<Byte>)
    requires |s| == 8
    ensures LittleEndian(s) / 0x8000_0000_0000_0000 == TopBit(s)
  {
    var low := LittleEndian(s[..7]);
    assert s == s[..7] + [s[7]];
    LittleEndianSnoc(s[..7], s[7]);
    LittleEndianBound(s[..7]);
    WordPowers();
    hide Pow2, LittleEndian;
    SplitTop(low, s[7]);
  }

  lemma SplitTop(low: nat, x: Byte)
    requires low < 0x100_0000_0000_0000
    ensures (low + 0x100_0000_0000_0000 * x) / 0x8000_0000_0000_0000 == x / 128
  {
    var t, r := x / 128, x % 128;
    assert low + 0x100_0000_0000_0000 * x == 0x8000_0000_0000_0000 * t + (low + 0x100_0000_0000_0000 * r);
  }

  lemma DropTop(v: nat, top: nat, b: nat, c: nat)
    requires 2 * b + c == v + WORD * top && v < WORD
    ensures (2 * b + c) % WORD == v
  {
  }

  lemma LowWord(s: seq<Byte>, reduce: nat)
    requires |s| == 8 && reduce < 256
    ensures LittleBytes(XorBits(64, (LittleEndian(s) * 2) % WORD, reduce), 8) ==
            [XorByte(Doubled(s, 0)[0], reduce)] + Doubled(s, 0)[1..]
  {
    hide Pow2, Doubled, XorBits, LittleBytes, TopBit, LittleEndian, XorByte;
    var d := Doubled(s, 0);
    DoubledValue(s, 0);
    LittleEndianBound(d);
    WordPowers();
    DropTop(LittleEndian(d), TopBit(s), LittleEndian(s), 0);
    XorLowByte(d, reduce);
    LittleBytesBack([XorByte(d[0], reduce)] + d[1..]);
  }

  lemma XorLowByte(d: seq<Byte>, reduce: Byte)
    requires |d| == 8
    ensures XorBits(64, LittleEndian(d), reduce) == LittleEndian([XorByte(d[0], reduce)] + d[1..])
  {
    WordPowers();
    LittleEndianBound(d[1..]);
    hide Pow2, XorBits;
    XorLow(64, 8, d[0], LittleEndian(d[1..]), reduce);
    assert ([XorByte(d[0], reduce)] + d[1..])[1..] == d[1..];
  }

  lemma HighWord(s: seq<Byte>, carry: nat)
    requires |s| == 8 && carry < 2
    ensures LittleBytes(BitOr(carry, (LittleEndian(s) * 2) % WORD), 8) == Doubled(s, carry)
  {
    var d := Doubled(s, carry);
    DoubledValue(s, carry);
    LittleEndianBound(d);
    WordPowers();
    hide Pow2, Doubled, LittleEndian, LittleBytes, BitOr, TopBit;
    DropTop(LittleEndian(d), TopBit(s), LittleEndian(s), carry);
    OrBit(LittleEndian(s), carry);
    LittleBytesBack(d);
  }

  lemma OrBit(b: nat, carry: nat)
    requires carry < 2
    ensures BitOr(carry, (b * 2) % WORD) == (2 * b + carry) % WORD
  {
    hide BitOr, Pow2;
    var m := EvenWord(b, carry);
    WordPowers();
    BitOrDisjoint(m, carry, 1);
  }

  lemma EvenWord(b: nat, carry: nat) returns (m: nat)
    requires carry < 2
    ensures (b * 2) % WORD == m * 2 && (2 * b + carry) % WORD == m * 2 + carry
  {
    m := b % 0x8000_0000_0000_0000;
  }

  // ----- the mode -----

  /** One block under its tweak. */
  function Xex(c: BlockCipher, mode: Mode, t: Block, b: Block): Block {
    Xor(Crypt(c, mode, Xor(b, t)), t)
  }

  function Opposite(mode: Mode): Mode {
    if mode == Encrypt then Decrypt else Encrypt
  }

  lemma XexInverse(c: BlockCipher, mode: Mode, t: Block, b: Block)
    requires Invertible(c)
    ensures Xex(c, Opposite(mode), t, Xex(c, mode, t, b)) == b
  {
    hide Xor;
    XorTwice(b, t);
    XorTwice(Crypt(c, mode, Xor(b, t)), t);
  }

  /** The tweak of the last full block when bytes are left over, and the tweak of the stolen block. Decryption
      swaps them. */
  function LastTweak(mode: Mode, t: Block): Block {
    if mode == Encrypt then t else Alpha(t)
  }

  function StolenTweak(mode: Mode, t: Block): Block {
    if mode == Encrypt then Alpha(t) else t
  }

  /** Ciphertext stealing: the last full block, then the leftover bytes completed from its result. */
  function Steal(c: BlockCipher, mode: Mode, t: Block, last: Block, tail: seq<Byte>): (r: seq<Byte>)
    requires |tail| < 16
    ensures |r| == 16 + |tail|
  {
    var cc := Xex(c, mode, LastTweak(mode, t), last);
    Xex(c, mode, StolenTweak(mode, t), tail + cc[|tail|..]) + cc[..|tail|]
  }

  /** Sections 5.3.2 and 5.4.2 of IEEE Std 1619-2007, from the tweak of the first block on. */
  function Xts(c: BlockCipher, mode: Mode, t: Block, data: seq<Byte>): (r: seq<Byte>)
    requires |data| >= 16
    ensures |r| == |data|
    decreases |data|
  {
    if |data| == 16 then Xex(c, mode, t, data)
    else if |data| < 32 then Steal(c, mode, t, data[..16], data[16..])
    else Xex(c, mode, t, data[..16]) + Xts(c, mode, Alpha(t), data[16..])
  }

  lemma StealInverse(c: BlockCipher, mode: Mode, t: Block, last: Block, tail: seq<Byte>)
    requires Invertible(c) && |tail| < 16
    ensures var r := Steal(c, mode, t, last, tail);
            Steal(c, Opposite(mode), t, r[..16], r[16..]) == last + tail
  {
    hide Xex, Alpha;
    var n, u, v := |tail|, LastTweak(mode, t), StolenTweak(mode, t);
    var cc := Xex(c, mode, u, last);
    var mixed: Block := tail + cc[n..];
    var stolen := Xex(c, mode, v, mixed);
    var r := Steal(c, mode, t, last, tail);
    assert r[..16] == stolen && r[16..] == cc[..n];
    XexInverse(c, mode, v, mixed);
    XexInverse(c, mode, u, last);
    assert mixed[n..] == cc[n..] && mixed[..n] == tail;
    assert cc[..n] + cc[n..] == cc;
  }

  /** Decryption undoes encryption, and encryption decryption, for every length from one block on. */
  lemma {:induction false} XtsInverse(c: BlockCipher, mode: Mode, t: Block, data: seq<Byte>)
    requires Invertible(c) && |data| >= 16
    ensures Xts(c, Opposite(mode), t, Xts(c, mode, t, data)) == data
    decreases |data|
  {
    hide Xex, Alpha, Steal;
    if |data| == 16 {
      XexInverse(c, mode, t, data);
    } else if |data| < 32 {
      StealInverse(c, mode, t, data[..16], data[16..]);
      assert data[..16] + data[16..] == data;
    } else {
      var head: Block := data[..16];
      var rest := Xts(c, mode, Alpha(t), data[16..]);
      XexInverse(c, mode, t, head);
      XtsInverse(c, mode, Alpha(t), data[16..]);
      var r := Xex(c, mode, t, head) + rest;
      assert r[..16] == Xex(c, mode, t, head) && r[16..] == rest;
      assert data[..16] + data[16..] == data;
    }
  }

  // ----- the buffers -----

  /** The tweak of block k. */
  function TweakAt(t: Block, k: nat): Block {
    if k == 0 then t else Alpha(TweakAt(t, k - 1))
  }

  function BlockAt(data: seq<Byte>, k: nat): Block
    requires 16 * k + 16 <= |data|
  {
    data[16 * k..16 * k + 16]
  }

  /** The first k blocks, each under its own tweak. */
  function Leading(c: BlockCipher, mode: Mode, t: Block, data: seq<Byte>, k: nat): (r: seq<Byte>)
    requires 16 * k <= |data|
    ensures |r| == 16 * k
  {
    if k == 0 then []
    else Leading(c, mode, t, data, k - 1) + Xex(c, mode, TweakAt(t, k - 1), BlockAt(data, k - 1))
  }

  lemma {:induction false} TweakShift(t: Block, k: nat)
    ensures TweakAt(Alpha(t), k) == TweakAt(t, k + 1)
  {
    if k > 0 { TweakShift(t, k - 1); }
  }

  lemma {:induction false} LeadingShift(c: BlockCipher, mode: Mode, t: Block, data: seq<Byte>, k: nat)
    requires 16 * k + 16 <= |data|
    ensures Leading(c, mode, t, data, k + 1) ==
            Xex(c, mode, t, BlockAt(data, 0)) + Leading(c, mode, Alpha(t), data[16..], k)
  {
    hide Xex, Alpha;
    if k > 0 {
      LeadingShift(c, mode, t, data, k - 1);
      TweakShift(t, k - 1);
      assert BlockAt(data[16..], k - 1) == BlockAt(data, k);
    }
  }

  /** The result is the leading blocks followed by the mode on what remains. */
  lemma {:induction false} XtsFrom(c: BlockCipher, mode: Mode, t: Block, data: seq<Byte>, k: nat)
    requires 16 * k + 16 <= |data|
    ensures Xts(c, mode, t, data) == Leading(c, mode, t, data, k) + Xts(c, mode, TweakAt(t, k), data[16 * k..])
    decreases k
  {
    hide Xex, Alpha, Steal;
    if k == 0 {
      assert data[0..] == data;
    } else {
      XtsFrom(c, mode, Alpha(t), data[16..], k - 1);
      TweakShift(t, k - 1);
      LeadingShift(c, mode, t, data, k - 1);
      assert data[16..][16 * (k - 1)..] == data[16 * k..];
    }
  }

  /** Index of the last full block. */
  function LastBlock(length: nat): (k: nat)
    requires length >= 16
    ensures 16 * k + 16 <= length < 16 * k + 32
  {
    length / 16 - 1
  }

  /** What an in-place call with leftover bytes computes: the leftover input has been overwritten before it
      is read. */
  function Overwritten(c: BlockCipher, mode: Mode, t: Block, data: seq<Byte>): (r: seq<Byte>)
    requires |data| >= 16
    ensures |r| == |data|
  {
    var k, n := LastBlock(|data|), |data| % 16;
    var last, u := BlockAt(data, k), TweakAt(t, k);
    Leading(c, mode, t, data, k) + Steal(c, mode, u, last, Xex(c, mode, LastTweak(mode, u), last)[..n])
  }

  /** In place the result is right for exactly one tail: the head of what the last full block turns into. */
  lemma OverwrittenIsXts(c: BlockCipher, mode: Mode, t: Block, data: seq<Byte>)
    requires Invertible(c) && |data| >= 16 && |data| % 16 != 0
    ensures
      var k, n := LastBlock(|data|), |data| % 16;
      var u := TweakAt(t, k);
      var head := Xex(c, mode, LastTweak(mode, u), BlockAt(data, k))[..n];
      Overwritten(c, mode, t, data) == Xts(c, mode, t, data) <==> data[16 * k + 16..] == head
  {
    hide Xex, Alpha, Leading, TweakAt, Steal;
    var k, n := LastBlock(|data|), |data| % 16;
    var u, last := TweakAt(t, k), BlockAt(data, k);
    var tail: seq<Byte> := data[16 * k + 16..];
    var head: seq<Byte> := Xex(c, mode, LastTweak(mode, u), last)[..n];
    XtsFrom(c, mode, t, data, k);
    OneAndTail(c, mode, u, data[16 * k..]);
    assert data[16 * k..][..16] == last && data[16 * k..][16..] == tail;
    hide Xts;
    var x, y := Steal(c, mode, u, last, head), Steal(c, mode, u, last, tail);
    StealInverse(c, mode, u, last, head);
    StealInverse(c, mode, u, last, tail);
    if x == y { assert head == (last + head)[16..] == (last + tail)[16..] == tail; }
    if Overwritten(c, mode, t, data) == Xts(c, mode, t, data) {
      assert x == Overwritten(c, mode, t, data)[16 * k..] && y == Xts(c, mode, t, data)[16 * k..];
    }
  }

  /** So for every message of whole blocks and every number of leftover bytes there is a tail for which it is wrong. */
  lemma OverwrittenFails(c: BlockCipher, mode: Mode, t: Block, blocks: seq<Byte>, n: nat) returns (tail: seq<Byte>)
    requires Invertible(c) && |blocks| >= 16 && |blocks| % 16 == 0 && 0 < n < 16
    ensures |tail| == n && Overwritten(c, mode, t, blocks + tail) != Xts(c, mode, t, blocks + tail)
  {
    hide Xex, Alpha, Leading, TweakAt, Steal, Xts, Overwritten;
    var k := |blocks| / 16 - 1;
    SameBlockCount(|blocks|, n);
    var head: seq<Byte> := Xex(c, mode, LastTweak(mode, TweakAt(t, k)), BlockAt(blocks, k))[..n];
    tail := head[0 := if head[0] == 0 then 1 else 0];
    var data := blocks + tail;
    assert BlockAt(data, k) == BlockAt(blocks, k) && data[16 * k + 16..] == tail;
    assert tail[0] != head[0];
    OverwrittenIsXts(c, mode, t, data);
  }

  lemma OneAndTail(c: BlockCipher, mode: Mode, u: Block, data: seq<Byte>)
    requires 16 < |data| < 32
    ensures Xts(c, mode, u, data) == Steal(c, mode, u, data[..16], data[16..])
  {
  }

  /** In place, the leftover bytes leave no trace in the result: it is the same for every tail, while the
      proper result determines the tail. */
  lemma OverwrittenLosesTail(c: BlockCipher, mode: Mode, t: Block, blocks: seq<Byte>, tail: seq<Byte>, other: seq<Byte>)
    requires Invertible(c) && |blocks| >= 16 && |blocks| % 16 == 0 && |tail| == |other| < 16 && tail != other
    ensures Overwritten(c, mode, t, blocks + tail) == Overwritten(c, mode, t, blocks + other)
    ensures Xts(c, mode, t, blocks + tail) != Xts(c, mode, t, blocks + other)
  {
    hide Xts, Overwritten;
    OverwrittenIgnoresTail(c, mode, t, blocks, tail);
    OverwrittenIgnoresTail(c, mode, t, blocks, other);
    XtsInverse(c, mode, t, blocks + tail);
    XtsInverse(c, mode, t, blocks + other);
    assert (blocks + tail)[|blocks|..] == tail && (blocks + other)[|blocks|..] == other;
  }

  /** The in-place result from the full blocks alone, for n leftover bytes. */
  function FromBlocks(c: BlockCipher, mode: Mode, t: Block, blocks: seq<Byte>, n: nat): seq<Byte>
    requires |blocks| >= 16 && n < 16
  {
    var k := |blocks| / 16 - 1;
    var last, u := BlockAt(blocks, k), TweakAt(t, k);
    Leading(c, mode, t, blocks, k) + Steal(c, mode, u, last, Xex(c, mode, LastTweak(mode, u), last)[..n])
  }

  lemma OverwrittenIgnoresTail(c: BlockCipher, mode: Mode, t: Block, blocks: seq<Byte>, tail: seq<Byte>)
    requires |blocks| >= 16 && |blocks| % 16 == 0 && |tail| < 16
    ensures Overwritten(c, mode, t, blocks + tail) == FromBlocks(c, mode, t, blocks, |tail|)
  {
    hide Xex, Alpha, Steal, Xts, Leading, TweakAt;
    var k := |blocks| / 16 - 1;
    SameBlockCount(|blocks|, |tail|);
    LeadingPrefix(c, mode, t, blocks, tail, k);
    assert BlockAt(blocks + tail, k) == BlockAt(blocks, k);
  }

  lemma SameBlockCount(m: nat, n: nat)
    requires m % 16 == 0 && n < 16
    ensures (m + n) / 16 == m / 16 && (m + n) % 16 == n
  {
  }

  lemma {:induction false} LeadingPrefix(c: BlockCipher, mode: Mode, t: Block, data: seq<Byte>, more: seq<Byte>, k: nat)
    requires 16 * k <= |data|
    ensures Leading(c, mode, t, data + more, k) == Leading(c, mode, t, data, k)
  {
    hide Xex, Alpha;
    if k > 0 {
      LeadingPrefix(c, mode, t, data, more, k - 1);
      assert BlockAt(data + more, k - 1) == BlockAt(data, k - 1);
    }
  }

  /** `output[pos..pos + 16]` becomes the block of the input there under the tweak. */
  method XexInto(c: BlockCipher, mode: Mode, tweak: Block, input: array<Byte>, output: array<Byte>, pos: nat)
    requires pos + 16 <= input.Length && pos + 16 <= output.Length
    modifies output
    ensures output[..] == Splice(old(output[..]), pos, Xex(c, mode, tweak, old(input[pos..pos + 16])))
  {
    var tmp := new Byte[16];
    ghost var b: Block := input[pos..pos + 16];
    ghost var start := tmp[..];
    XorInto(tmp, 0, input[pos..pos + 16], tweak);
    SpliceWhole(start, Xor(b, tweak));
    XorInto(output, pos, Crypt(c, mode, tmp[..]), tweak);
  }

  /** The leftover bytes: they move the head of the previous result down and are completed from its rest. */
  method StealTail(c: BlockCipher, mode: Mode, t: Block, n: nat, input: array<Byte>, output: array<Byte>, pos: nat)
    requires 0 < n < 16 && pos >= 16 && pos + n <= input.Length && pos + n <= output.Length
    modifies output
    ensures
      var cc := old(output[pos - 16..pos]);
      var tail := if input == output then cc[..n] else old(input[pos..pos + n]);
      output[..] == Splice(old(output[..]), pos - 16, Xex(c, mode, t, tail + cc[n..]) + cc[..n])
  {
    ghost var out0 := output[..];
    ghost var cc: Block := output[pos - 16..pos];
    ghost var mixed: Block := (if input == output then cc[..n] else input[pos..pos + n]) + cc[n..];
    var tmp := CollectTail(t, n, input, output, pos);
    XorInto(output, pos - 16, Crypt(c, mode, tmp), t);
    SpliceBefore(out0, pos - 16, Xex(c, mode, t, mixed), cc[..n]);
  }

  lemma SpliceBefore(b: seq<Byte>, p: nat, x: seq<Byte>, y: seq<Byte>)
    requires p + |x| + |y| <= |b|
    ensures Splice(Splice(b, p + |x|, y), p, x) == Splice(b, p, x + y)
  {
  }

  /** The two loops that move bytes down and gather the last block to encrypt. */
  method CollectTail(t: Block, n: nat, input: array<Byte>, output: array<Byte>, pos: nat) returns (r: Block)
    requires 0 < n < 16 && pos >= 16 && pos + n <= input.Length && pos + n <= output.Length
    modifies output
    ensures
      var cc := old(output[pos - 16..pos]);
      var tail := if input == output then cc[..n] else old(input[pos..pos + n]);
      output[..] == Splice(old(output[..]), pos, cc[..n]) && r == Xor(tail + cc[n..], t)
  {
    hide Splice, Xor, XorByte;
    ghost var out0, in0 := output[..], input[..];
    ghost var cc: Block := output[pos - 16..pos];
    ghost var tail := if input == output then cc[..n] else input[pos..pos + n];
    ghost var mixed: Block := tail + cc[n..];
    var tmp: seq<Byte> := [];
    SpliceEmpty(out0, pos);
    for i := 0 to n
      invariant output[..] == Splice(out0, pos, cc[..i]) && (input != output ==> input[..] == in0)
      invariant output[pos - 16..pos] == cc
      invariant tmp == Xor(mixed[..i], t)
    {
      SpliceSnoc(out0, pos, cc[..i], cc[i]);
      assert cc[..i] + [cc[i]] == cc[..i + 1];
      assert output[pos - 16 + i] == output[pos - 16..pos][i];
      output[pos + i] := output[pos - 16 + i];
      assert input != output ==> input[pos + i] == input[..][pos + i] == tail[i];
      XorSnoc(mixed, t, i);
      tmp := tmp + [XorByte(input[pos + i], t[i])];
    }
    r := CollectRest(t, n, output, pos, mixed, tmp);
  }

  method CollectRest(t: Block, n: nat, output: array<Byte>, pos: nat, ghost mixed: Block, start: seq<Byte>)
    returns (r: Block)
    requires 0 < n < 16 <= pos <= output.Length && start == Xor(mixed[..n], t)
    requires mixed[n..] == output[pos - 16 + n..pos]
    ensures r == Xor(mixed, t)
  {
    hide Xor, XorByte;
    var tmp := start;
    for i := n to 16
      invariant tmp == Xor(mixed[..i], t)
    {
      assert output[pos - 16 + i] == mixed[n..][i - n];
      XorSnoc(mixed, t, i);
      tmp := tmp + [XorByte(output[pos - 16 + i], t[i])];
    }
    assert mixed[..16] == mixed;
    r := tmp;
  }

  lemma XorSnoc(a: Block, b: Block, i: nat)
    requires i < 16
    ensures Xor(a[..i + 1], b) == Xor(a[..i], b) + [XorByte(a[i], b[i])]
  {
  }

  /** XTS over one data unit of 16 to 2^24 bytes. With leftover bytes the two buffers have to be different ones. */
  method CryptXts(c: BlockCipher, tweakCipher: BlockCipher, mode: Mode, length: nat, dataUnit: Block,
                  input: array<Byte>, output: array<Byte>) returns (ret: AesStatus)
    requires length <= input.Length && length <= output.Length
    modifies output
    ensures ret == if 16 <= length <= 0x100_0000 then Ok else InvalidInputLength
    ensures ret.InvalidInputLength? ==> output[..] == old(output[..])
    ensures ret.Ok? && (input != output || length % 16 == 0) ==>
      output[..] == Splice(old(output[..]), 0, Xts(c, mode, tweakCipher.enc(dataUnit), old(input[..length])))
    ensures ret.Ok? && input == output && length % 16 != 0 ==>
      output[..] == Splice(old(output[..]), 0, Overwritten(c, mode, tweakCipher.enc(dataUnit), old(input[..length])))
  {
    if length < 16 { return InvalidInputLength; }
    if length > 0x10_0000 * 16 { return InvalidInputLength; }
    XtsBlocks(c, mode, length, tweakCipher.enc(dataUnit), input, output);
    return Ok;
  }

  method XtsBlocks(c: BlockCipher, mode: Mode, length: nat, start: Block, input: array<Byte>, output: array<Byte>)
    requires 16 <= length <= input.Length && length <= output.Length
    modifies output
    ensures output[..] == Splice(old(output[..]), 0,
                                 if input == output && length % 16 != 0
                                 then Overwritten(c, mode, start, old(input[..length]))
                                 else Xts(c, mode, start, old(input[..length])))
  {
    hide Splice, Xts, Overwritten, Alpha, Reached, Stealing;
    var blocks, leftover := length / 16, length % 16;
    var tweak, prevTweak, pos := start, start, 0;
    ghost var data, out0 := input[..length], output[..];
    Start(c, mode, start, data, out0);
    while blocks > 0
      invariant 0 <= blocks && pos + 16 * blocks == length - leftover
      invariant input[pos..length] == data[pos..]
      invariant blocks > 0 || leftover == 0 ==> Reached(c, mode, start, data, out0, output[..], tweak, pos)
      invariant blocks == 0 && leftover > 0 ==>
        Stealing(c, mode, start, data, out0, output[..], if mode == Decrypt then prevTweak else tweak, pos)
    {
      blocks := blocks - 1;
      if leftover != 0 && blocks == 0 {
        tweak, prevTweak := LastRound(c, mode, tweak, input, output, pos, start, data, out0);
      } else {
        tweak := FullRound(c, mode, tweak, input, output, pos, start, data, out0);
      }
      pos := pos + 16;
    }
    if leftover != 0 {
      var t := if mode == Decrypt then prevTweak else tweak;
      FinishLeftover(c, mode, t, leftover, input, output, pos, start, data, out0);
    } else {
      FinishBlocks(c, mode, start, data, out0, output[..], tweak);
    }
  }

  /** The output after pos bytes of full blocks, and the tweak of the next block. */
  ghost predicate Reached(c: BlockCipher, mode: Mode, t0: Block, data: seq<Byte>, out0: seq<Byte>, o: seq<Byte>,
                          tweak: Block, pos: nat) {
    && pos % 16 == 0 && pos <= |data| <= |out0|
    && o == Splice(out0, 0, Leading(c, mode, t0, data, pos / 16))
    && tweak == TweakAt(t0, pos / 16)
  }

  /** The output after all full blocks when bytes are left over, and the tweak of the stolen block. */
  ghost predicate Stealing(c: BlockCipher, mode: Mode, t0: Block, data: seq<Byte>, out0: seq<Byte>, o: seq<Byte>,
                           t: Block, pos: nat) {
    && pos % 16 == 0 && 16 <= pos < |data| < pos + 16 && |data| <= |out0|
    && var k := pos / 16 - 1;
    && o == Splice(out0, 0, Leading(c, mode, t0, data, k)
                            + Xex(c, mode, LastTweak(mode, TweakAt(t0, k)), BlockAt(data, k)))
    && t == StolenTweak(mode, TweakAt(t0, k))
  }

  lemma Start(c: BlockCipher, mode: Mode, t0: Block, data: seq<Byte>, out0: seq<Byte>)
    requires |data| <= |out0|
    ensures Reached(c, mode, t0, data, out0, out0, t0, 0)
  {
    SpliceEmpty(out0, 0);
  }

  /** A block that is followed by a full block, or by nothing. */
  method FullRound(c: BlockCipher, mode: Mode, tweak: Block, input: array<Byte>, output: array<Byte>, pos: nat,
                   ghost t0: Block, ghost data: seq<Byte>, ghost out0: seq<Byte>) returns (next: Block)
    requires pos + 16 <= |data| <= input.Length && |out0| == output.Length
    requires Reached(c, mode, t0, data, out0, output[..], tweak, pos)
    requires input[pos..|data|] == data[pos..]
    modifies output
    ensures Reached(c, mode, t0, data, out0, output[..], next, pos + 16)
    ensures input[pos + 16..|data|] == data[pos + 16..]
  {
    hide Splice, Xex, Alpha;
    ghost var o, b := output[..], Xex(c, mode, tweak, BlockAt(data, pos / 16));
    ghost var in0 := input[..];
    BlockThere(in0, data, pos);
    LaterThere(in0, data, pos, pos + 16);
    SpliceKeeps(o, pos, b);
    XexInto(c, mode, tweak, input, output, pos);
    RestThere(in0, input[..], data, 0, pos + 16);
    next := MultiplyByX(tweak);
    SpliceSplice(out0, 0, Leading(c, mode, t0, data, pos / 16), b);
  }

  /** The last full block when bytes are left over: decryption saves its tweak and uses the next one. */
  method LastRound(c: BlockCipher, mode: Mode, tweak: Block, input: array<Byte>, output: array<Byte>, pos: nat,
                   ghost t0: Block, ghost data: seq<Byte>, ghost out0: seq<Byte>) returns (next: Block, prev: Block)
    requires pos + 16 < |data| < pos + 32 && |data| <= input.Length && |out0| == output.Length
    requires Reached(c, mode, t0, data, out0, output[..], tweak, pos)
    requires input[pos..|data|] == data[pos..]
    modifies output
    ensures Stealing(c, mode, t0, data, out0, output[..], if mode == Decrypt then prev else next, pos + 16)
    ensures input[pos + 16..|data|] == data[pos + 16..]
  {
    hide Splice, Xex, Alpha, Leading;
    next, prev := tweak, tweak;
    if mode == Decrypt { next := MultiplyByX(tweak); }
    ghost var o, b := output[..], Xex(c, mode, next, BlockAt(data, pos / 16));
    ghost var in0 := input[..];
    BlockThere(in0, data, pos);
    LaterThere(in0, data, pos, pos + 16);
    SpliceKeeps(o, pos, b);
    XexInto(c, mode, next, input, output, pos);
    RestThere(in0, input[..], data, 0, pos + 16);
    next := MultiplyByX(next);
    SpliceSplice(out0, 0, Leading(c, mode, t0, data, pos / 16), b);
  }

  lemma BlockThere(whole: seq<Byte>, data: seq<Byte>, pos: nat)
    requires pos % 16 == 0 && pos + 16 <= |data| <= |whole| && whole[pos..|data|] == data[pos..]
    ensures whole[pos..pos + 16] == BlockAt(data, pos / 16)
  {
    assert whole[pos..pos + 16] == whole[pos..|data|][..16];
    assert data[pos..pos + 16] == data[pos..][..16];
  }

  lemma LaterThere(whole: seq<Byte>, data: seq<Byte>, i: nat, j: nat)
    requires i <= j <= |data| <= |whole| && whole[i..|data|] == data[i..]
    ensures whole[0 + j..0 + |data|] == data[j..]
  {
    assert whole[j..|data|] == whole[i..|data|][j - i..] && data[j..] == data[i..][j - i..];
  }

  lemma FinishBlocks(c: BlockCipher, mode: Mode, t0: Block, data: seq<Byte>, out0: seq<Byte>, o: seq<Byte>, tweak: Block)
    requires Reached(c, mode, t0, data, out0, o, tweak, |data|) && |data| >= 16
    ensures o == Splice(out0, 0, Xts(c, mode, t0, data))
  {
    hide Splice, Xex, Alpha;
    var k := |data| / 16 - 1;
    XtsFrom(c, mode, t0, data, k);
    assert data[16 * k..] == BlockAt(data, k);
  }

  /** The result when the leftover bytes read are `tail`. */
  ghost function Completed(c: BlockCipher, mode: Mode, t0: Block, data: seq<Byte>, tail: seq<Byte>): (r: seq<Byte>)
    requires |data| >= 16 && |tail| < 16
    ensures |r| == 16 * LastBlock(|data|) + 16 + |tail|
  {
    var k := LastBlock(|data|);
    Leading(c, mode, t0, data, k) + Steal(c, mode, TweakAt(t0, k), BlockAt(data, k), tail)
  }

  lemma StealInto(c: BlockCipher, mode: Mode, u: Block, last: Block, out0: seq<Byte>, front: seq<Byte>, cc: Block,
                  tail: seq<Byte>)
    requires |front| + 16 + |tail| <= |out0| && |tail| < 16
    requires cc == Xex(c, mode, LastTweak(mode, u), last)
    ensures Splice(out0, 0, front + cc)[|front|..|front| + 16] == cc
    ensures Splice(Splice(out0, 0, front + cc), |front|,
                   Xex(c, mode, StolenTweak(mode, u), tail + cc[|tail|..]) + cc[..|tail|]) ==
            Splice(out0, 0, front + Steal(c, mode, u, last, tail))
  {
    hide Splice, Xex, Alpha;
    SpliceSecond(out0, front, cc);
    SpliceTail(out0, front, cc, Steal(c, mode, u, last, tail));
  }

  lemma CompletedIsXts(c: BlockCipher, mode: Mode, t0: Block, data: seq<Byte>, n: nat)
    requires |data| >= 16 && n == |data| % 16 != 0
    ensures Completed(c, mode, t0, data, data[|data| - n..]) == Xts(c, mode, t0, data)
    ensures var k := LastBlock(|data|);
            var cc := Xex(c, mode, LastTweak(mode, TweakAt(t0, k)), BlockAt(data, k));
            Completed(c, mode, t0, data, cc[..n]) == Overwritten(c, mode, t0, data)
  {
    hide Xex, Alpha, Leading, TweakAt, Steal;
    var k := LastBlock(|data|);
    XtsFrom(c, mode, t0, data, k);
    assert data[16 * k..][..16] == BlockAt(data, k) && data[16 * k..][16..] == data[|data| - n..];
  }

  /** The part of the call after the loop, with n bytes left over. */
  method FinishLeftover(c: BlockCipher, mode: Mode, t: Block, n: nat, input: array<Byte>, output: array<Byte>, pos: nat,
                        ghost t0: Block, ghost data: seq<Byte>, ghost out0: seq<Byte>)
    requires 16 <= pos && 0 < n < 16 && pos + n == |data| && pos + n <= input.Length && |out0| == output.Length >= |data|
    requires pos % 16 == 0 && input[pos..pos + n] == data[pos..]
    requires Stealing(c, mode, t0, data, out0, output[..], t, pos)
    modifies output
    ensures output[..] ==
            Splice(out0, 0, if input == output then Overwritten(c, mode, t0, data) else Xts(c, mode, t0, data))
  {
    hide Splice, Xex, Alpha, Leading, TweakAt, BlockAt, Xts, Overwritten, Steal, Completed;
    ghost var k := LastBlock(|data|);
    ghost var u, last, front := TweakAt(t0, k), BlockAt(data, k), Leading(c, mode, t0, data, k);
    ghost var cc := Xex(c, mode, LastTweak(mode, u), last);
    ghost var tail := if input == output then cc[..n] else data[pos..];
    StealInto(c, mode, u, last, out0, front, cc, tail);
    assert output[pos - 16..pos] == output[..][pos - 16..pos];
    StealTail(c, mode, t, n, input, output, pos);
    CompletedIsXts(c, mode, t0, data, n);
    CompletedIs(c, mode, t0, data, tail);
  }

  lemma CompletedIs(c: BlockCipher, mode: Mode, t0: Block, data: seq<Byte>, tail: seq<Byte>)
    requires |data| >= 16 && |tail| < 16
    ensures var k := LastBlock(|data|);
            Completed(c, mode, t0, data, tail) ==
            Leading(c, mode, t0, data, k) + Steal(c, mode, TweakAt(t0, k), BlockAt(data, k), tail)
  {
  }

  lemma SpliceSecond(b: seq<Byte>, x: seq<Byte>, y: seq<Byte>)
    requires |x| + |y| <= |b|
    ensures Splice(b, 0, x + y)[|x|..|x| + |y|] == y
  {
  }

  lemma SpliceTail(b: seq<Byte>, x: seq<Byte>, y: seq<Byte>, z: seq<Byte>)
    requires |x| + |z| <= |b| && |y| <= |z|
    ensures Splice(Splice(b, 0, x + y), |x|, z) == Splice(b, 0, x + z)
  {
  }
}
