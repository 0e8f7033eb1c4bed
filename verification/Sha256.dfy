/** The SHA-256 compression function: the standard's equations, and the code's in-place round loop. */
module Sha256 {
  import opened Arithmetic
  import opened Bits
  import opened Limbs
  import opened Bytes
  import opened Buffers

  const WORD := 0x1_0000_0000

  type Word = w: int | 0 <= w < 0x1_0000_0000 witness 0

  // ----- section 3.2 and 4.1.2 of FIPS 180-4 -----

  function Add(x: int, y: int): Word {
    (x + y) % WORD
  }

  function XorWord(x: Word, y: Word): Word {
    WordPowers();
    XorBelow(32, x, y);
    XorBits(32, x, y)
  }

  function Shr(x: Word, n: nat): Word {
    QuotientBelow(x, Pow2(n));
    x / Pow2(n)
  }

  lemma QuotientBelow(x: nat, w: nat)
    requires w > 0
    ensures 0 <= x / w <= x
  {
    var q, r := DivMod(x, w);
    MulMonoLeft(q, 1, w);
  }

  /** Rotation to the right by n bits in a 32-bit word. */
  function Rotr(x: Word, n: nat): Word
    requires 0 < n < 32
  {
    RotrIsRotation(x, n);
    BitOr(Shr(x, n), (x * Pow2(32 - n)) % WORD)
  }

  /** The lowest n bits come out on top. */
  lemma RotrIsRotation(x: Word, n: nat)
    requires 0 < n < 32
    ensures BitOr(Shr(x, n), (x * Pow2(32 - n)) % WORD) == (x % Pow2(n)) * Pow2(32 - n) + Shr(x, n) < WORD
  {
    hide Pow2, BitOr;
    WordPowers();
    Pow2Add(n, 32 - n);
    var h, l := DivMod(x, Pow2(n));
    RotateArith(x, Pow2(n), Pow2(32 - n), h, l);
    BitOrDisjoint(l, h, 32 - n);
  }

  lemma RotateArith(x: Word, w: nat, u: nat, h: nat, l: nat)
    requires w * u == WORD && x == h * w + l && l < w
    ensures (x * u) % WORD == l * u && h < u && l * u + h < WORD
  {
    MulAssoc(h, w, u);
    ScaledBelow(l, w, u);
    DivUnique(x * u, WORD, h, l * u);
    if h >= u { MulMono(w, u, h); }
  }

  function SigmaLow0(x: Word): Word {
    XorWord(XorWord(Rotr(x, 7), Rotr(x, 18)), Shr(x, 3))
  }

  function SigmaLow1(x: Word): Word {
    XorWord(XorWord(Rotr(x, 17), Rotr(x, 19)), Shr(x, 10))
  }

  function Sigma0(x: Word): Word {
    XorWord(XorWord(Rotr(x, 2), Rotr(x, 13)), Rotr(x, 22))
  }

  function Sigma1(x: Word): Word {
    XorWord(XorWord(Rotr(x, 6), Rotr(x, 11)), Rotr(x, 25))
  }

  function Ch(x: Word, y: Word, z: Word): nat {
    WordPowers();
    Choose(32, x, y, z)
  }

  function Maj(x: Word, y: Word, z: Word): nat {
    Majority(32, x, y, z)
  }

  /** The round constants, eight to a row. */
  function ConstantRow(i: nat): (r: seq<Word>)
    requires i < 8
    ensures |r| == 8
  {
    match i
    case 0 => [0x428A2F98, 0x71374491, 0xB5C0FBCF, 0xE9B5DBA5, 0x3956C25B, 0x59F111F1, 0x923F82A4, 0xAB1C5ED5]
    case 1 => [0xD807AA98, 0x12835B01, 0x243185BE, 0x550C7DC3, 0x72BE5D74, 0x80DEB1FE, 0x9BDC06A7, 0xC19BF174]
    case 2 => [0xE49B69C1, 0xEFBE4786, 0x0FC19DC6, 0x240CA1CC, 0x2DE92C6F, 0x4A7484AA, 0x5CB0A9DC, 0x76F988DA]
    case 3 => [0x983E5152, 0xA831C66D, 0xB00327C8, 0xBF597FC7, 0xC6E00BF3, 0xD5A79147, 0x06CA6351, 0x14292967]
    case 4 => [0x27B70A85, 0x2E1B2138, 0x4D2C6DFC, 0x53380D13, 0x650A7354, 0x766A0ABB, 0x81C2C92E, 0x92722C85]
    case 5 => [0xA2BFE8A1, 0xA81A664B, 0xC24B8B70, 0xC76C51A3, 0xD192E819, 0xD6990624, 0xF40E3585, 0x106AA070]
    case 6 => [0x19A4C116, 0x1E376C08, 0x2748774C, 0x34B0BCB5, 0x391C0CB3, 0x4ED8AA4A, 0x5B9CCA4F, 0x682E6FF3]
    case _ => [0x748F82EE, 0x78A5636F, 0x84C87814, 0x8CC70208, 0x90BEFFFA, 0xA4506CEB, 0xBEF9A3F7, 0xC67178F2]
  }

  function K(t: nat): Word
    requires t < 64
  {
    ConstantRow(t / 8)[t % 8]
  }

  // ----- section 6.2.2 of FIPS 180-4 -----

  type State = s: seq<Word> | |s| == 8 witness seq(8, _ => 0)

  function WordAt(b: seq<Byte>, i: nat): Word
    requires i + 4 <= |b|
  {
    WordPowers();
    BigEndianBound(b[i..i + 4]);
    BigEndian(b[i..i + 4])
  }

  /** The message schedule. */
  function W(block: seq<Byte>, t: nat): Word
    requires |block| == 64 && t < 64
  {
    if t < 16 then WordAt(block, 4 * t)
    else Add(SigmaLow1(W(block, t - 2)) + W(block, t - 7), SigmaLow0(W(block, t - 15)) + W(block, t - 16))
  }

  /** One round on the working variables a to h. */
  function Round(s: State, k: Word, w: Word): State {
    hide Sigma0, Sigma1, Ch, Maj, Add;
    var t1 := Add(s[7] + Sigma1(s[4]) + Ch(s[4], s[5], s[6]), k + w);
    var t2 := Add(Sigma0(s[0]), Maj(s[0], s[1], s[2]));
    [Add(t1, t2), s[0], s[1], s[2], Add(s[3], t1), s[4], s[5], s[6]]
  }

  function Rounds(s: State, block: seq<Byte>, t: nat): State
    requires |block| == 64 && t <= 64
  {
    if t == 0 then s else Round(Rounds(s, block, t - 1), K(t - 1), W(block, t - 1))
  }

  /** The intermediate hash value after one more block. */
  function Compress(h: State, block: seq<Byte>): State
    requires |block| == 64
  {
    hide Rounds, Add;
    var s := Rounds(h, block, 64);
    seq(8, i requires 0 <= i < 8 => Add(h[i], s[i]))
  }

  // ----- the code -----

  /** The round loop works on eight registers that are rotated by hand. */
  method Process(state: array<Word>, data: array<Byte>, at: nat)
    requires state.Length == 8 && at + 64 <= data.Length
    modifies state
    ensures state[..] == Compress(old(state[..]), data[at..at + 64])
  {
    hide K, W, Round, SigmaLow0, SigmaLow1, WordAt;
    ghost var block, h := data[at..at + 64], state[..];
    var w := new Word[64];
    var a := new Word[8];
    for i := 0 to 8
      invariant a[..i] == h[..i] && state[..] == h
    {
      a[i] := state[i];
    }
    assert a[..] == a[..8] == h[..8] == h;
    assert Rounds(h, block, 0) == h;
    for i := 0 to 64
      invariant forall t :: 0 <= t < i ==> w[t] == W(block, t)
      invariant a[..] == Rounds(h, block, i) && state[..] == h && data[at..at + 64] == block
    {
      ScheduleStep(block, i);
      if i < 16 {
        SubSlice(data[..], at, 64, 4 * i, 4 * i + 4);
        assert data[at + 4 * i..at + 4 * i + 4] == data[..][at + 4 * i..at + 4 * i + 4];
        assert block == data[..][at..at + 64];
        w[i] := GetWord(data, at + 4 * i);
      } else {
        w[i] := (SigmaLow1(w[i - 2]) + w[i - 7] + SigmaLow0(w[i - 15]) + w[i - 16]) % WORD;
      }
      RotateRound(a, K(i), w[i]);
    }
    AddState(state, a);
  }

  lemma ScheduleStep(block: seq<Byte>, t: nat)
    requires |block| == 64 && t < 64
    ensures W(block, t) ==
            if t < 16 then BigEndian(block[4 * t..4 * t + 4])
            else (SigmaLow1(W(block, t - 2)) + W(block, t - 7) + SigmaLow0(W(block, t - 15)) + W(block, t - 16)) % WORD
  {
  }

  /** GET_UINT32_BE */
  function GetWord(data: array<Byte>, i: nat): (w: Word)
    requires i + 4 <= data.Length
    reads data
    ensures w == BigEndian(data[i..i + 4])
  {
    assert data[i..i + 4][0..0 + 4] == data[i..i + 4];
    WordAt(data[i..i + 4], 0)
  }

  method RotateRound(a: array<Word>, k: Word, w: Word)
    requires a.Length == 8
    modifies a
    ensures a[..] == Round(old(a[..]), k, w)
  {
    hide Sigma0, Sigma1, Ch, Maj, MajorityCode, ChooseCode, Round;
    CodeForms(a[0], a[1], a[2], a[4], a[5], a[6]);
    ghost var s: State := a[..];
    var temp1: Word := (a[7] + Sigma1(a[4]) + ChooseCode(32, a[4], a[5], a[6]) + k + w) % WORD;
    var temp2: Word := (Sigma0(a[0]) + MajorityCode(a[0], a[1], a[2])) % WORD;
    RoundIs(s, k, w, temp1, temp2);
    a[3] := (a[3] as int + temp1) % WORD;
    a[7] := (temp1 as int + temp2) % WORD;
    var top := a[7];
    a[7] := a[6];
    a[6] := a[5];
    a[5] := a[4];
    a[4] := a[3];
    a[3] := a[2];
    a[2] := a[1];
    a[1] := a[0];
    a[0] := top;
    assert a[..] == [a[0], a[1], a[2], a[3], a[4], a[5], a[6], a[7]];
  }

  lemma RoundIs(s: State, k: Word, w: Word, t1: Word, t2: Word)
    requires t1 == (s[7] + Sigma1(s[4]) + Ch(s[4], s[5], s[6]) + k + w) % WORD
    requires t2 == (Sigma0(s[0]) + Maj(s[0], s[1], s[2])) % WORD
    ensures Round(s, k, w) ==
            [(t1 as int + t2) % WORD, s[0], s[1], s[2], (s[3] as int + t1) % WORD, s[4], s[5], s[6]]
  {
    hide Sigma0, Sigma1, Ch, Maj;
  }

  lemma CodeForms(a: Word, b: Word, c: Word, e: Word, f: Word, g: Word)
    ensures ChooseCode(32, e, f, g) == Ch(e, f, g) && MajorityCode(a, b, c) == Maj(a, b, c)
  {
    WordPowers();
    hide Pow2, MajorityCode, ChooseCode;
    ChooseForms(32, e, f, g);
    MajorityForms(32, a, b, c);
  }

  method AddState(state: array<Word>, a: array<Word>)
    requires state.Length == 8 && a.Length == 8 && state != a
    modifies state
    ensures forall k :: 0 <= k < 8 ==> state[k] == Add(old(state[k]), a[k])
  {
    for i := 0 to 8
      invariant forall k :: 0 <= k < i ==> state[k] == Add(old(state[k]), a[k])
      invariant forall k :: i <= k < 8 ==> state[k] == old(state[k])
    {
      state[i] := (state[i] as int + a[i]) % WORD;
    }
  }
}
