/** The byte-oriented modes: CTR, OFB, CFB128 and CFB8. */
module AesStream {
  import opened Arithmetic
  import opened Limbs
  import opened Bytes
  import opened Buffers
  import opened BlockCiphers

  // ----- what the four modes have in common -----

  /** A mode that masks one byte at a time: the mask of a state, and the state after a ciphertext byte. */
  datatype Machine<!S> = Machine(key: S -> Byte, absorb: (S, Byte) -> S)

  /** The output for `data` and the state carried to the next call. */
  function Run<S>(m: Machine<S>, mode: Mode, s: S, data: seq<Byte>): (r: (seq<Byte>, S))
    ensures |r.0| == |data|
  {
    if data == [] then ([], s)
    else
      var (o, t) := Run(m, mode, s, data[..|data| - 1]);
      var x := data[|data| - 1];
      var y := XorByte(x, m.key(t));
      (o + [y], m.absorb(t, if mode == Encrypt then y else x))
  }

  lemma RunSnoc<S>(m: Machine<S>, mode: Mode, s: S, data: seq<Byte>)
    requires data != []
    ensures var n := |data| - 1;
            var (o, t) := Run(m, mode, s, data[..n]);
            var y := XorByte(data[n], m.key(t));
            Run(m, mode, s, data) == (o + [y], m.absorb(t, if mode == Encrypt then y else data[n]))
  {
  }

  /** Two calls that carry the state over are one call on the whole data. */
  lemma {:induction false} RunSplit<S>(m: Machine<S>, mode: Mode, s: S, p: seq<Byte>, q: seq<Byte>)
    ensures Run(m, mode, s, p + q).0 == Run(m, mode, s, p).0 + Run(m, mode, Run(m, mode, s, p).1, q).0
    ensures Run(m, mode, s, p + q).1 == Run(m, mode, Run(m, mode, s, p).1, q).1
  {
    if q == [] {
      assert p + q == p;
    } else {
      var n := |q| - 1;
      RunSplit(m, mode, s, p, q[..n]);
      assert (p + q)[..|p| + n] == p + q[..n];
    }
  }

  /** Decryption from the same state restores the data and ends in the same state. */
  lemma {:induction false} RunInverse<S>(m: Machine<S>, s: S, p: seq<Byte>)
    ensures Run(m, Decrypt, s, Run(m, Encrypt, s, p).0) == (p, Run(m, Encrypt, s, p).1)
  {
    if p != [] {
      hide XorByte;
      var n := |p| - 1;
      RunInverse(m, s, p[..n]);
      var (o, t) := Run(m, Encrypt, s, p[..n]);
      XorBack(p[n], m.key(t));
      var c := Run(m, Encrypt, s, p).0;
      assert c[..n] == o && p == p[..n] + [p[n]];
    }
  }

  /** The direction does not matter when the state ignores the data. */
  ghost predicate IgnoresData<S(!new)>(m: Machine<S>) {
    forall s: S, x: Byte, y: Byte :: m.absorb(s, x) == m.absorb(s, y)
  }

  lemma {:induction false} SameBothWays<S(!new)>(m: Machine<S>, s: S, p: seq<Byte>)
    requires IgnoresData(m)
    ensures Run(m, Encrypt, s, p) == Run(m, Decrypt, s, p)
  {
    if p != [] { SameBothWays(m, s, p[..|p| - 1]); }
  }

  /** Applying such a mode twice from one state restores the data. */
  lemma RunTwice<S(!new)>(m: Machine<S>, s: S, p: seq<Byte>)
    requires IgnoresData(m)
    ensures Run(m, Encrypt, s, Run(m, Encrypt, s, p).0) == (p, Run(m, Encrypt, s, p).1)
  {
    RunInverse(m, s, p);
    SameBothWays(m, s, Run(m, Encrypt, s, p).0);
  }

  // ----- the counter -----

  /** A big-endian counter plus one. */
  function Next(b: seq<Byte>): (r: seq<Byte>)
    ensures |r| == |b|
  {
    if b == [] then []
    else if b[|b| - 1] == 255 then Next(b[..|b| - 1]) + [0]
    else b[..|b| - 1] + [b[|b| - 1] + 1]
  }

  /** The increment is by one modulo 2^(8n), so modulo 2^128 for a block. */
  lemma {:induction false} NextValue(b: seq<Byte>)
    ensures BigEndian(Next(b)) == (BigEndian(b) + 1) % Pow2(8 * |b|)
  {
    if b == [] {
      assert Pow2(0) == 1;
    } else {
      var n := |b| - 1;
      var last: Byte := b[n];
      BigEndianLast(b[..n], last);
      assert b == b[..n] + [last];
      BigEndianBound(b);
      BytePower(|b|);
      if last == 255 {
        NextValue(b[..n]);
        BigEndianLast(Next(b[..n]), 0);
        BigEndianBound(b[..n]);
        CarryOut(BigEndian(b[..n]), Pow2(8 * n));
      } else {
        BigEndianLast(b[..n], last + 1);
        NoCarry(BigEndian(b[..n]), last + 1, Pow2(8 * n));
      }
    }
  }

  lemma CarryOut(h: nat, w: nat)
    requires h < w
    ensures 256 * ((h + 1) % w) == (256 * h + 255 + 1) % (256 * w)
  {
    if h + 1 == w {
      DivUnique(h + 1, w, 1, 0);
      DivUnique(256 * w, 256 * w, 1, 0);
    } else {
      DivUnique(h + 1, w, 0, h + 1);
      DivUnique(256 * (h + 1), 256 * w, 0, 256 * (h + 1));
    }
  }

  lemma NoCarry(h: nat, l: nat, w: nat)
    requires l < 256 && h < w
    ensures (256 * h + l) % (256 * w) == 256 * h + l
  {
    DivUnique(256 * h + l, 256 * w, 0, 256 * h + l);
  }

  /** The ripple of the counter: up from the last byte until one does not wrap to zero. */
  method Increment(counter: array<Byte>)
    requires counter.Length == 16
    modifies counter
    ensures counter[..] == Next(old(counter[..]))
  {
    ghost var b := counter[..];
    var i := 16;
    assert b[..16] == b;
    while i > 0
      invariant 0 <= i <= 16 && counter[..i] == b[..i]
      invariant Next(b) == Next(b[..i]) + counter[i..]
    {
      i := i - 1;
      assert b[..i + 1][..i] == b[..i] && counter[i] == counter[..i + 1][i] == b[i];
      counter[i] := (counter[i] as int + 1) % 256;
      if counter[i] != 0 {
        assert counter[..] == b[..i] + [b[i] + 1] + counter[i + 1..];
        return;
      }
      assert counter[i..] == [0] + counter[i + 1..];
    }
    assert counter[..] == counter[0..];
  }

  // ----- CTR -----

  type Offset = n: nat | n < 16

  datatype CtrState = CtrState(off: Offset, counter: Block, stream: Block)

  function NextOffset(n: Offset): Offset {
    (n + 1) % 16
  }

  /** A new stream block at every block boundary. */
  function Refill(c: BlockCipher, s: CtrState): CtrState {
    if s.off == 0 then CtrState(0, Next(s.counter), c.enc(s.counter)) else s
  }

  function Ctr(c: BlockCipher): Machine<CtrState> {
    Machine(s => Refill(c, s).stream[s.off],
            (s, x) => Refill(c, s).(off := NextOffset(s.off)))
  }

  /** The counter after k increments. */
  function Plus(counter: Block, k: nat): Block {
    if k == 0 then counter else Next(Plus(counter, k - 1))
  }

  /** The number of counter blocks that the first i bytes use. */
  function BlocksUsed(i: nat): nat {
    (i + 15) / 16
  }

  /** CTR applied twice from one state restores the data and leaves the same state. */
  lemma CtrTwice(c: BlockCipher, s: CtrState, p: seq<Byte>)
    ensures Run(Ctr(c), Encrypt, s, Run(Ctr(c), Encrypt, s, p).0) == (p, Run(Ctr(c), Encrypt, s, p).1)
  {
    CtrIgnoresData(c);
    RunTwice(Ctr(c), s, p);
  }

  /** The state i bytes after the start of the counter block `counter`. */
  ghost predicate CtrAt(c: BlockCipher, counter: Block, i: nat, s: CtrState) {
    && s.off == i % 16 && s.counter == Plus(counter, BlocksUsed(i))
    && (s.off != 0 ==> s.stream == c.enc(Plus(counter, i / 16)))
  }

  lemma CtrAdvance(c: BlockCipher, counter: Block, i: nat, s: CtrState, x: Byte)
    requires CtrAt(c, counter, i, s)
    ensures Ctr(c).key(s) == c.enc(Plus(counter, i / 16))[i % 16]
    ensures CtrAt(c, counter, i + 1, Ctr(c).absorb(s, x))
  {
    hide Plus, BlocksUsed, Next;
    UsedStep(i);
    PlusNext(counter, i / 16);
  }

  /** Section 6.5 of NIST SP 800-38A: byte i is masked with the encryption of the i/16-th counter block. */
  lemma {:induction false} CtrBlocks(c: BlockCipher, s: CtrState, data: seq<Byte>)
    requires s.off == 0
    ensures forall i :: 0 <= i < |data| ==>
      Run(Ctr(c), Encrypt, s, data).0[i] == XorByte(data[i], c.enc(Plus(s.counter, i / 16))[i % 16])
    ensures CtrAt(c, s.counter, |data|, Run(Ctr(c), Encrypt, s, data).1)
  {
    hide XorByte, Run, Plus, Ctr, CtrAt;
    if data != [] {
      var n := |data| - 1;
      CtrBlocks(c, s, data[..n]);
      RunSnoc(Ctr(c), Encrypt, s, data);
      var (o, t) := Run(Ctr(c), Encrypt, s, data[..n]);
      CtrAdvance(c, s.counter, n, t, XorByte(data[n], Ctr(c).key(t)));
      assert forall i :: 0 <= i < n ==> data[..n][i] == data[i];
    } else {
      CtrStart(c, s);
    }
  }

  lemma CtrStart(c: BlockCipher, s: CtrState)
    requires s.off == 0
    ensures Run(Ctr(c), Encrypt, s, []) == ([], s) && CtrAt(c, s.counter, 0, s)
  {
  }

  lemma PlusNext(counter: Block, k: nat)
    ensures Plus(counter, k + 1) == Next(Plus(counter, k)) && Plus(counter, 0) == counter
  {
  }

  lemma UsedStep(n: nat)
    ensures BlocksUsed(n + 1) == if n % 16 == 0 then n / 16 + 1 else BlocksUsed(n)
    ensures n % 16 == 0 ==> BlocksUsed(n) == n / 16
    ensures n % 16 != 0 ==> BlocksUsed(n) == n / 16 + 1
    ensures (n + 1) % 16 == if n % 16 == 15 then 0 else n % 16 + 1
    ensures (n + 1) % 16 != 0 ==> (n + 1) / 16 == n / 16
  {
  }

  lemma CtrIgnoresData(c: BlockCipher)
    ensures IgnoresData(Ctr(c))
  {
  }

  /** CTR on `length` bytes from offset `n`; the offset is returned, counter and stream block are updated. */
  method CryptCtr(c: BlockCipher, length: nat, n: nat, nonceCounter: array<Byte>, streamBlock: array<Byte>,
                  input: array<Byte>, output: array<Byte>) returns (ret: AesStatus, n': nat)
    requires nonceCounter.Length == 16 && streamBlock.Length == 16 && nonceCounter != streamBlock
    requires nonceCounter != input && nonceCounter != output && streamBlock != input && streamBlock != output
    requires length <= input.Length && length <= output.Length
    modifies nonceCounter, streamBlock, output
    ensures ret == if n > 15 then BadInputData else Ok
    ensures ret.BadInputData? ==> n' == n && output[..] == old(output[..])
                                  && nonceCounter[..] == old(nonceCounter[..]) && streamBlock[..] == old(streamBlock[..])
    ensures ret.Ok? ==>
      && n' < 16
      && Masked(Ctr(c), Encrypt, CtrState(n, old(nonceCounter[..]), old(streamBlock[..])), old(input[..]), old(output[..]),
                length, output[..], CtrState(n', nonceCounter[..], streamBlock[..]))
  {
    if n > 0x0F { return BadInputData, n; }
    hide Masked, XorByte, Ctr;
    ghost var s := CtrState(n, nonceCounter[..], streamBlock[..]);
    ghost var in0, out0 := input[..], output[..];
    RunStart(Ctr(c), Encrypt, s, in0, out0);
    n' := n;
    var i := 0;
    while i < length
      invariant 0 <= i <= length && n' < 16 && input[i..] == in0[i..]
      invariant Masked(Ctr(c), Encrypt, s, in0, out0, i, output[..], CtrState(n', nonceCounter[..], streamBlock[..]))
    {
      MaskStep(Ctr(c), Encrypt, s, in0, out0, i, output[..], CtrState(n', nonceCounter[..], streamBlock[..]));
      assert input[i] == input[i..][0] == in0[i];
      ghost var before := input[..];
      n' := CtrRound(c, n', nonceCounter, streamBlock, input, output, i);
      Rest(before, input[..], in0, i);
      i := i + 1;
    }
    ret := Ok;
  }

  /** One byte of input and output that leaves later input alone. */
  lemma Rest(before: seq<Byte>, after: seq<Byte>, in0: seq<Byte>, i: nat)
    requires i < |before| == |in0| && before[i..] == in0[i..]
    requires |after| == |before| && forall k :: i < k < |after| ==> after[k] == before[k]
    ensures |after| == |in0| && after[i + 1..] == in0[i + 1..]
  {
    forall k | i < k < |in0| ensures before[k] == in0[k] { assert before[k] == before[i..][k - i]; }
  }

  method CtrRound(c: BlockCipher, n: Offset, nonceCounter: array<Byte>, streamBlock: array<Byte>,
                  input: array<Byte>, output: array<Byte>, i: nat) returns (n': Offset)
    requires nonceCounter.Length == 16 && streamBlock.Length == 16 && nonceCounter != streamBlock
    requires nonceCounter != input && nonceCounter != output && streamBlock != input && streamBlock != output
    requires i < input.Length && i < output.Length
    modifies nonceCounter, streamBlock, output
    ensures var s := CtrState(n, old(nonceCounter[..]), old(streamBlock[..]));
            var y := XorByte(old(input[i]), Ctr(c).key(s));
            && output[..] == old(output[..])[i := y]
            && CtrState(n', nonceCounter[..], streamBlock[..]) == Ctr(c).absorb(s, y)
  {
    hide XorByte, Next, Splice;
    CtrStep(c, CtrState(n, nonceCounter[..], streamBlock[..]));
    if n == 0 {
      var block := c.enc(nonceCounter[..]);
      SpliceWhole(streamBlock[..], block);
      CopyInto(streamBlock, 0, block);
      Increment(nonceCounter);
    }
    output[i] := XorByte(input[i], streamBlock[n]);
    n' := (n + 1) % 16;
  }

  lemma CtrStep(c: BlockCipher, s: CtrState)
    ensures Ctr(c).key(s) == Refill(c, s).stream[s.off]
    ensures forall x: Byte :: Ctr(c).absorb(s, x) == Refill(c, s).(off := NextOffset(s.off))
  {
  }

  /** The output and the state once i bytes have been masked. */
  ghost predicate Masked<S>(m: Machine<S>, mode: Mode, s: S, data: seq<Byte>, out0: seq<Byte>, i: nat, o: seq<Byte>, t: S) {
    && i <= |data| && i <= |out0|
    && o == Splice(out0, 0, Run(m, mode, s, data[..i]).0)
    && t == Run(m, mode, s, data[..i]).1
  }

  lemma RunStart<S>(m: Machine<S>, mode: Mode, s: S, data: seq<Byte>, out0: seq<Byte>)
    ensures Masked(m, mode, s, data, out0, 0, out0, s)
  {
    SpliceEmpty(out0, 0);
    assert data[..0] == [];
  }

  lemma MaskStep<S>(m: Machine<S>, mode: Mode, s: S, data: seq<Byte>, out0: seq<Byte>, i: nat, o: seq<Byte>, t: S)
    requires Masked(m, mode, s, data, out0, i, o, t) && i < |data| && i < |out0|
    ensures var y := XorByte(data[i], m.key(t));
            && |o| == |out0|
            && Masked(m, mode, s, data, out0, i + 1, o[i := y], m.absorb(t, if mode == Encrypt then y else data[i]))
  {
    hide Splice, XorByte;
    var y := XorByte(data[i], m.key(t));
    assert data[..i + 1][..i] == data[..i];
    SpliceSnoc(out0, 0, Run(m, mode, s, data[..i]).0, y);
  }

  // ----- OFB and CFB128 -----

  /** `block` is the initialisation vector; from offset 1 on it holds keystream (OFB), or ciphertext followed by
      keystream (CFB). */
  datatype FeedbackState = FeedbackState(off: Offset, block: Block)

  /** The block is encrypted at every block boundary. */
  function Stirred(c: BlockCipher, s: FeedbackState): Block {
    if s.off == 0 then c.enc(s.block) else s.block
  }

  function Ofb(c: BlockCipher): Machine<FeedbackState> {
    Machine((s: FeedbackState) => Stirred(c, s)[s.off],
            (s: FeedbackState, x: Byte) => FeedbackState(NextOffset(s.off), Stirred(c, s)))
  }

  function Cfb128(c: BlockCipher): Machine<FeedbackState> {
    Machine((s: FeedbackState) => Stirred(c, s)[s.off],
            (s: FeedbackState, x: Byte) => FeedbackState(NextOffset(s.off), Stirred(c, s)[s.off := x]))
  }

  lemma OfbIgnoresData(c: BlockCipher)
    ensures IgnoresData(Ofb(c))
  {
  }

  lemma OfbTwice(c: BlockCipher, s: FeedbackState, p: seq<Byte>)
    ensures Run(Ofb(c), Encrypt, s, Run(Ofb(c), Encrypt, s, p).0) == (p, Run(Ofb(c), Encrypt, s, p).1)
  {
    OfbIgnoresData(c);
    RunTwice(Ofb(c), s, p);
  }

  /** The initialisation vector encrypted k times. */
  function Iterated(c: BlockCipher, iv: Block, k: nat): Block {
    if k == 0 then iv else c.enc(Iterated(c, iv, k - 1))
  }

  ghost predicate OfbAt(c: BlockCipher, iv: Block, i: nat, s: FeedbackState) {
    s.off == i % 16 && s.block == Iterated(c, iv, BlocksUsed(i))
  }

  lemma OfbAdvance(c: BlockCipher, iv: Block, i: nat, s: FeedbackState, x: Byte)
    requires OfbAt(c, iv, i, s)
    ensures Ofb(c).key(s) == Iterated(c, iv, i / 16 + 1)[i % 16]
    ensures OfbAt(c, iv, i + 1, Ofb(c).absorb(s, x))
  {
    hide BlocksUsed;
    UsedStep(i);
  }

  /** Section 6.4 of NIST SP 800-38A: the j-th output block is the initialisation vector encrypted j + 1 times. */
  lemma {:induction false} OfbBlocks(c: BlockCipher, iv: Block, data: seq<Byte>)
    ensures forall i :: 0 <= i < |data| ==>
      Run(Ofb(c), Encrypt, FeedbackState(0, iv), data).0[i] == XorByte(data[i], Iterated(c, iv, i / 16 + 1)[i % 16])
    ensures OfbAt(c, iv, |data|, Run(Ofb(c), Encrypt, FeedbackState(0, iv), data).1)
  {
    hide XorByte, Run, Iterated, Ofb, OfbAt;
    var s := FeedbackState(0, iv);
    if data != [] {
      var n := |data| - 1;
      OfbBlocks(c, iv, data[..n]);
      RunSnoc(Ofb(c), Encrypt, s, data);
      var (o, t) := Run(Ofb(c), Encrypt, s, data[..n]);
      OfbAdvance(c, iv, n, t, XorByte(data[n], Ofb(c).key(t)));
      assert forall i :: 0 <= i < n ==> data[..n][i] == data[i];
    } else {
      OfbStart(c, iv);
    }
  }

  lemma OfbStart(c: BlockCipher, iv: Block)
    ensures Run(Ofb(c), Encrypt, FeedbackState(0, iv), []) == ([], FeedbackState(0, iv))
    ensures OfbAt(c, iv, 0, FeedbackState(0, iv))
  {
  }

  /** The ciphertext of a call: what it produced or what it was given. */
  function CipherSide(mode: Mode, data: seq<Byte>, o: seq<Byte>): seq<Byte> {
    if mode == Encrypt then o else data
  }

  /** The state within a segment, after the ciphertext bytes x. */
  ghost predicate CfbAt(c: BlockCipher, iv: Block, x: seq<Byte>, s: FeedbackState) {
    && |x| <= 16 && s.off == |x| % 16
    && s.block == if x == [] then iv else x + c.enc(iv)[|x|..]
  }

  lemma CfbAdvance(c: BlockCipher, iv: Block, x: seq<Byte>, s: FeedbackState, b: Byte)
    requires CfbAt(c, iv, x, s) && |x| < 16
    ensures Cfb128(c).key(s) == c.enc(iv)[|x|]
    ensures CfbAt(c, iv, x + [b], Cfb128(c).absorb(s, b))
  {
    assert (x + c.enc(iv)[|x|..])[|x| := b] == x + [b] + c.enc(iv)[|x| + 1..];
  }

  /** Section 6.3 of NIST SP 800-38A with 128-bit segments: up to one segment is masked with the encryption of the
      block before it, and a full segment of ciphertext becomes the next block. */
  lemma {:induction false} CfbSegment(c: BlockCipher, mode: Mode, iv: Block, data: seq<Byte>)
    requires |data| <= 16
    ensures Run(Cfb128(c), mode, FeedbackState(0, iv), data).0 == Xor(data, c.enc(iv))
    ensures CfbAt(c, iv, CipherSide(mode, data, Xor(data, c.enc(iv))), Run(Cfb128(c), mode, FeedbackState(0, iv), data).1)
  {
    hide XorByte, Run, Cfb128, CfbAt;
    var s := FeedbackState(0, iv);
    if data != [] {
      var n := |data| - 1;
      CfbSegment(c, mode, iv, data[..n]);
      RunSnoc(Cfb128(c), mode, s, data);
      var (o, t) := Run(Cfb128(c), mode, s, data[..n]);
      var x := CipherSide(mode, data[..n], o);
      var y := XorByte(data[n], c.enc(iv)[n]);
      CfbAdvance(c, iv, x, t, if mode == Encrypt then y else data[n]);
      assert o + [y] == Xor(data, c.enc(iv));
      assert data == data[..n] + [data[n]];
    } else {
      CfbStart(c, mode, iv);
    }
  }

  lemma CfbStart(c: BlockCipher, mode: Mode, iv: Block)
    ensures Run(Cfb128(c), mode, FeedbackState(0, iv), []) == ([], FeedbackState(0, iv))
    ensures CfbAt(c, iv, [], FeedbackState(0, iv))
  {
  }

  /** So the whole mode runs segment by segment. */
  lemma CfbSegments(c: BlockCipher, mode: Mode, iv: Block, first: Block, rest: seq<Byte>)
    ensures var o := Xor(first, c.enc(iv));
            var next := FeedbackState(0, CipherSide(mode, first, o));
            && Run(Cfb128(c), mode, FeedbackState(0, iv), first + rest).0 == o + Run(Cfb128(c), mode, next, rest).0
            && Run(Cfb128(c), mode, FeedbackState(0, iv), first + rest).1 == Run(Cfb128(c), mode, next, rest).1
  {
    hide Xor, Run, Cfb128;
    CfbSegment(c, mode, iv, first);
    RunSplit(Cfb128(c), mode, FeedbackState(0, iv), first, rest);
    var x := CipherSide(mode, first, Xor(first, c.enc(iv)));
    assert x + c.enc(iv)[16..] == x;
  }

  lemma FeedbackStep(c: BlockCipher, s: FeedbackState, x: Byte)
    ensures Ofb(c).key(s) == Cfb128(c).key(s) == Stirred(c, s)[s.off]
    ensures Ofb(c).absorb(s, x) == FeedbackState(NextOffset(s.off), Stirred(c, s))
    ensures Cfb128(c).absorb(s, x) == FeedbackState(NextOffset(s.off), Stirred(c, s)[s.off := x])
  {
  }

  method CryptOfb(c: BlockCipher, length: nat, n: Offset, iv: array<Byte>, input: array<Byte>, output: array<Byte>)
    returns (n': Offset)
    requires iv.Length == 16 && iv != input && iv != output && length <= input.Length && length <= output.Length
    modifies iv, output
    ensures Masked(Ofb(c), Encrypt, FeedbackState(n, old(iv[..])), old(input[..]), old(output[..]), length,
                   output[..], FeedbackState(n', iv[..]))
  {
    hide Masked, XorByte, Ofb;
    ghost var s := FeedbackState(n, iv[..]);
    ghost var in0, out0 := input[..], output[..];
    RunStart(Ofb(c), Encrypt, s, in0, out0);
    n' := n;
    var i := 0;
    while i < length
      invariant 0 <= i <= length && input[i..] == in0[i..]
      invariant Masked(Ofb(c), Encrypt, s, in0, out0, i, output[..], FeedbackState(n', iv[..]))
    {
      MaskStep(Ofb(c), Encrypt, s, in0, out0, i, output[..], FeedbackState(n', iv[..]));
      assert input[i] == input[i..][0] == in0[i];
      ghost var before := input[..];
      n' := OfbRound(c, n', iv, input, output, i);
      Rest(before, input[..], in0, i);
      i := i + 1;
    }
  }

  /** A used-up keystream block is replaced by its encryption. */
  method Stir(c: BlockCipher, n: Offset, iv: array<Byte>)
    requires iv.Length == 16
    modifies iv
    ensures iv[..] == Stirred(c, FeedbackState(n, old(iv[..])))
  {
    if n == 0 {
      var block := c.enc(iv[..]);
      SpliceWhole(iv[..], block);
      CopyInto(iv, 0, block);
    }
  }

  method OfbRound(c: BlockCipher, n: Offset, iv: array<Byte>, input: array<Byte>, output: array<Byte>, i: nat)
    returns (n': Offset)
    requires iv.Length == 16 && iv != input && iv != output && i < input.Length && i < output.Length
    modifies iv, output
    ensures var s := FeedbackState(n, old(iv[..]));
            var y := XorByte(old(input[i]), Ofb(c).key(s));
            output[..] == old(output[..])[i := y] && FeedbackState(n', iv[..]) == Ofb(c).absorb(s, y)
  {
    hide XorByte, Stirred;
    FeedbackStep(c, FeedbackState(n, iv[..]), XorByte(input[i], Ofb(c).key(FeedbackState(n, iv[..]))));
    Stir(c, n, iv);
    output[i] := XorByte(input[i], iv[n]);
    n' := (n + 1) % 16;
  }

  method CryptCfb128(c: BlockCipher, mode: Mode, length: nat, n: Offset, iv: array<Byte>, input: array<Byte>,
                     output: array<Byte>) returns (n': Offset)
    requires iv.Length == 16 && iv != input && iv != output && length <= input.Length && length <= output.Length
    modifies iv, output
    ensures Masked(Cfb128(c), mode, FeedbackState(n, old(iv[..])), old(input[..]), old(output[..]), length,
                   output[..], FeedbackState(n', iv[..]))
  {
    hide Masked, XorByte, Cfb128;
    ghost var s := FeedbackState(n, iv[..]);
    ghost var in0, out0 := input[..], output[..];
    RunStart(Cfb128(c), mode, s, in0, out0);
    n' := n;
    var i := 0;
    while i < length
      invariant 0 <= i <= length && input[i..] == in0[i..]
      invariant Masked(Cfb128(c), mode, s, in0, out0, i, output[..], FeedbackState(n', iv[..]))
    {
      MaskStep(Cfb128(c), mode, s, in0, out0, i, output[..], FeedbackState(n', iv[..]));
      assert input[i] == input[i..][0] == in0[i];
      ghost var before := input[..];
      n' := CfbRound(c, mode, n', iv, input, output, i);
      Rest(before, input[..], in0, i);
      i := i + 1;
    }
  }

  method CfbRound(c: BlockCipher, mode: Mode, n: Offset, iv: array<Byte>, input: array<Byte>, output: array<Byte>, i: nat)
    returns (n': Offset)
    requires iv.Length == 16 && iv != input && iv != output && i < input.Length && i < output.Length
    modifies iv, output
    ensures var s := FeedbackState(n, old(iv[..]));
            var x := old(input[i]);
            var y := XorByte(x, Cfb128(c).key(s));
            && output[..] == old(output[..])[i := y]
            && FeedbackState(n', iv[..]) == Cfb128(c).absorb(s, if mode == Encrypt then y else x)
  {
    hide XorByte, Stirred;
    var x := input[i];
    ghost var y := XorByte(x, Cfb128(c).key(FeedbackState(n, iv[..])));
    FeedbackStep(c, FeedbackState(n, iv[..]), if mode == Encrypt then y else x);
    Stir(c, n, iv);
    if mode == Decrypt {
      output[i] := XorByte(x, iv[n]);
      iv[n] := x;
    } else {
      XorBack(x, iv[n]);
      output[i] := XorByte(iv[n], x);
      iv[n] := output[i];
    }
    n' := (n + 1) % 16;
  }

  // ----- CFB8 -----

  datatype ShiftState = ShiftState(register: Block)

  function Cfb8(c: BlockCipher): Machine<ShiftState> {
    Machine((s: ShiftState) => c.enc(s.register)[0],
            (s: ShiftState, x: Byte) => ShiftState(s.register[1..] + [x]))
  }

  lemma Cfb8Step(c: BlockCipher, s: ShiftState, x: Byte)
    ensures Cfb8(c).key(s) == c.enc(s.register)[0]
    ensures Cfb8(c).absorb(s, x) == ShiftState(s.register[1..] + [x])
  {
  }

  /** The 16 bytes before position i of the ciphertext x, the initialisation vector standing before it. */
  function Window(iv: Block, x: seq<Byte>, i: nat): Block
    requires i <= |x|
  {
    (iv + x)[i..i + 16]
  }

  lemma WindowMoves(iv: Block, x: seq<Byte>, b: Byte)
    ensures forall i :: 0 <= i <= |x| ==> Window(iv, x + [b], i) == Window(iv, x, i)
    ensures Window(iv, x + [b], |x| + 1) == Window(iv, x, |x|)[1..] + [b]
  {
    assert iv + (x + [b]) == iv + x + [b];
  }

  /** Section 6.3 of NIST SP 800-38A with 8-bit segments: byte i is masked with the first byte of the encryption of
      the 16 bytes before it in the initialisation vector followed by the ciphertext; those bytes are the state. */
  lemma {:induction false} Cfb8Window(c: BlockCipher, mode: Mode, iv: Block, data: seq<Byte>)
    ensures var (o, t) := Run(Cfb8(c), mode, ShiftState(iv), data);
            var x := CipherSide(mode, data, o);
            && t.register == Window(iv, x, |data|)
            && forall i :: 0 <= i < |data| ==> o[i] == XorByte(data[i], c.enc(Window(iv, x, i))[0])
  {
    hide XorByte, Run, Cfb8, Window;
    if data != [] {
      var n := |data| - 1;
      var (o, t) := Run(Cfb8(c), mode, ShiftState(iv), data[..n]);
      Cfb8Window(c, mode, iv, data[..n]);
      RunSnoc(Cfb8(c), mode, ShiftState(iv), data);
      var y := XorByte(data[n], c.enc(t.register)[0]);
      var b := if mode == Encrypt then y else data[n];
      Cfb8Step(c, t, b);
      WindowMoves(iv, CipherSide(mode, data[..n], o), b);
      assert data == data[..n] + [data[n]];
    } else {
      Cfb8Start(c, mode, iv);
    }
  }

  lemma Cfb8Start(c: BlockCipher, mode: Mode, iv: Block)
    ensures Run(Cfb8(c), mode, ShiftState(iv), []) == ([], ShiftState(iv)) && Window(iv, [], 0) == iv
  {
    assert iv + [] == iv;
  }

  /** Decryption recovers from lost or damaged ciphertext: after 16 bytes the state depends on them alone. */
  lemma Cfb8Resynchronises(c: BlockCipher, iv: Block, other: Block, x: seq<Byte>)
    requires |x| >= 16
    ensures Run(Cfb8(c), Decrypt, ShiftState(iv), x).1 == Run(Cfb8(c), Decrypt, ShiftState(other), x).1
    ensures Run(Cfb8(c), Decrypt, ShiftState(iv), x).1.register == x[|x| - 16..]
  {
    hide Run, XorByte, Window, Cfb8;
    Cfb8Window(c, Decrypt, iv, x);
    Cfb8Window(c, Decrypt, other, x);
    WindowInside(iv, x);
    WindowInside(other, x);
  }

  lemma WindowInside(iv: Block, x: seq<Byte>)
    requires |x| >= 16
    ensures Window(iv, x, |x|) == x[|x| - 16..]
  {
  }

  method CryptCfb8(c: BlockCipher, mode: Mode, length: nat, iv: array<Byte>, input: array<Byte>, output: array<Byte>)
    requires iv.Length == 16 && iv != input && iv != output && length <= input.Length && length <= output.Length
    modifies iv, output
    ensures Masked(Cfb8(c), mode, ShiftState(old(iv[..])), old(input[..]), old(output[..]), length,
                   output[..], ShiftState(iv[..]))
  {
    hide Masked, XorByte, Cfb8;
    ghost var s := ShiftState(iv[..]);
    ghost var in0, out0 := input[..], output[..];
    RunStart(Cfb8(c), mode, s, in0, out0);
    var i := 0;
    while i < length
      invariant 0 <= i <= length && input[i..] == in0[i..]
      invariant Masked(Cfb8(c), mode, s, in0, out0, i, output[..], ShiftState(iv[..]))
    {
      MaskStep(Cfb8(c), mode, s, in0, out0, i, output[..], ShiftState(iv[..]));
      assert input[i] == input[i..][0] == in0[i];
      ghost var before := input[..];
      Cfb8Round(c, mode, iv, input, output, i);
      Rest(before, input[..], in0, i);
      i := i + 1;
    }
  }

  method Cfb8Round(c: BlockCipher, mode: Mode, iv: array<Byte>, input: array<Byte>, output: array<Byte>, i: nat)
    requires iv.Length == 16 && iv != input && iv != output && i < input.Length && i < output.Length
    modifies iv, output
    ensures var s := ShiftState(old(iv[..]));
            var x := old(input[i]);
            var y := XorByte(x, Cfb8(c).key(s));
            && output[..] == old(output[..])[i := y]
            && ShiftState(iv[..]) == Cfb8(c).absorb(s, if mode == Encrypt then y else x)
  {
    hide XorByte;
    var ov: seq<Byte> := iv[..];
    var block := c.enc(iv[..]);
    SpliceWhole(iv[..], block);
    CopyInto(iv, 0, block);
    if mode == Decrypt { ov := ov + [input[i]]; }
    XorBack(input[i], iv[0]);
    var y := XorByte(iv[0], input[i]);
    output[i] := y;
    if mode == Encrypt { ov := ov + [y]; }
    SpliceWhole(iv[..], ov[1..]);
    CopyInto(iv, 0, ov[1..]);
  }
}
