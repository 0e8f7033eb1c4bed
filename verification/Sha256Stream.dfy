/** Incremental SHA-256 and HMAC-SHA-256. */
module Sha256Stream {
  import opened Bits
  import opened Limbs
  import opened Bytes
  import opened Buffers
  import opened Sha256

  // ----- the hash of a whole message -----

  function InitialState(): State {
    [0x6A09E667, 0xBB67AE85, 0x3C6EF372, 0xA54FF53A, 0x510E527F, 0x9B05688C, 0x1F83D9AB, 0x5BE0CD19]
  }

  /** The compression function folded over whole blocks. */
  function Fold(h: State, data: seq<Byte>): State
    requires |data| % 64 == 0
  {
    if data == [] then h else Compress(Fold(h, data[..|data| - 64]), data[|data| - 64..])
  }

  /** v as n big-endian bytes. */
  function BigBytes(v: nat, n: nat): (b: seq<Byte>)
    ensures |b| == n
  {
    if n == 0 then [] else BigBytes(v / 256, n - 1) + [v % 256]
  }

  /** The number of zero bytes that section 5.1.1 of FIPS 180-4 puts between the one bit and the length. */
  function ZeroCount(n: nat): (k: nat)
    ensures (n + 1 + k + 8) % 64 == 0 && k < 64
  {
    (119 - n % 64) % 64
  }

  function ZeroBytes(n: nat): (r: seq<Byte>)
    ensures |r| == n && forall k :: 0 <= k < n ==> r[k] == 0
  {
    seq(n, _ => 0)
  }

  function Padded(m: seq<Byte>): (r: seq<Byte>)
    ensures |r| % 64 == 0
  {
    m + ([0x80] + ZeroBytes(ZeroCount(|m|))) + BigBytes(8 * |m|, 8)
  }

  function Digest(s: State): (d: seq<Byte>)
    ensures |d| == 32
  {
    BigBytes(s[0], 4) + BigBytes(s[1], 4) + BigBytes(s[2], 4) + BigBytes(s[3], 4)
    + BigBytes(s[4], 4) + BigBytes(s[5], 4) + BigBytes(s[6], 4) + BigBytes(s[7], 4)
  }

  function Hash(m: seq<Byte>): (d: seq<Byte>)
    ensures |d| == 32
  {
    Digest(Fold(InitialState(), Padded(m)))
  }

  lemma {:induction false} FoldSplit(h: State, a: seq<Byte>, b: seq<Byte>)
    requires |a| % 64 == 0 && |b| % 64 == 0
    ensures Fold(h, a + b) == Fold(Fold(h, a), b)
  {
    hide Compress;
    if b == [] {
      assert a + b == a;
    } else {
      var n := |b| - 64;
      FoldSplit(h, a, b[..n]);
      LastBlocks(a, b, n);
    }
  }

  lemma LastBlocks(a: seq<Byte>, b: seq<Byte>, n: nat)
    requires n <= |b|
    ensures (a + b)[..|a| + n] == a + b[..n] && (a + b)[|a| + n..] == b[n..]
  {
  }

  lemma FoldBlock(h: State, a: seq<Byte>, block: seq<Byte>)
    requires |a| % 64 == 0 && |block| == 64
    ensures Fold(h, a + block) == Compress(Fold(h, a), block)
  {
    hide Compress;
    assert (a + block)[..|a|] == a && (a + block)[|a|..] == block;
  }

  // ----- the context -----

  class Context {
    var total0: Word
    var total1: Word
    const state: array<Word>
    const buffer: array<Byte>
    /** What has been fed in so far. */
    ghost var message: seq<Byte>

    /** The length is kept in two words; whole blocks have been folded in, the rest waits in the buffer. */
    ghost predicate Valid()
      reads this, state, buffer
    {
      && state.Length == 8 && buffer.Length == 64
      && |message| == total1 * WORD + total0
      && Folded(state[..], buffer[..], message)
    }

    constructor ()
      ensures Valid() && message == [] && fresh(state) && fresh(buffer)
    {
      total0, total1, message := 0, 0, [];
      state := new Word[8](i requires 0 <= i < 8 => InitialState()[i]);
      buffer := new Byte[64](_ => 0);
      new;
      assert state[..] == InitialState();
    }

    /** Any number of bytes; 2^64 bytes is what the two length words can count. */
    method Update(input: array<Byte>, ilen: nat)
      requires Valid() && ilen <= input.Length && ilen < WORD && input != buffer
      requires |message| + ilen < WORD * WORD
      modifies this, state, buffer
      ensures Valid() && message == old(message) + old(input[..ilen])
    {
      hide Folded, Splice;
      if ilen == 0 {
        assert message + input[..0] == message;
        return;
      }
      ghost var m, data := message, input[..ilen];
      LengthModBlock(total1, total0);
      var left := total0 % 64;
      CountUp(total1, total0, ilen);
      total0 := (total0 as int + ilen) % WORD;
      if total0 < ilen { total1 := (total1 as int + 1) % WORD; }
      Absorb(input, ilen, left);
      message := m + data;
    }

    static lemma Aligned(n: nat)
      ensures (n + (64 - n % 64)) % 64 == 0
    {
    }

    static lemma OneBlockOn(n: nat)
      ensures (n + 64) % 64 == n % 64
    {
    }

    /** Fills the buffered block if the input reaches its end, folds in whole blocks, buffers the rest. */
    method Absorb(input: array<Byte>, ilen: nat, start: nat)
      requires state.Length == 8 && buffer.Length == 64 && ilen <= input.Length && input != buffer
      requires start == |message| % 64 && Folded(state[..], buffer[..], message)
      modifies state, buffer
      ensures Folded(state[..], buffer[..], message + input[..ilen])
    {
      hide Folded, Splice, Fold, InitialState, Compress;
      var left, pos := start, 0;
      assert message + input[..0] == message;
      if left != 0 && ilen >= 64 - left {
        pos := FillBuffer(input, left);
        left := 0;
        Aligned(|message|);
      }
      while ilen - pos >= 64
        invariant pos <= ilen && left == (|message| + pos) % 64 && (left != 0 ==> ilen - pos < 64 - left)
        invariant Folded(state[..], buffer[..], message + input[..pos])
      {
        BlockStep(state[..], buffer[..], message + input[..pos], input[pos..pos + 64]);
        NextPart(message, input[..], pos, 64);
        Process(state, input, pos);
        OneBlockOn(|message| + pos);
        pos := pos + 64;
      }
      if ilen - pos > 0 {
        TailStep(state[..], buffer[..], message + input[..pos], input[pos..ilen]);
        NextPart(message, input[..], pos, ilen - pos);
        CopyInto(buffer, left, input[pos..ilen]);
      }
    }

    method FillBuffer(input: array<Byte>, left: nat) returns (pos: nat)
      requires state.Length == 8 && buffer.Length == 64 && input != buffer && 64 - left <= input.Length
      requires 0 < left < 64 && left == |message| % 64 && Folded(state[..], buffer[..], message)
      modifies state, buffer
      ensures pos == 64 - left && (|message| + pos) % 64 == 0
      ensures Folded(state[..], buffer[..], message + input[..pos])
    {
      hide Folded, Splice, Fold, InitialState, Compress;
      pos := 64 - left;
      ghost var b := buffer[..];
      CopyInto(buffer, left, input[..pos]);
      FullBuffer(b, left, input[..pos]);
      assert buffer[0..0 + 64] == buffer[..];
      FillStep(state[..], b, message, input[..pos], buffer[..]);
      Process(state, buffer, 0);
    }

    /** Padding and length, then the state as bytes. */
    method Finish(output: array<Byte>)
      requires Valid() && output.Length >= 32 && output != buffer && |message| < 0x2000_0000_0000_0000
      modifies this, state, buffer, output
      ensures output[..] == Splice(old(output[..]), 0, Hash(old(message)))
    {
      hide Hash, Padded, Folded, Splice;
      ghost var m := message;
      var msglen := LengthBytes();
      LengthModBlock(total1, total0);
      var last := total0 % 64;
      var padn := if last < 56 then 56 - last else 120 - last;
      var padding := new Byte[64](i => if i == 0 then 0x80 else 0);
      PaddingParts(m, padding[..], padn, msglen[..]);
      Update(padding, padn);
      assert msglen[..8] == msglen[..];
      Update(msglen, 8);
      FoldedWhole(state[..], buffer[..], message);
      WriteDigest(output);
      HashIs(m, message);
    }

    /** The message length in bits, in eight big-endian bytes. */
    method LengthBytes() returns (msglen: array<Byte>)
      requires Valid() && |message| < 0x2000_0000_0000_0000
      ensures fresh(msglen) && msglen.Length == 8 && msglen[..] == BigBytes(8 * |message|, 8)
    {
      hide BigBytes, BitOr, Folded;
      BitLength(total1, total0, |message|);
      var high: Word := BitOr(total0 / 0x2000_0000, (total1 * 8) % WORD);
      var low: Word := (total0 * 8) % WORD;
      msglen := new Byte[8];
      ghost var o := msglen[..];
      PutWord(high, msglen, 0);
      PutWord(low, msglen, 4);
      TwoWords(o, high, low);
    }

    method WriteDigest(output: array<Byte>)
      requires state.Length == 8 && output.Length >= 32
      modifies output
      ensures output[..] == Splice(old(output[..]), 0, Digest(state[..]))
    {
      hide Splice, BigBytes;
      ghost var o := output[..];
      SpliceEmpty(o, 0);
      for i := 0 to 8
        invariant output[..] == Splice(o, 0, DigestPrefix(state[..], i))
      {
        SpliceSplice(o, 0, DigestPrefix(state[..], i), BigBytes(state[i], 4));
        PutWord(state[i], output, 4 * i);
      }
      DigestAll(state[..]);
    }
  }

  /** The first n words of the state as bytes. */
  function DigestPrefix(s: State, n: nat): (d: seq<Byte>)
    requires n <= 8
    ensures |d| == 4 * n
  {
    if n == 0 then [] else DigestPrefix(s, n - 1) + BigBytes(s[n - 1], 4)
  }

  lemma DigestAll(s: State)
    ensures DigestPrefix(s, 8) == Digest(s)
  {
    hide BigBytes;
    assert DigestPrefix(s, 4) == BigBytes(s[0], 4) + BigBytes(s[1], 4) + BigBytes(s[2], 4) + BigBytes(s[3], 4) by {
      assert DigestPrefix(s, 0) + BigBytes(s[0], 4) == BigBytes(s[0], 4);
      assert DigestPrefix(s, 2) == BigBytes(s[0], 4) + BigBytes(s[1], 4);
    }
    assert DigestPrefix(s, 6) == DigestPrefix(s, 4) + BigBytes(s[4], 4) + BigBytes(s[5], 4);
  }

  /** PUT_UINT32_BE */
  method PutWord(w: Word, b: array<Byte>, i: nat)
    requires i + 4 <= b.Length
    modifies b
    ensures b[..] == Splice(old(b[..]), i, BigBytes(w, 4))
  {
    WordBytes(w);
    b[i] := w / 0x100_0000;
    b[i + 1] := (w / 0x1_0000) % 256;
    b[i + 2] := (w / 256) % 256;
    b[i + 3] := w % 256;
  }

  lemma WordBytes(w: Word)
    ensures BigBytes(w, 4) == [w / 0x100_0000, (w / 0x1_0000) % 256, (w / 256) % 256, w % 256]
  {
    var a, b, c := w / 256, w / 256 / 256, w / 256 / 256 / 256;
    assert BigBytes(c, 1) == [c % 256];
    assert BigBytes(b, 2) == BigBytes(c, 1) + [b % 256];
    assert BigBytes(a, 3) == BigBytes(b, 2) + [a % 256];
  }

  lemma LengthModBlock(t1: Word, t0: Word)
    ensures (t1 * WORD + t0) % 64 == t0 % 64
  {
    assert t1 * WORD + t0 == 64 * (t1 * 0x400_0000) + t0;
  }

  /** The two-word count, with its carry detected by the wrapped sum being smaller than what was added. */
  lemma CountUp(t1: Word, t0: Word, n: nat)
    requires n < WORD && t1 * WORD + t0 + n < WORD * WORD
    ensures var s := (t0 + n) % WORD;
            var c := if s < n then (t1 + 1) % WORD else t1;
            c * WORD + s == t1 * WORD + t0 + n
  {
    if t0 + n >= WORD {
      assert (t0 + n) % WORD == t0 + n - WORD;
    }
  }

  lemma BitLength(t1: Word, t0: Word, n: nat)
    requires n == t1 * WORD + t0 < 0x2000_0000_0000_0000
    ensures var high := BitOr(t0 / 0x2000_0000, (t1 * 8) % WORD);
            0 <= high < WORD && high * WORD + (t0 * 8) % WORD == 8 * n
  {
    var q, r := t0 / 0x2000_0000, t0 % 0x2000_0000;
    BitLengthArith(t1, q, r);
    assert Pow2(3) == 8;
    hide BitOr, Pow2;
    BitOrDisjoint(t1, q, 3);
  }

  lemma BitLengthArith(t1: Word, q: nat, r: nat)
    requires r < 0x2000_0000 && q < 8 && t1 * WORD + (q * 0x2000_0000 + r) < 0x2000_0000_0000_0000
    ensures (t1 * 8) % WORD == t1 * 8 && t1 * 8 + q < WORD
    ensures ((q * 0x2000_0000 + r) * 8) % WORD == r * 8
    ensures (t1 * 8 + q) * WORD + r * 8 == 8 * (t1 * WORD + (q * 0x2000_0000 + r))
  {
    assert (q * 0x2000_0000 + r) * 8 == WORD * q + 8 * r;
  }

  lemma TwoWords(o: seq<Byte>, high: Word, low: Word)
    requires |o| == 8
    ensures Splice(Splice(o, 0, BigBytes(high, 4)), 4, BigBytes(low, 4)) == BigBytes(high * WORD + low, 8)
  {
    hide Splice, BigBytes;
    SpliceSplice(o, 0, BigBytes(high, 4), BigBytes(low, 4));
    SpliceWhole(o, BigBytes(high, 4) + BigBytes(low, 4));
    WordPowers();
    assert 8 * 4 == 32;
    hide Pow2;
    BigBytesSplit(high, low, 4);
  }

  lemma {:induction false} BigBytesSplit(high: nat, low: nat, n: nat)
    requires low < Pow2(8 * n)
    ensures BigBytes(high, 4) + BigBytes(low, n) == BigBytes(high * Pow2(8 * n) + low, n + 4)
  {
    if n == 0 {
      assert BigBytes(high, 4) + [] == BigBytes(high, 4) && high * 1 == high;
    } else {
      BytePower(n);
      var w, q, r := Pow2(8 * (n - 1)), low / 256, low % 256;
      assert low == 256 * q + r && q < w;
      SplitLow(high, w, q, r);
      BigBytesSplit(high, q, n - 1);
    }
  }

  lemma SplitLow(high: nat, w: nat, q: nat, r: nat)
    requires r < 256
    ensures (high * (256 * w) + (256 * q + r)) / 256 == high * w + q
    ensures (high * (256 * w) + (256 * q + r)) % 256 == r
  {
    assert high * (256 * w) == 256 * (high * w);
  }

  lemma FullBuffer(b: seq<Byte>, left: nat, more: seq<Byte>)
    requires |b| == 64 && left + |more| == 64
    ensures Splice(b, left, more) == b[..left] + more
  {
  }

  /** Completing the buffered block and folding it in. */
  lemma FillStep(s: State, b: seq<Byte>, m: seq<Byte>, more: seq<Byte>, full: seq<Byte>)
    requires Folded(s, b, m) && |m| % 64 + |more| == 64 && full == b[..|m| % 64] + more
    ensures forall b': seq<Byte> :: |b'| == 64 ==> Folded(Compress(s, full), b', m + more)
  {
    hide Compress, Fold, InitialState;
    var n := |m| - |m| % 64;
    FoldBlock(InitialState(), m[..n], full);
    assert m + more == m[..n] + full;
    assert (m + more)[..|m + more|] == m + more && (m + more)[|m + more|..] == [];
  }

  lemma BlockStep(s: State, b: seq<Byte>, m: seq<Byte>, block: seq<Byte>)
    requires Folded(s, b, m) && |block| == 64
    ensures |m| % 64 == 0 ==> Folded(Compress(s, block), b, m + block)
  {
    if |m| % 64 == 0 {
      assert b[..0] + block == block;
      FillStep(s, b, m, block, block);
    }
  }

  lemma TailStep(s: State, b: seq<Byte>, m: seq<Byte>, more: seq<Byte>)
    requires Folded(s, b, m) && |m| % 64 + |more| < 64
    ensures Folded(s, Splice(b, |m| % 64, more), m + more)
  {
    hide Fold, InitialState, Splice;
    var left := |m| % 64;
    var n := |m| - left;
    SpliceHead(b, left, more);
    assert (m + more)[..n] == m[..n] && (m + more)[n..] == m[n..] + more;
    LengthMod(n, left + |more|);
  }

  lemma SpliceHead(b: seq<Byte>, p: nat, more: seq<Byte>)
    requires p + |more| <= |b|
    ensures Splice(b, p, more)[..p + |more|] == b[..p] + more
  {
  }

  lemma LengthMod(n: nat, r: nat)
    requires n % 64 == 0 && r < 64
    ensures (n + r) % 64 == r
  {
  }

  lemma NextPart(m: seq<Byte>, input: seq<Byte>, pos: nat, n: nat)
    requires pos + n <= |input|
    ensures (m + input[..pos]) + input[pos..pos + n] == m + input[..pos + n]
  {
    assert input[..pos] + input[pos..pos + n] == input[..pos + n];
  }

  lemma FoldedWhole(s: State, b: seq<Byte>, m: seq<Byte>)
    requires Folded(s, b, m) && |m| % 64 == 0
    ensures s == Fold(InitialState(), m)
  {
    hide Fold, InitialState;
    assert m[..|m|] == m;
  }

  lemma PaddingParts(m: seq<Byte>, padding: seq<Byte>, padn: nat, msglen: seq<Byte>)
    requires |padding| == 64 && padding[0] == 0x80 && forall k :: 1 <= k < 64 ==> padding[k] == 0
    requires var last := |m| % 64; padn == if last < 56 then 56 - last else 120 - last
    requires msglen == BigBytes(8 * |m|, 8)
    ensures 0 < padn <= 64 && (m + padding[..padn]) + msglen == Padded(m) && |Padded(m)| % 64 == 0
  {
    hide BigBytes;
    assert padn == 1 + ZeroCount(|m|);
    assert padding[..padn] == [0x80] + ZeroBytes(ZeroCount(|m|));
  }

  lemma HashIs(m: seq<Byte>, p: seq<Byte>)
    requires p == Padded(m)
    ensures Hash(m) == Digest(Fold(InitialState(), p))
  {
  }

  /** core_sha256 */
  method HashBuffer(input: array<Byte>, ilen: nat, output: array<Byte>)
    requires ilen <= input.Length && ilen < WORD && output.Length >= 32
    modifies output
    ensures output[..] == Splice(old(output[..]), 0, Hash(old(input[..ilen])))
  {
    var ctx := new Context();
    ctx.Update(input, ilen);
    assert [] + input[..ilen] == input[..ilen];
    ctx.Finish(output);
  }

  /** The key padded with zeros to a block, every byte combined with the constant. */
  function KeyPad(key: seq<Byte>, x: Byte): (r: seq<Byte>)
    requires |key| <= 64
    ensures |r| == 64
  {
    var k := key + ZeroBytes(64 - |key|);
    seq(64, i requires 0 <= i < 64 => XorByte(k[i], x))
  }

  /** Section 2 of RFC 2104. */
  function Hmac(key: seq<Byte>, m: seq<Byte>): seq<Byte>
    requires |key| <= 64
  {
    Hash(KeyPad(key, 0x5c) + Hash(KeyPad(key, 0x36) + m))
  }

  /** core_hmac_sha256; a key of more than one block leaves the output untouched. */
  method HmacBuffer(msg: array<Byte>, msgLen: nat, key: array<Byte>, keyLen: nat, output: array<Byte>)
    requires msgLen <= msg.Length && keyLen <= key.Length && msgLen < WORD && keyLen < WORD && output.Length >= 32
    modifies output
    ensures output[..] == if keyLen > 64 then old(output[..])
                          else Splice(old(output[..]), 0, Hmac(old(key[..keyLen]), old(msg[..msgLen])))
  {
    hide Hash, KeyPad, Splice, Fold, InitialState, Folded;
    if keyLen > 64 { return; }
    ghost var o, m := output[..], msg[..msgLen];
    var kIpad := MakePad(key[..keyLen], 0x36);
    var kOpad := MakePad(key[..keyLen], 0x5c);
    assert kIpad[..64] == kIpad[..] && kOpad[..64] == kOpad[..];
    var inner := new Context();
    inner.Update(kIpad, 64);
    inner.Update(msg, msgLen);
    assert ([] + kIpad[..64]) + m == kIpad[..] + m;
    inner.Finish(output);
    ghost var digest := Hash(kIpad[..] + m);
    SpliceRead(o, 0, digest);
    assert output[..32] == output[..][0..0 + 32];
    var outer := new Context();
    outer.Update(kOpad, 64);
    outer.Update(output, 32);
    assert ([] + kOpad[..64]) + digest == kOpad[..] + digest;
    outer.Finish(output);
    SpliceOver(o, 0, digest, Hash(kOpad[..] + digest));
  }

  method MakePad(key: seq<Byte>, x: Byte) returns (pad: array<Byte>)
    requires |key| <= 64
    ensures fresh(pad) && pad.Length == 64 && pad[..] == KeyPad(key, x)
  {
    hide XorByte, Splice;
    pad := new Byte[64](_ => 0);
    ghost var zeros := pad[..];
    CopyInto(pad, 0, key);
    ghost var k := key + ZeroBytes(64 - |key|);
    KeyThenZeros(zeros, key);
    for i := 0 to 64
      invariant forall j :: 0 <= j < 64 ==> pad[j] == if j < i then XorByte(k[j], x) else k[j]
    {
      pad[i] := XorByte(pad[i], x);
    }
    assert pad[..] == KeyPad(key, x);
  }

  lemma KeyThenZeros(zeros: seq<Byte>, key: seq<Byte>)
    requires |zeros| == 64 && |key| <= 64 && forall k :: 0 <= k < 64 ==> zeros[k] == 0
    ensures Splice(zeros, 0, key) == key + ZeroBytes(64 - |key|)
  {
  }

  ghost predicate Folded(state: seq<Word>, buffer: seq<Byte>, m: seq<Byte>) {
    && |state| == 8 && |buffer| == 64
    && var n := |m| - |m| % 64;
    && state == Fold(InitialState(), m[..n]) && buffer[..|m| - n] == m[n..]
  }
}
