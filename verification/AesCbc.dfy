/** Cipher block chaining over an abstract block cipher. */
module AesCbc {
  import opened Buffers
  import opened Bytes
  import opened BlockCiphers

  predicate WholeBlocks(data: seq<Byte>) {
    |data| % 16 == 0
  }

  /** Section 6.2 of NIST SP 800-38A, block by block. */
  function CbcEncrypt(c: BlockCipher, iv: Block, p: seq<Byte>): (r: seq<Byte>)
    requires WholeBlocks(p)
    ensures |r| == |p|
    decreases |p|
  {
    if p == [] then []
    else
      var first := c.enc(Xor(p[..16], iv));
      first + CbcEncrypt(c, first, p[16..])
  }

  function CbcDecrypt(c: BlockCipher, iv: Block, x: seq<Byte>): (r: seq<Byte>)
    requires WholeBlocks(x)
    ensures |r| == |x|
    decreases |x|
  {
    if x == [] then []
    else Xor(c.dec(x[..16]), iv) + CbcDecrypt(c, x[..16], x[16..])
  }

  function Cbc(c: BlockCipher, mode: Mode, iv: Block, data: seq<Byte>): (r: seq<Byte>)
    requires WholeBlocks(data)
    ensures |r| == |data|
  {
    if mode == Encrypt then CbcEncrypt(c, iv, data) else CbcDecrypt(c, iv, data)
  }

  /** The chaining value after the ciphertext x. */
  function Chain(iv: Block, x: seq<Byte>): Block
    requires WholeBlocks(x)
  {
    if x == [] then iv else x[|x| - 16..]
  }

  /** The ciphertext side of a call: what it produced or what it was given. */
  function Ciphertext(mode: Mode, input: seq<Byte>, output: seq<Byte>): seq<Byte> {
    if mode == Encrypt then output else input
  }

  lemma CbcCons(c: BlockCipher, iv: Block, b: Block, rest: seq<Byte>)
    requires WholeBlocks(rest)
    ensures CbcEncrypt(c, iv, b + rest) == c.enc(Xor(b, iv)) + CbcEncrypt(c, c.enc(Xor(b, iv)), rest)
    ensures CbcDecrypt(c, iv, b + rest) == Xor(c.dec(b), iv) + CbcDecrypt(c, b, rest)
  {
    assert (b + rest)[..16] == b && (b + rest)[16..] == rest;
  }

  lemma ChainCons(iv: Block, first: Block, rest: seq<Byte>)
    requires WholeBlocks(rest)
    ensures Chain(iv, first + rest) == Chain(first, rest)
  {
    var all := first + rest;
    if rest == [] {
      assert all[|all| - 16..] == first;
    } else {
      assert all[|all| - 16..] == rest[|rest| - 16..];
    }
  }

  lemma Peel(x: seq<Byte>, y: seq<Byte>) returns (b: Block, rest: seq<Byte>)
    requires x != [] && WholeBlocks(x)
    ensures b == x[..16] && x == b + rest && x + y == b + (rest + y) && |rest| < |x| && WholeBlocks(rest)
  {
    b, rest := x[..16], x[16..];
  }

  lemma {:induction false} CbcEncryptSplit(c: BlockCipher, iv: Block, p: seq<Byte>, q: seq<Byte>)
    requires WholeBlocks(p) && WholeBlocks(q)
    ensures CbcEncrypt(c, iv, p + q) == CbcEncrypt(c, iv, p) + CbcEncrypt(c, Chain(iv, CbcEncrypt(c, iv, p)), q)
    decreases |p|
  {
    if p == [] {
      assert p + q == q;
    } else {
      hide CbcEncrypt, Chain, Xor;
      var b, rest := Peel(p, q);
      var first := c.enc(Xor(b, iv));
      CbcCons(c, iv, b, rest);
      CbcCons(c, iv, b, rest + q);
      CbcEncryptSplit(c, first, rest, q);
      ChainCons(iv, first, CbcEncrypt(c, first, rest));
      Assoc(first, CbcEncrypt(c, first, rest), CbcEncrypt(c, Chain(first, CbcEncrypt(c, first, rest)), q));
    }
  }

  lemma {:induction false} CbcDecryptSplit(c: BlockCipher, iv: Block, x: seq<Byte>, y: seq<Byte>)
    requires WholeBlocks(x) && WholeBlocks(y)
    ensures CbcDecrypt(c, iv, x + y) == CbcDecrypt(c, iv, x) + CbcDecrypt(c, Chain(iv, x), y)
    decreases |x|
  {
    if x == [] {
      assert x + y == y;
    } else {
      hide CbcDecrypt, Chain, Xor;
      var b, rest := Peel(x, y);
      var first := Xor(c.dec(b), iv);
      CbcCons(c, iv, b, rest);
      CbcCons(c, iv, b, rest + y);
      CbcDecryptSplit(c, b, rest, y);
      ChainCons(iv, b, rest);
      Assoc(first, CbcDecrypt(c, b, rest), CbcDecrypt(c, Chain(b, rest), y));
    }
  }

  lemma Assoc<T>(a: seq<T>, b: seq<T>, c: seq<T>)
    ensures a + (b + c) == a + b + c
  {
  }

  /** A call that continues from the chaining value of the previous one continues the message. */
  lemma CbcSplit(c: BlockCipher, mode: Mode, iv: Block, p: seq<Byte>, q: seq<Byte>)
    requires WholeBlocks(p) && WholeBlocks(q)
    ensures Cbc(c, mode, iv, p + q) ==
            Cbc(c, mode, iv, p) + Cbc(c, mode, Chain(iv, Ciphertext(mode, p, Cbc(c, mode, iv, p))), q)
  {
    CbcEncryptSplit(c, iv, p, q);
    CbcDecryptSplit(c, iv, p, q);
  }

  /** Decryption undoes encryption from the same initialisation vector. */
  lemma {:induction false} CbcInverse(c: BlockCipher, iv: Block, p: seq<Byte>)
    requires Invertible(c) && WholeBlocks(p)
    ensures CbcDecrypt(c, iv, CbcEncrypt(c, iv, p)) == p
    decreases |p|
  {
    if p != [] {
      hide CbcEncrypt, CbcDecrypt, Xor;
      var b, rest := Peel(p, []);
      var first := c.enc(Xor(b, iv));
      CbcCons(c, iv, b, rest);
      CbcCons(c, iv, first, CbcEncrypt(c, first, rest));
      CbcInverse(c, first, rest);
      assert c.dec(first) == Xor(b, iv);
      XorTwice(b, iv);
    } else {
      assert CbcEncrypt(c, iv, p) == [];
    }
  }

  lemma OneBlock(c: BlockCipher, mode: Mode, iv: Block, b: Block)
    ensures Cbc(c, mode, iv, b) == if mode == Encrypt then c.enc(Xor(b, iv)) else Xor(c.dec(b), iv)
  {
    assert b[..16] == b && b[16..] == [];
  }

  /** CBC over whole blocks at `input + ip`, written to `output + op`; the two may be the same place. `iv` becomes
      the last ciphertext block. */
  method CryptCbc(c: BlockCipher, mode: Mode, length: nat, iv: array<Byte>, input: array<Byte>, ip: nat,
                  output: array<Byte>, op: nat) returns (ret: AesStatus)
    requires iv.Length == 16 && iv != input && iv != output && (input == output ==> ip == op)
    requires ip + length <= input.Length && op + length <= output.Length
    modifies iv, output
    ensures ret == if length % 16 == 0 then Ok else InvalidInputLength
    ensures ret.InvalidInputLength? ==> iv[..] == old(iv[..]) && output[..] == old(output[..])
    ensures ret.Ok? ==>
      var data := old(input[ip..ip + length]);
      var r := Cbc(c, mode, old(iv[..]), data);
      && output[..] == Splice(old(output[..]), op, r)
      && iv[..] == Chain(old(iv[..]), Ciphertext(mode, data, r))
  {
    if length % 16 != 0 { return InvalidInputLength; }
    hide Splice, Cbc, Chain, Reached;
    ghost var iv0: Block, data, out0 := iv[..], input[ip..ip + length], output[..];
    CbcBlocks(c, mode, length, iv, input, ip, output, op);
    Finish(c, mode, iv0, data, out0, op, output[..], iv[..]);
    return Ok;
  }

  method CbcBlocks(c: BlockCipher, mode: Mode, length: nat, iv: array<Byte>, input: array<Byte>, ip: nat,
                   output: array<Byte>, op: nat)
    requires iv.Length == 16 && iv != input && iv != output && (input == output ==> ip == op)
    requires ip + length <= input.Length && op + length <= output.Length && length % 16 == 0
    modifies iv, output
    ensures Reached(c, mode, old(iv[..]), old(input[ip..ip + length]), old(output[..]), op, length, output[..], iv[..])
  {
    hide Splice, Cbc, Chain, Reached;
    ghost var iv0: Block, data, out0 := iv[..], input[ip..ip + length], output[..];
    Start(c, mode, iv0, data, out0, op);
    var pos := 0;
    while pos < length
      invariant 0 <= pos <= length && pos % 16 == 0
      invariant input[ip + pos..ip + length] == data[pos..]
      invariant Reached(c, mode, iv0, data, out0, op, pos, output[..], iv[..])
    {
      CbcRound(c, mode, iv, input, ip, output, op, pos, iv0, data, out0);
      pos := pos + 16;
    }
  }

  /** Output and chaining value once the first pos bytes have been processed. */
  ghost predicate Reached(c: BlockCipher, mode: Mode, iv0: Block, data: seq<Byte>, out0: seq<Byte>, op: nat, pos: nat,
                          o: seq<Byte>, iv: seq<Byte>)
  {
    && pos % 16 == 0 && pos <= |data| && op + pos <= |out0|
    && var r := Cbc(c, mode, iv0, data[..pos]);
    && o == Splice(out0, op, r) && iv == Chain(iv0, Ciphertext(mode, data[..pos], r))
  }

  lemma Start(c: BlockCipher, mode: Mode, iv0: Block, data: seq<Byte>, out0: seq<Byte>, op: nat)
    requires op <= |out0|
    ensures Reached(c, mode, iv0, data, out0, op, 0, out0, iv0)
  {
    SpliceEmpty(out0, op);
    assert data[..0] == [];
  }

  lemma Finish(c: BlockCipher, mode: Mode, iv0: Block, data: seq<Byte>, out0: seq<Byte>, op: nat, o: seq<Byte>,
               iv: seq<Byte>)
    requires Reached(c, mode, iv0, data, out0, op, |data|, o, iv)
    ensures WholeBlocks(data) && op + |data| <= |out0|
    ensures var r := Cbc(c, mode, iv0, data); o == Splice(out0, op, r) && iv == Chain(iv0, Ciphertext(mode, data, r))
  {
    assert data[..|data|] == data;
  }

  /** What one block adds to the message processed so far. */
  lemma Advance(c: BlockCipher, mode: Mode, iv0: Block, data: seq<Byte>, out0: seq<Byte>, op: nat, pos: nat,
                o: seq<Byte>, iv: Block)
    requires Reached(c, mode, iv0, data, out0, op, pos, o, iv) && pos + 16 <= |data| && op + pos + 16 <= |out0|
    ensures |o| == |out0|
    ensures var b := data[pos..pos + 16];
            var r := Cbc(c, mode, iv, b);
            Reached(c, mode, iv0, data, out0, op, pos + 16, Splice(o, op + pos, r), Ciphertext(mode, b, r))
  {
    hide CbcEncrypt, CbcDecrypt, Splice;
    var b := data[pos..pos + 16];
    var done, r := Cbc(c, mode, iv0, data[..pos]), Cbc(c, mode, iv, b);
    CbcSplit(c, mode, iv0, data[..pos], b);
    assert data[..pos] + b == data[..pos + 16];
    SpliceSplice(out0, op, done, r);
    ChainLast(iv0, done, r);
    ChainLast(iv0, data[..pos], b);
  }

  lemma ChainLast(iv: Block, x: seq<Byte>, last: Block)
    requires WholeBlocks(x)
    ensures Chain(iv, x + last) == last
  {
  }

  method CbcRound(c: BlockCipher, mode: Mode, iv: array<Byte>, input: array<Byte>, ip: nat, output: array<Byte>, op: nat,
                  pos: nat, ghost iv0: Block, ghost data: seq<Byte>, ghost out0: seq<Byte>)
    requires iv.Length == 16 && iv != input && iv != output && (input == output ==> ip == op)
    requires pos + 16 <= |data| && ip + |data| <= input.Length && op + |data| <= output.Length == |out0|
    requires input[ip + pos..ip + |data|] == data[pos..]
    requires Reached(c, mode, iv0, data, out0, op, pos, output[..], iv[..])
    modifies iv, output
    ensures input[ip + pos + 16..ip + |data|] == data[pos + 16..]
    ensures Reached(c, mode, iv0, data, out0, op, pos + 16, output[..], iv[..])
  {
    hide Splice, Cbc, Chain, Xor, Reached;
    ghost var b, before := data[pos..pos + 16], input[..];
    NextBlock(before, data, ip, pos);
    Advance(c, mode, iv0, data, out0, op, pos, output[..], iv[..]);
    SpliceKeeps(output[..], op + pos, Cbc(c, mode, iv[..], b));
    CbcStep(c, mode, iv, input, ip + pos, output, op + pos);
    RestThere(before, input[..], data, ip, pos + 16);
  }

  lemma NextBlock(whole: seq<Byte>, data: seq<Byte>, ip: nat, pos: nat)
    requires pos + 16 <= |data| && ip + |data| <= |whole| && whole[ip + pos..ip + |data|] == data[pos..]
    ensures whole[ip + pos..ip + pos + 16] == data[pos..pos + 16]
    ensures whole[ip + pos + 16..ip + |data|] == data[pos + 16..]
  {
    var rest := whole[ip + pos..ip + |data|];
    assert rest[..16] == whole[ip + pos..ip + pos + 16] && data[pos..][..16] == data[pos..pos + 16];
    assert rest[16..] == whole[ip + pos + 16..ip + |data|] && data[pos..][16..] == data[pos + 16..];
  }

  /** One round of either loop. */
  method CbcStep(c: BlockCipher, mode: Mode, iv: array<Byte>, input: array<Byte>, ip: nat, output: array<Byte>, op: nat)
    requires iv.Length == 16 && iv != input && iv != output
    requires ip + 16 <= input.Length && op + 16 <= output.Length
    modifies iv, output
    ensures var b := old(input[ip..ip + 16]);
            var r := Cbc(c, mode, old(iv[..]), b);
            output[..] == Splice(old(output[..]), op, r) && iv[..] == Ciphertext(mode, b, r)
    ensures input != output ==> input[..] == old(input[..])
  {
    var temp: Block := input[ip..ip + 16];
    OneBlock(c, mode, iv[..], temp);
    if mode == Decrypt {
      XorInto(output, op, c.dec(temp), iv[..]);
      SpliceWhole(iv[..], temp);
      CopyInto(iv, 0, temp);
    } else {
      ghost var o0 := output[..];
      XorInto(output, op, temp, iv[..]);
      ghost var mixed := Xor(temp, iv[..]);
      SpliceRead(o0, op, mixed);
      var block := c.enc(output[op..op + 16]);
      SpliceOver(o0, op, mixed, block);
      CopyInto(output, op, block);
      SpliceWhole(iv[..], block);
      CopyInto(iv, 0, block);
    }
  }
}
