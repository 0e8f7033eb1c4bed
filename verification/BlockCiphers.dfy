/** A block cipher as an abstract permutation of 16-byte blocks. */
module BlockCiphers {
  import opened Bytes
  import opened Buffers

  type Block = b: seq<Byte> | |b| == 16 witness seq(16, _ => 0)

  /** The keyed block function and the function that undoes it. */
  datatype BlockCipher = BlockCipher(enc: Block -> Block, dec: Block -> Block)

  datatype Mode = Encrypt | Decrypt

  datatype AesStatus = Ok | InvalidInputLength | BadInputData

  ghost predicate Invertible(c: BlockCipher) {
    && (forall b: Block :: c.dec(c.enc(b)) == b)
    && (forall b: Block :: c.enc(c.dec(b)) == b)
  }

  /** One block through the cipher in the given direction. */
  function Crypt(c: BlockCipher, mode: Mode, b: Block): Block {
    if mode == Encrypt then c.enc(b) else c.dec(b)
  }

  /** The exclusive or of two blocks, written at `at` byte by byte. */
  method XorInto(output: array<Byte>, at: nat, a: Block, b: Block)
    requires at + 16 <= output.Length
    modifies output
    ensures output[..] == Splice(old(output[..]), at, Xor(a, b))
  {
    ghost var done: seq<Byte> := [];
    SpliceEmpty(output[..], at);
    for i := 0 to 16
      invariant done == Xor(a, b)[..i]
      invariant output[..] == Splice(old(output[..]), at, done)
    {
      SpliceSnoc(old(output[..]), at, done, XorByte(a[i], b[i]));
      output[at + i] := XorByte(a[i], b[i]);
      done := done + [XorByte(a[i], b[i])];
    }
    assert done == Xor(a, b);
  }
}
