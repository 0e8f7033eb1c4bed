/** The CBC path of the generic cipher layer: input in pieces of any size, a cached partial block, padding. */
module CipherStream {
  import opened Bytes
  import opened Buffers
  import opened BlockCiphers
  import opened AesCbc
  import opened CipherPadding

  // ----- what a stream of calls means -----

  /** The chaining value and the input bytes that still wait for their block. */
  datatype Stream = Stream(iv: Block, cached: seq<Byte>)

  /** Decryption with padding must hold back the last whole block: it may be the padded one. */
  predicate HoldsBlock(mode: Mode, p: Padding) {
    mode == Decrypt && p != NoPadding
  }

  /** How many of n bytes are held back. */
  function Held(hold: bool, n: nat): (k: nat)
    ensures k <= n && k <= 16 && (n - k) % 16 == 0
  {
    if hold && n > 0 && n % 16 == 0 then 16 else n % 16
  }

  /** How many of n bytes go through. */
  function Ready(hold: bool, n: nat): (r: nat)
    ensures r <= n && r % 16 == 0 && r == n - Held(hold, n)
  {
    n - Held(hold, n)
  }

  /** One call on any number of bytes: all whole blocks that need not be held back go through. */
  function Feed(c: BlockCipher, mode: Mode, hold: bool, s: Stream, input: seq<Byte>): (r: (seq<Byte>, Stream))
    ensures |r.0| == Ready(hold, |s.cached| + |input|)
  {
    var all := s.cached + input;
    var n := Ready(hold, |all|);
    var o := Cbc(c, mode, s.iv, all[..n]);
    (o, Stream(Chain(s.iv, Ciphertext(mode, all[..n], o)), all[n..]))
  }

  predicate Settled(hold: bool, s: Stream) {
    |s.cached| == Held(hold, |s.cached|)
  }

  lemma HeldSplit(hold: bool, a: nat, b: nat)
    ensures var k := Held(hold, a);
            Held(hold, a + b) == Held(hold, k + b) && (a - k) + ((k + b) - Held(hold, k + b)) == (a + b) - Held(hold, a + b)
    ensures Held(hold, Held(hold, a)) == Held(hold, a)
  {
  }

  /** Two calls are one call on the joined input. */
  lemma FeedSplit(c: BlockCipher, mode: Mode, hold: bool, s: Stream, p: seq<Byte>, q: seq<Byte>)
    ensures var (o, t) := Feed(c, mode, hold, s, p);
            && Settled(hold, t)
            && Feed(c, mode, hold, s, p + q) == (o + Feed(c, mode, hold, t, q).0, Feed(c, mode, hold, t, q).1)
  {
    hide CbcEncrypt, CbcDecrypt, Chain, Held, Cbc, Ready;
    var first := s.cached + p;
    var n := Ready(hold, |first|);
    var (o, t) := Feed(c, mode, hold, s, p);
    ReadySplit(hold, |first|, |q|);
    var m := Ready(hold, |t.cached + q|);
    SplitPieces(s.cached, p, q, n, m);
    CbcSplit(c, mode, s.iv, first[..n], (t.cached + q)[..m]);
    ChainSplit(c, mode, s.iv, first[..n], (t.cached + q)[..m]);
  }

  lemma ReadySplit(hold: bool, a: nat, b: nat)
    ensures var r := Ready(hold, a); Ready(hold, a + b) == r + Ready(hold, (a - r) + b) && Held(hold, a - r) == a - r
  {
    HeldSplit(hold, a, b);
  }

  lemma SplitPieces(x: seq<Byte>, p: seq<Byte>, q: seq<Byte>, n: nat, m: nat)
    requires n <= |x + p| && n + m <= |x + p + q|
    ensures (x + (p + q))[..n + m] == (x + p)[..n] + ((x + p)[n..] + q)[..m]
    ensures (x + (p + q))[n + m..] == ((x + p)[n..] + q)[m..]
  {
    assert x + (p + q) == (x + p)[..n] + ((x + p)[n..] + q);
  }

  lemma ChainSplit(c: BlockCipher, mode: Mode, iv: Block, p: seq<Byte>, q: seq<Byte>)
    requires WholeBlocks(p) && WholeBlocks(q)
    ensures var o := Cbc(c, mode, iv, p);
            var next := Chain(iv, Ciphertext(mode, p, o));
            var o' := Cbc(c, mode, next, q);
            Chain(iv, Ciphertext(mode, p + q, o + o')) == Chain(next, Ciphertext(mode, q, o'))
  {
    hide CbcEncrypt, CbcDecrypt, Cbc;
    var o := Cbc(c, mode, iv, p);
    var o' := Cbc(c, mode, Chain(iv, Ciphertext(mode, p, o)), q);
    if q == [] {
      assert p + q == p && o + o' == o;
    } else {
      LastOfSum(p, q);
      LastOfSum(o, o');
    }
  }

  lemma LastOfSum(p: seq<Byte>, q: seq<Byte>)
    requires |q| >= 16
    ensures (p + q)[|p + q| - 16..] == q[|q| - 16..]
  {
  }

  function Flatten(chunks: seq<seq<Byte>>): seq<Byte> {
    if chunks == [] then [] else Flatten(chunks[..|chunks| - 1]) + chunks[|chunks| - 1]
  }

  /** A whole run of update calls. */
  function FeedAll(c: BlockCipher, mode: Mode, hold: bool, s: Stream, chunks: seq<seq<Byte>>): (seq<Byte>, Stream) {
    if chunks == [] then ([], s)
    else
      var (o, t) := FeedAll(c, mode, hold, s, chunks[..|chunks| - 1]);
      var (o', t') := Feed(c, mode, hold, t, chunks[|chunks| - 1]);
      (o + o', t')
  }

  /** However the input is chopped, output and state are those of a single call. */
  lemma {:induction false} AnyChopping(c: BlockCipher, mode: Mode, hold: bool, s: Stream, chunks: seq<seq<Byte>>)
    requires Settled(hold, s)
    ensures FeedAll(c, mode, hold, s, chunks) == Feed(c, mode, hold, s, Flatten(chunks))
  {
    hide Feed;
    if chunks == [] {
      FeedNothing(c, mode, hold, s);
    } else {
      var n := |chunks| - 1;
      AnyChopping(c, mode, hold, s, chunks[..n]);
      FeedSplit(c, mode, hold, s, Flatten(chunks[..n]), chunks[n]);
    }
  }

  lemma FeedNothing(c: BlockCipher, mode: Mode, hold: bool, s: Stream)
    requires Settled(hold, s)
    ensures Feed(c, mode, hold, s, []) == ([], s)
  {
    assert s.cached + [] == s.cached && s.cached[..0] == [] && s.cached[0..] == s.cached;
  }

  /** What finish adds to the output, if it succeeds. */
  ghost predicate Finishes(c: BlockCipher, mode: Mode, p: Padding, s: Stream, last: seq<Byte>)
    requires |s.cached| <= 16
  {
    if mode == Encrypt then
      if p == NoPadding then s.cached == [] == last
      else |s.cached| < 16 && last == CbcEncrypt(c, s.iv, s.cached + PadBytes(p, 16, |s.cached|))
    else if |s.cached| != 16 then
      p == NoPadding && s.cached == [] == last
    else
      var block := CbcDecrypt(c, s.iv, s.cached);
      |last| <= 16 && last == block[..|last|] && DataEnds(p, block, |last|)
  }

  /** A message with its padding. */
  function PaddedMessage(p: Padding, m: seq<Byte>): (r: seq<Byte>)
    requires p == NoPadding ==> |m| % 16 == 0
    ensures WholeBlocks(r)
  {
    m + PadBytes(p, 16, |m| % 16)
  }

  /** One-shot encryption of the padded message is the output of one call followed by the padded last block. */
  lemma EncryptedOnce(c: BlockCipher, p: Padding, iv: Block, m: seq<Byte>)
    requires p == NoPadding ==> |m| % 16 == 0
    ensures var (o, s) := Feed(c, Encrypt, false, Stream(iv, []), m);
            && |s.cached| == |m| % 16
            && WholeBlocks(s.cached + PadBytes(p, 16, |s.cached|))
            && CbcEncrypt(c, iv, PaddedMessage(p, m)) ==
               o + CbcEncrypt(c, s.iv, s.cached + PadBytes(p, 16, |s.cached|))
  {
    hide CbcEncrypt, CbcDecrypt, Chain, PadBytes;
    var (o, s) := Feed(c, Encrypt, false, Stream(iv, []), m);
    var n := FedOnce(c, iv, m);
    hide Feed;
    PadCompletes(p, |s.cached|);
    var tail := s.cached + PadBytes(p, 16, |s.cached|);
    assert PaddedMessage(p, m) == m[..n] + tail by { assert m == m[..n] + s.cached; }
    CbcEncryptSplit(c, iv, m[..n], tail);
  }

  /** One call encrypts the whole blocks and keeps the rest. */
  lemma FedOnce(c: BlockCipher, iv: Block, m: seq<Byte>) returns (n: nat)
    ensures n <= |m| && WholeBlocks(m[..n]) && |m| - n == |m| % 16
    ensures var (o, s) := Feed(c, Encrypt, false, Stream(iv, []), m);
            o == CbcEncrypt(c, iv, m[..n]) && s == Stream(Chain(iv, o), m[n..])
  {
    hide CbcEncrypt, CbcDecrypt, Chain;
    n := Ready(false, |m|);
    assert [] + m == m;
  }

  lemma PadCompletes(p: Padding, k: nat)
    requires k < 16 && (p == NoPadding ==> k == 0)
    ensures (k + |PadBytes(p, 16, k)|) % 16 == 0
  {
  }

  lemma SameTail<T>(o: seq<T>, a: seq<T>, b: seq<T>)
    ensures o + a == o + b <==> a == b
  {
    if o + a == o + b { assert a == (o + a)[|o|..] == (o + b)[|o|..] == b; }
  }

  /** Encryption in pieces: for every chopping the output is one-shot CBC of the padded message, and finish fails
      exactly for an unpadded message that is not made of whole blocks. */
  lemma EncryptedStream(c: BlockCipher, p: Padding, iv: Block, chunks: seq<seq<Byte>>, last: seq<Byte>)
    ensures var m := Flatten(chunks);
            var (o, s) := FeedAll(c, Encrypt, false, Stream(iv, []), chunks);
            && |s.cached| <= 16
            && (Finishes(c, Encrypt, p, s, last) <==>
                (p == NoPadding ==> |m| % 16 == 0) && o + last == CbcEncrypt(c, iv, PaddedMessage(p, m)))
  {
    hide CbcEncrypt, Feed, FeedAll, PadBytes, PaddedMessage;
    AnyChopping(c, Encrypt, false, Stream(iv, []), chunks);
    var m := Flatten(chunks);
    var (o, s) := Feed(c, Encrypt, false, Stream(iv, []), m);
    CachedLength(c, Encrypt, false, iv, m);
    if p == NoPadding ==> |m| % 16 == 0 {
      EncryptedOnce(c, p, iv, m);
      SameTail(o, last, CbcEncrypt(c, s.iv, s.cached + PadBytes(p, 16, |s.cached|)));
      if p == NoPadding { EmptyTail(c, s); }
    }
  }

  lemma CachedLength(c: BlockCipher, mode: Mode, hold: bool, iv: Block, m: seq<Byte>)
    ensures |Feed(c, mode, hold, Stream(iv, []), m).1.cached| == Held(hold, |m|)
  {
  }

  lemma EmptyTail(c: BlockCipher, s: Stream)
    ensures s.cached == [] ==>
      PadBytes(NoPadding, 16, 0) == [] && WholeBlocks(s.cached + []) && CbcEncrypt(c, s.iv, s.cached + []) == []
  {
  }

  /** The plaintext of a padded ciphertext: all but the last block, and the data of the last block. */
  ghost predicate Plaintext(c: BlockCipher, p: Padding, iv: Block, x: seq<Byte>, m: seq<Byte>) {
    && |x| % 16 == 0
    && var d := CbcDecrypt(c, iv, x);
    if p == NoPadding then m == d
    else
      && 0 < |x| <= |m| + 16 && |m| <= |x|
      && m == d[..|m|] && DataEnds(p, d[|x| - 16..], |m| - (|x| - 16))
  }

  /** One call of decryption and the last block it held back. */
  lemma DecryptedOnce(c: BlockCipher, hold: bool, iv: Block, x: seq<Byte>)
    requires |x| % 16 == 0
    ensures var (o, s) := Feed(c, Decrypt, hold, Stream(iv, []), x);
            |s.cached| % 16 == 0 && CbcDecrypt(c, iv, x) == o + CbcDecrypt(c, s.iv, s.cached)
  {
    hide CbcDecrypt, CbcEncrypt, Chain;
    var n := |x| - Held(hold, |x|);
    assert [] + x == x && x == x[..n] + x[n..];
    CbcDecryptSplit(c, iv, x[..n], x[n..]);
  }

  /** Decryption in pieces: for every chopping it succeeds exactly when the ciphertext is that of some message under
      this padding, and then gives that message. */
  lemma DecryptedStream(c: BlockCipher, p: Padding, iv: Block, chunks: seq<seq<Byte>>, last: seq<Byte>)
    ensures var x := Flatten(chunks);
            var (o, s) := FeedAll(c, Decrypt, HoldsBlock(Decrypt, p), Stream(iv, []), chunks);
            && |s.cached| <= 16
            && (Finishes(c, Decrypt, p, s, last) <==> Plaintext(c, p, iv, x, o + last))
  {
    hide CbcDecrypt, Feed, FeedAll, DataEnds;
    var hold := HoldsBlock(Decrypt, p);
    AnyChopping(c, Decrypt, hold, Stream(iv, []), chunks);
    var x := Flatten(chunks);
    var (o, s) := Feed(c, Decrypt, hold, Stream(iv, []), x);
    CachedLength(c, Decrypt, hold, iv, x);
    FedLength(c, Decrypt, hold, iv, x);
    if |x| % 16 == 0 {
      DecryptedOnce(c, hold, iv, x);
      LastBlock(c, p, s, o, CbcDecrypt(c, iv, x), last);
    }
  }

  lemma FedLength(c: BlockCipher, mode: Mode, hold: bool, iv: Block, m: seq<Byte>)
    ensures |Feed(c, mode, hold, Stream(iv, []), m).0| == |m| - Held(hold, |m|)
  {
    hide Held, Cbc, Chain;
    assert [] + m == m;
  }

  lemma LastBlock(c: BlockCipher, p: Padding, s: Stream, o: seq<Byte>, d: seq<Byte>, last: seq<Byte>)
    requires if p == NoPadding then s.cached == [] else s.cached == [] == o || |s.cached| == 16
    requires WholeBlocks(s.cached) && d == o + CbcDecrypt(c, s.iv, s.cached)
    ensures Finishes(c, Decrypt, p, s, last) <==>
            if p == NoPadding then o + last == d
            else
              && 0 < |d| <= |o + last| + 16 && |o + last| <= |d|
              && o + last == d[..|o + last|] && DataEnds(p, d[|d| - 16..], |o + last| - (|d| - 16))
  {
    hide DataEnds;
    var block := CbcDecrypt(c, s.iv, s.cached);
    if p == NoPadding {
      assert d == o;
      SameTail(o, last, []);
      assert o + [] == o;
    } else if s.cached != [] {
      assert d[|d| - 16..] == block;
      if |last| <= 16 {
        assert d[..|o + last|] == o + block[..|last|];
        SameTail(o, last, block[..|last|]);
      }
    }
  }

  /** What encryption in any pieces produced, decryption in any other pieces turns back into the message, for every
      padding that carries its length and for whole blocks without padding. */
  lemma StreamRoundTrip(c: BlockCipher, p: Padding, iv: Block, m: seq<Byte>, chunks: seq<seq<Byte>>, last: seq<Byte>)
    requires Invertible(c) && p != Zeros && (p == NoPadding ==> |m| % 16 == 0)
    requires Flatten(chunks) == CbcEncrypt(c, iv, PaddedMessage(p, m))
    ensures var (o, s) := FeedAll(c, Decrypt, HoldsBlock(Decrypt, p), Stream(iv, []), chunks);
            |s.cached| <= 16 && (Finishes(c, Decrypt, p, s, last) <==> o + last == m)
  {
    hide CbcDecrypt, CbcEncrypt, FeedAll, DataEnds, Finishes;
    DecryptedStream(c, p, iv, chunks, last);
    CbcInverse(c, iv, PaddedMessage(p, m));
    var (o, s) := FeedAll(c, Decrypt, HoldsBlock(Decrypt, p), Stream(iv, []), chunks);
    if p != NoPadding {
      PaddedEnds(p, m);
      UniquePlaintext(p, m, o + last);
    } else {
      assert PaddedMessage(p, m) == m;
    }
  }

  lemma PaddedEnds(p: Padding, m: seq<Byte>)
    requires p != NoPadding
    ensures var d := PaddedMessage(p, m);
            && |d| == |m| - |m| % 16 + 16 && m == d[..|m|]
            && d[|d| - 16..] == m[|m| - |m| % 16..] + PadBytes(p, 16, |m| % 16)
    ensures p != Zeros ==> DataEnds(p, PaddedMessage(p, m)[|m| - |m| % 16..], |m| % 16)
    ensures p == Zeros ==>
      (DataEnds(p, PaddedMessage(p, m)[|m| - |m| % 16..], |m| % 16) <==> |m| % 16 == 0 || m[|m| - 1] != 0)
  {
    hide PadBytes, DataEnds;
    var n := |m| - |m| % 16;
    assert PaddedMessage(p, m)[n..] == m[n..] + PadBytes(p, 16, |m[n..]|);
    if p == Zeros { ZeroPaddingEnds(m[n..], 16); } else { PaddingEnds(p, m[n..], 16); }
  }

  lemma UniquePlaintext(p: Padding, m: seq<Byte>, r: seq<Byte>)
    requires p != NoPadding && p != Zeros
    ensures var d := PaddedMessage(p, m);
            (0 < |d| <= |r| + 16 && |r| <= |d| && r == d[..|r|] && DataEnds(p, d[|d| - 16..], |r| - (|d| - 16))) <==> r == m
  {
    hide DataEnds;
    var d := PaddedMessage(p, m);
    PaddedEnds(p, m);
    if 0 < |d| <= |r| + 16 && |r| <= |d| && r == d[..|r|] && DataEnds(p, d[|d| - 16..], |r| - (|d| - 16)) {
      DataEndsOnce(p, d[|d| - 16..], |r| - (|d| - 16), |m| % 16);
    }
  }

  /** With zero padding the message comes back exactly when it is made of whole blocks or does not end in a zero
      byte. */
  lemma ZerosRoundTrip(c: BlockCipher, iv: Block, m: seq<Byte>, chunks: seq<seq<Byte>>)
    requires Invertible(c) && Flatten(chunks) == CbcEncrypt(c, iv, PaddedMessage(Zeros, m))
    ensures var (o, s) := FeedAll(c, Decrypt, true, Stream(iv, []), chunks);
            && |s.cached| <= 16 && |o| == |m| - |m| % 16
            && (o == m[..|o|] && Finishes(c, Decrypt, Zeros, s, m[|o|..]) <==> |m| % 16 == 0 || m[|m| - 1] != 0)
  {
    hide CbcDecrypt, CbcEncrypt, FeedAll, DataEnds, Finishes, PaddedMessage;
    var (o, s) := FeedAll(c, Decrypt, true, Stream(iv, []), chunks);
    var n := |m| - |m| % 16;
    DecryptedStream(c, Zeros, iv, chunks, m[n..]);
    AnyChopping(c, Decrypt, true, Stream(iv, []), chunks);
    FedLength(c, Decrypt, true, iv, Flatten(chunks));
    CbcInverse(c, iv, PaddedMessage(Zeros, m));
    PaddedEnds(Zeros, m);
    assert m[..n] + m[n..] == m;
    OutputIsPrefix(c, iv, Flatten(chunks));
    assert PaddedMessage(Zeros, m)[..n] == m[..n];
  }

  /** A message of one zero byte does not come back. */
  lemma ZerosFail(c: BlockCipher, iv: Block)
    requires Invertible(c)
    ensures var x := CbcEncrypt(c, iv, PaddedMessage(Zeros, [0]));
            var (o, s) := FeedAll(c, Decrypt, true, Stream(iv, []), [x]);
            |s.cached| <= 16 && o == [] && !Finishes(c, Decrypt, Zeros, s, [0])
  {
    hide CbcEncrypt, FeedAll, Finishes, PaddedMessage;
    var x := CbcEncrypt(c, iv, PaddedMessage(Zeros, [0]));
    var none: seq<seq<Byte>>, nothing: seq<Byte> := [], [];
    assert [x][..0] == none && Flatten([x]) == nothing + x == x;
    ZerosRoundTrip(c, iv, [0], [x]);
    assert [0 as Byte][..0] == [] && [0 as Byte][0..] == [0 as Byte];
  }

  lemma OutputIsPrefix(c: BlockCipher, iv: Block, x: seq<Byte>)
    requires |x| % 16 == 0
    ensures var o := Feed(c, Decrypt, true, Stream(iv, []), x).0;
            |o| <= |x| && o == CbcDecrypt(c, iv, x)[..|o|]
  {
    hide CbcDecrypt, CbcEncrypt;
    DecryptedOnce(c, true, iv, x);
  }

  // ----- the context -----

  /** `unprocessed` holds the cached bytes in its first `unprocessedLen` places. */
  class CipherContext {
    const cipher: BlockCipher
    const operation: Mode
    const padding: Padding
    const iv: array<Byte>
    const unprocessed: array<Byte>
    var unprocessedLen: nat

    ghost predicate Valid()
      reads this
    {
      && iv.Length == 16 && unprocessed.Length == 16 && iv != unprocessed
      && unprocessedLen <= 16 && (unprocessedLen == 16 ==> HoldsBlock(operation, padding))
    }

    ghost function State(): Stream
      requires Valid()
      reads this, iv, unprocessed
    {
      Stream(iv[..], unprocessed[..unprocessedLen])
    }

    /** A context after key, initialisation vector and padding mode have been set and reset has been called. */
    constructor (c: BlockCipher, mode: Mode, p: Padding, start: Block)
      ensures Valid() && fresh(iv) && fresh(unprocessed)
      ensures cipher == c && operation == mode && padding == p && State() == Stream(start, [])
    {
      cipher, operation, padding := c, mode, p;
      iv := new Byte[16](i requires 0 <= i < 16 => start[i]);
      unprocessed := new Byte[16];
      unprocessedLen := 0;
    }

    /** mbedtls_cipher_update: one Feed step. Working in place needs whole blocks and an empty cache. */
    method Update(input: array<Byte>, ilen: nat, output: array<Byte>) returns (ret: CipherStatus, olen: nat)
      requires Valid() && ilen <= input.Length
      requires iv != input && iv != output && unprocessed != input && unprocessed != output
      requires Ready(HoldsBlock(operation, padding), unprocessedLen + ilen) <= output.Length
      modifies this, iv, unprocessed, output
      ensures Valid()
      ensures ret == if input == output && (old(unprocessedLen) != 0 || ilen % 16 != 0) then CipherStatus.BadInputData
                     else CipherStatus.Ok
      ensures ret.BadInputData? ==> olen == 0 && State() == old(State()) && output[..] == old(output[..])
      ensures ret.Ok? ==>
        var (o, s) := Feed(cipher, operation, HoldsBlock(operation, padding), old(State()), old(input[..ilen]));
        olen == |o| && output[..] == Splice(old(output[..]), 0, o) && State() == s
    {
      hide Feed, Splice, Held;
      olen := 0;
      if input == output && (unprocessedLen != 0 || ilen % 16 != 0) { return CipherStatus.BadInputData, olen; }
      if (operation == Decrypt && padding != NoPadding && ilen <= 16 - unprocessedLen)
         || (operation == Decrypt && padding == NoPadding && ilen < 16 - unprocessedLen)
         || (operation == Encrypt && ilen < 16 - unprocessedLen)
      {
        HeldSmall(HoldsBlock(operation, padding), unprocessedLen + ilen);
        Cache(input, ilen);
        FeedSmall(cipher, operation, HoldsBlock(operation, padding), old(State()), old(input[..ilen]));
        SpliceEmpty(output[..], 0);
        return CipherStatus.Ok, olen;
      }
      olen := UpdateBlocks(input, ilen, output);
      return CipherStatus.Ok, olen;
    }

    /** Too little for a block: cache it all. */
    method Cache(input: array<Byte>, ilen: nat)
      requires Valid() && ilen <= input.Length && unprocessed != input
      requires unprocessedLen + ilen <= 16 && (unprocessedLen + ilen == 16 ==> HoldsBlock(operation, padding))
      modifies this, unprocessed
      ensures Valid() && State() == old(Stream(iv[..], unprocessed[..unprocessedLen] + input[..ilen]))
    {
      ghost var u := unprocessed[..];
      CopyInto(unprocessed, unprocessedLen, input[..ilen]);
      assert unprocessed[..unprocessedLen + ilen] == unprocessed[..][..unprocessedLen + ilen] ==
             u[..unprocessedLen] + input[..ilen];
      unprocessedLen := unprocessedLen + ilen;
    }

    /** Enough for a block: complete the cached one, cache the new remainder, then process what is left. */
    method UpdateBlocks(input: array<Byte>, ilen: nat, output: array<Byte>) returns (olen: nat)
      requires Valid() && ilen <= input.Length
      requires iv != input && iv != output && unprocessed != input && unprocessed != output
      requires input == output ==> unprocessedLen == 0
      requires if HoldsBlock(operation, padding) then unprocessedLen + ilen > 16 else unprocessedLen + ilen >= 16
      requires Ready(HoldsBlock(operation, padding), unprocessedLen + ilen) <= output.Length
      modifies this, iv, unprocessed, output
      ensures Valid()
      ensures var (o, s) := Feed(cipher, operation, HoldsBlock(operation, padding), old(State()), old(input[..ilen]));
              olen == |o| && output[..] == Splice(old(output[..]), 0, o) && State() == s
    {
      hide Splice, InPieces, Feed, Ready, Held, Remainder, HoldsBlock;
      var used := if unprocessedLen != 0 then 16 - unprocessedLen else 0;
      var rest := ilen - used;
      var keep := Remainder(operation, padding, rest);
      ghost var whole := rest - keep;
      ghost var head, middle, tail := input[..used], input[used..used + whole], input[used + whole..used + whole + keep];
      Layout(input, ilen, used, whole, keep);
      Blockwise(cipher, operation, padding, State(), input[..ilen], head, middle, tail);
      olen := ProcessBlocks(input, used, rest - keep, keep, output, State(), head, middle, tail);
    }

    method ProcessBlocks(input: array<Byte>, used: nat, whole: nat, keep: nat, output: array<Byte>,
                         ghost s: Stream, ghost head: seq<Byte>, ghost rest: seq<Byte>, ghost tail: seq<Byte>)
      returns (olen: nat)
      requires Valid() && used + whole + keep <= input.Length && whole % 16 == 0
      requires iv != input && iv != output && unprocessed != input && unprocessed != output
      requires input == output ==> unprocessedLen == 0
      requires if unprocessedLen == 0 then used == 0 else unprocessedLen + used == 16
      requires s == State() && head == input[..used] && rest == input[used..used + whole]
      requires tail == input[used + whole..used + whole + keep]
      requires (|s.cached| + |head|) % 16 == 0 && |rest| % 16 == 0
      requires keep <= 16 && (keep == 16 ==> HoldsBlock(operation, padding))
      requires unprocessedLen + used + whole <= output.Length
      modifies this, iv, unprocessed, output
      ensures Valid()
      ensures var (o, t) := InPieces(cipher, operation, s, head, rest, tail);
              olen == |o| && output[..] == Splice(old(output[..]), 0, o) && State() == t
    {
      hide Splice, Cbc, Chain;
      ghost var out0, in0 := output[..], input[..];
      ghost var block := unprocessed[..unprocessedLen] + input[..used];
      ghost var o1 := Cbc(cipher, operation, iv[..], block);
      olen := FlushCached(input, used, output);
      ghost var iv1: Block := iv[..];
      assert rest == input[used..used + whole] by { SliceKept(in0, input, used, used + whole); }
      assert tail == input[used + whole..used + whole + keep] by {
        SliceKept(in0, input, used + whole, used + whole + keep);
      }
      if whole + keep != 0 { KeepTail(input, used + whole, keep); }
      assert unprocessed[..unprocessedLen] == tail;
      CbcRest(whole, input, used, output, olen);
      SpliceSplice(out0, 0, o1, Cbc(cipher, operation, iv1, rest));
      olen := olen + whole;
    }

    static lemma SliceKept(was: seq<Byte>, a: array<Byte>, i: nat, j: nat)
      requires a[..] == was && i <= j <= a.Length
      ensures a[i..j] == was[i..j]
    {
    }

    /** The cached bytes completed to a block and processed; nothing happens when there are none. */
    method FlushCached(input: array<Byte>, used: nat, output: array<Byte>) returns (olen: nat)
      requires Valid() && used <= input.Length
      requires iv != input && iv != output && unprocessed != input && unprocessed != output
      requires input == output ==> unprocessedLen == 0
      requires if unprocessedLen == 0 then used == 0 else unprocessedLen + used == 16 <= output.Length
      modifies this, iv, unprocessed, output
      ensures Valid() && unprocessedLen == 0
      ensures var s := old(State());
              var block := s.cached + old(input[..used]);
              var r := Cbc(cipher, operation, s.iv, block);
              && olen == |r| && output[..] == Splice(old(output[..]), 0, r)
              && iv[..] == Chain(s.iv, Ciphertext(operation, block, r))
      ensures input[..] == old(input[..])
    {
      hide Splice, Cbc, Chain;
      olen := 0;
      ghost var u := unprocessed[..];
      if unprocessedLen == 0 {
        NothingLeft(cipher, operation, iv[..], output[..], 0);
        assert unprocessed[..0] + input[..0] == [];
        return;
      }
      CopyInto(unprocessed, unprocessedLen, input[..used]);
      CompletedBlock(u, unprocessedLen, input[..used]);
      assert unprocessed[0..0 + 16] == unprocessed[..];
      var _ := CryptCbc(cipher, operation, 16, iv, unprocessed, 0, output, 0);
      olen := 16;
      unprocessedLen := 0;
    }

    method KeepTail(input: array<Byte>, from: nat, keep: nat)
      requires Valid() && unprocessedLen == 0 && from + keep <= input.Length && unprocessed != input
      requires keep <= 16 && (keep == 16 ==> HoldsBlock(operation, padding))
      modifies this, unprocessed
      ensures Valid() && unprocessed[..unprocessedLen] == old(input[from..from + keep])
    {
      ghost var u := unprocessed[..];
      CopyInto(unprocessed, 0, input[from..from + keep]);
      unprocessedLen := unprocessedLen + keep;
      assert unprocessed[..keep] == unprocessed[..][..keep] == input[from..from + keep];
    }

    method CbcRest(whole: nat, input: array<Byte>, ip: nat, output: array<Byte>, op: nat)
      requires Valid() && whole % 16 == 0 && ip + whole <= input.Length && op + whole <= output.Length
      requires iv != input && iv != output && unprocessed != output && (input == output ==> ip == op)
      modifies iv, output
      ensures var data := old(input[ip..ip + whole]);
              var r := Cbc(cipher, operation, old(iv[..]), data);
              && output[..] == Splice(old(output[..]), op, r)
              && iv[..] == Chain(old(iv[..]), Ciphertext(operation, data, r))
    {
      hide Splice, Cbc, Chain;
      if whole != 0 {
        var _ := CryptCbc(cipher, operation, whole, iv, input, ip, output, op);
      } else {
        NothingLeft(cipher, operation, iv[..], output[..], op);
      }
    }

    /** mbedtls_cipher_finish */
    method Finish(output: array<Byte>) returns (ret: CipherStatus, olen: nat)
      requires Valid() && iv != output && unprocessed != output
      requires (operation == Encrypt && padding != NoPadding) || unprocessedLen == 16 ==> output.Length >= 16
      modifies iv, unprocessed, output
      ensures ret.Ok? <==> exists last: seq<Byte> :: Finishes(cipher, operation, padding, old(State()), last)
      ensures ret.Ok? ==>
        olen <= output.Length && Finishes(cipher, operation, padding, old(State()), output[..olen])
      ensures !ret.Ok? ==>
        ret == if operation == Decrypt && old(unprocessedLen) == 16 then InvalidPadding else FullBlockExpected
    {
      hide Splice, Cbc, Chain, CbcEncrypt, CbcDecrypt, DataEnds, PadBytes;
      olen := 0;
      if operation == Encrypt {
        if padding == NoPadding {
          assert output[..0] == [];
          if unprocessedLen != 0 { return FullBlockExpected, olen; }
          assert Finishes(cipher, operation, padding, old(State()), []);
          return CipherStatus.Ok, olen;
        }
        FinishEncrypt(output);
        olen := 16;
        assert Finishes(cipher, operation, padding, old(State()), output[..olen]);
        return CipherStatus.Ok, olen;
      } else if 16 != unprocessedLen {
        assert output[..0] == [];
        if padding == NoPadding && unprocessedLen == 0 {
          assert Finishes(cipher, operation, padding, old(State()), []);
          return CipherStatus.Ok, olen;
        }
        return FullBlockExpected, olen;
      }
      ghost var block := CbcDecrypt(cipher, iv[..], unprocessed[..]);
      FinishDecrypt(output);
      ret, olen := GetPadding(padding, output, 16);
      assert old(unprocessed[..16]) == old(unprocessed[..]);
      FinishedBlock(cipher, padding, old(State()), block);
      if ret.Ok? {
        EndInside(padding, block, olen);
        assert output[..olen] == block[..olen];
        assert Finishes(cipher, operation, padding, old(State()), output[..olen]);
      }
    }

    method FinishEncrypt(output: array<Byte>)
      requires Valid() && iv != output && unprocessed != output && output.Length >= 16 && unprocessedLen < 16
      requires operation == Encrypt && padding != NoPadding
      modifies iv, unprocessed, output
      ensures output[..16] == CbcEncrypt(cipher, old(iv[..]),
                                         old(unprocessed[..unprocessedLen]) + PadBytes(padding, 16, unprocessedLen))
    {
      hide Splice, CbcEncrypt, Chain, PadBytes;
      ghost var u, o := unprocessed[..], output[..];
      AddPadding(padding, unprocessed, 16, unprocessedLen);
      CompletedBlock(u, unprocessedLen, PadBytes(padding, 16, unprocessedLen));
      assert unprocessed[0..0 + 16] == unprocessed[..];
      ghost var r := CbcEncrypt(cipher, iv[..], unprocessed[..]);
      var _ := CryptCbc(cipher, operation, 16, iv, unprocessed, 0, output, 0);
      SpliceRead(o, 0, r);
      assert output[..16] == output[..][0..0 + 16];
    }

    method FinishDecrypt(output: array<Byte>)
      requires Valid() && iv != output && unprocessed != output && output.Length >= 16
      requires operation == Decrypt
      modifies iv, output
      ensures output[..16] == CbcDecrypt(cipher, old(iv[..]), unprocessed[..])
    {
      hide Splice, CbcDecrypt, Chain;
      ghost var o, r := output[..], CbcDecrypt(cipher, iv[..], unprocessed[..]);
      assert unprocessed[0..0 + 16] == unprocessed[..];
      var _ := CryptCbc(cipher, operation, 16, iv, unprocessed, 0, output, 0);
      SpliceRead(o, 0, r);
      assert output[..16] == output[..][0..0 + 16];
    }
  }

  /** How many of the remaining bytes the code caches: a partial block, or a whole one before unpadding. */
  function Remainder(mode: Mode, p: Padding, rest: nat): (keep: nat)
    ensures keep <= rest
  {
    if rest % 16 == 0 && rest != 0 && mode == Decrypt && p != NoPadding then 16 else rest % 16
  }

  lemma RemainderIsHeld(mode: Mode, p: Padding, cached: nat, used: nat, rest: nat)
    requires if cached == 0 then used == 0 else cached + used == 16
    requires if HoldsBlock(mode, p) then rest > 0 else rest >= 0
    ensures var keep := Remainder(mode, p, rest);
            && keep == Held(HoldsBlock(mode, p), rest) && rest - keep == Ready(HoldsBlock(mode, p), rest)
            && keep <= 16 && (keep == 16 ==> HoldsBlock(mode, p)) && (rest - keep) % 16 == 0
            && cached + used + (rest - keep) == Ready(HoldsBlock(mode, p), cached + used + rest)
  {
  }

  /** Completing the cached block, then the whole blocks, then keeping the remainder. */
  function InPieces(c: BlockCipher, mode: Mode, s: Stream, head: seq<Byte>, rest: seq<Byte>, tail: seq<Byte>):
    (r: (seq<Byte>, Stream))
    requires (|s.cached| + |head|) % 16 == 0 && |rest| % 16 == 0
    ensures |r.0| == |s.cached| + |head| + |rest|
  {
    var block := s.cached + head;
    var o1 := Cbc(c, mode, s.iv, block);
    var iv1 := Chain(s.iv, Ciphertext(mode, block, o1));
    var o2 := Cbc(c, mode, iv1, rest);
    (o1 + o2, Stream(Chain(iv1, Ciphertext(mode, rest, o2)), tail))
  }

  /** The pieces are one Feed step. */
  lemma Blockwise(c: BlockCipher, mode: Mode, p: Padding, s: Stream, data: seq<Byte>, head: seq<Byte>, rest: seq<Byte>,
                  tail: seq<Byte>)
    requires data == head + rest + tail && |s.cached| <= 16
    requires |head| == (if s.cached == [] then 0 else 16 - |s.cached|) && |tail| == Remainder(mode, p, |rest| + |tail|)
    requires if HoldsBlock(mode, p) then |s.cached| + |data| > 16 else |s.cached| + |data| >= 16
    ensures |rest| % 16 == 0 && |tail| <= 16 && (|tail| == 16 ==> HoldsBlock(mode, p))
    ensures |s.cached| + |head| + |rest| == Ready(HoldsBlock(mode, p), |s.cached| + |data|)
    ensures Feed(c, mode, HoldsBlock(mode, p), s, data) == InPieces(c, mode, s, head, rest, tail)
  {
    hide Cbc, Chain, Feed, Ready, Held, Remainder, HoldsBlock;
    RemainderIsHeld(mode, p, |s.cached|, |head|, |rest| + |tail|);
    assert s.cached + (head + rest + tail) == (s.cached + head) + rest + tail;
    FeedLarge(c, mode, HoldsBlock(mode, p), s, s.cached + head, rest, tail, data);
  }

  lemma Layout(a: array<Byte>, n: nat, used: nat, whole: nat, keep: nat)
    requires used + whole + keep == n <= a.Length
    ensures a[..n] == a[..used] + a[used..used + whole] + a[used + whole..used + whole + keep]
  {
  }

  lemma HeldSmall(hold: bool, n: nat)
    requires n < 16 || (n == 16 && hold)
    ensures Held(hold, n) == n
  {
  }

  lemma FeedSmall(c: BlockCipher, mode: Mode, hold: bool, s: Stream, input: seq<Byte>)
    requires Held(hold, |s.cached| + |input|) == |s.cached| + |input|
    ensures Feed(c, mode, hold, s, input) == ([], Stream(s.iv, s.cached + input))
  {
    var all := s.cached + input;
    assert all[..0] == [] && all[0..] == all;
  }

  /** Completing the cached block and processing the whole blocks that follow is one Feed step. */
  lemma FeedLarge(c: BlockCipher, mode: Mode, hold: bool, s: Stream, block: seq<Byte>, rest: seq<Byte>, tail: seq<Byte>,
                  input: seq<Byte>)
    requires |block| == (if s.cached == [] then 0 else 16) && WholeBlocks(rest) && |tail| == Held(hold, |rest + tail|)
    requires s.cached + input == block + rest + tail
    requires if hold then |s.cached + input| > 16 else |s.cached + input| >= 16
    ensures var o1 := Cbc(c, mode, s.iv, block);
            var iv1 := Chain(s.iv, Ciphertext(mode, block, o1));
            var o2 := Cbc(c, mode, iv1, rest);
            Feed(c, mode, hold, s, input) == (o1 + o2, Stream(Chain(iv1, Ciphertext(mode, rest, o2)), tail))
  {
    hide CbcEncrypt, CbcDecrypt, Chain, Cbc;
    var all := s.cached + input;
    var n := Ready(hold, |all|);
    assert n == |block| + |rest|;
    hide Ready, Held;
    assert all[..n] == block + rest && all[n..] == tail;
    CbcSplit(c, mode, s.iv, block, rest);
    ChainSplit(c, mode, s.iv, block, rest);
  }

  lemma NothingLeft(c: BlockCipher, mode: Mode, iv: Block, o: seq<Byte>, op: nat)
    requires op <= |o|
    ensures Cbc(c, mode, iv, []) == [] && Chain(iv, []) == iv && Splice(o, op, []) == o
  {
    SpliceEmpty(o, op);
  }

  lemma CompletedBlock(u: seq<Byte>, n: nat, more: seq<Byte>)
    requires |u| == 16 && n + |more| == 16
    ensures Splice(u, n, more) == u[..n] + more
  {
  }

  lemma FinishedBlock(c: BlockCipher, p: Padding, s: Stream, block: seq<Byte>)
    requires |s.cached| == 16 && block == CbcDecrypt(c, s.iv, s.cached)
    ensures (exists last: seq<Byte> :: Finishes(c, Decrypt, p, s, last)) <==> exists n: nat :: DataEnds(p, block, n)
  {
    hide CbcDecrypt;
    if n: nat :| DataEnds(p, block, n) {
      EndInside(p, block, n);
      assert Finishes(c, Decrypt, p, s, block[..n]);
    }
    if last: seq<Byte> :| Finishes(c, Decrypt, p, s, last) {
      assert DataEnds(p, block, |last|);
    }
  }

  lemma EndInside(p: Padding, block: seq<Byte>, n: nat)
    requires |block| < 256 && DataEnds(p, block, n)
    ensures n <= |block|
  {
  }
}
