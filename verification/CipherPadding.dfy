/** The padding methods of the cipher layer: how a last block is filled, and how the filling is taken off. */
module CipherPadding {
  import opened Bits
  import opened Bytes
  import opened Buffers

  datatype CipherStatus = Ok | BadInputData | FullBlockExpected | InvalidPadding

  datatype Padding = Pkcs7 | OneAndZeros | ZerosAndLen | Zeros | NoPadding

  function Fill(n: nat, x: Byte): (r: seq<Byte>)
    ensures |r| == n && forall k :: 0 <= k < n ==> r[k] == x
  {
    seq(n, _ => x)
  }

  /** What is put behind n bytes of data in a block of `size` bytes; section 6.3 of RFC 5652 for PKCS7. */
  function PadBytes(p: Padding, size: nat, n: nat): (r: seq<Byte>)
    requires n < size < 256
    ensures |r| == if p == NoPadding then 0 else size - n
  {
    match p
    case Pkcs7 => Fill(size - n, size - n)
    case OneAndZeros => [0x80] + Fill(size - n - 1, 0)
    case ZerosAndLen => Fill(size - n - 1, 0) + [size - n]
    case Zeros => Fill(size - n, 0)
    case NoPadding => []
  }

  /** The data of the block end at n. Zero padding carries no length: data and padding are told apart by the last
      byte that is not zero. */
  ghost predicate DataEnds(p: Padding, block: seq<Byte>, n: nat)
    requires |block| < 256
  {
    match p
    case Zeros => n <= |block| && (forall k :: n <= k < |block| ==> block[k] == 0) && (n > 0 ==> block[n - 1] != 0)
    case NoPadding => n == |block|
    case _ => n < |block| && block[n..] == PadBytes(p, |block|, n)
  }

  /** The bytes behind the data, one by one. */
  lemma PaddingShape(p: Padding, block: seq<Byte>, n: nat)
    requires |block| < 256 && DataEnds(p, block, n)
    ensures p == Pkcs7 ==> n < |block| && forall k :: n <= k < |block| ==> block[k] == |block| - n
    ensures p == OneAndZeros ==> n < |block| && block[n] == 0x80 && forall k :: n < k < |block| ==> block[k] == 0
    ensures p == ZerosAndLen ==>
      n < |block| && block[|block| - 1] == |block| - n && forall k :: n <= k < |block| - 1 ==> block[k] == 0
  {
    if p == Pkcs7 || p == OneAndZeros || p == ZerosAndLen {
      forall k | n <= k < |block| ensures block[k] == PadBytes(p, |block|, n)[k - n] {
        assert block[k] == block[n..][k - n];
      }
    }
  }

  /** The end of the data is unique, so taking the padding off is well defined. */
  lemma DataEndsOnce(p: Padding, block: seq<Byte>, m: nat, n: nat)
    requires |block| < 256 && DataEnds(p, block, m) && DataEnds(p, block, n)
    ensures m == n
  {
    PaddingShape(p, block, m);
    PaddingShape(p, block, n);
    if p == Pkcs7 { assert block[|block| - 1] == |block| - m == |block| - n; }
  }

  /** Padding that carries its length is taken off exactly, whatever the data are. */
  lemma PaddingEnds(p: Padding, data: seq<Byte>, size: nat)
    requires |data| < size < 256 && p != NoPadding && p != Zeros
    ensures DataEnds(p, data + PadBytes(p, size, |data|), |data|)
  {
    var block := data + PadBytes(p, size, |data|);
    assert block[|data|..] == PadBytes(p, size, |data|);
  }

  /** Zero padding gives the data back exactly when they are empty or do not end in a zero byte. */
  lemma ZeroPaddingEnds(data: seq<Byte>, size: nat)
    requires |data| < size < 256
    ensures DataEnds(Zeros, data + PadBytes(Zeros, size, |data|), |data|) <==> data == [] || data[|data| - 1] != 0
  {
    var block := data + PadBytes(Zeros, size, |data|);
    if data != [] { assert block[|data| - 1] == data[|data| - 1]; }
  }

  // ----- adding -----

  method AddPadding(p: Padding, output: array<Byte>, outputLen: nat, dataLen: nat)
    requires dataLen < outputLen <= output.Length && outputLen < 256
    modifies output
    ensures output[..] == Splice(old(output[..]), dataLen, PadBytes(p, outputLen, dataLen))
  {
    match p
    case Pkcs7 => AddPkcs(output, outputLen, dataLen);
    case OneAndZeros => AddOneAndZeros(output, outputLen, dataLen);
    case ZerosAndLen => AddZerosAndLen(output, outputLen, dataLen);
    case Zeros => AddZeros(output, outputLen, dataLen);
    case NoPadding =>
  }

  method AddPkcs(output: array<Byte>, outputLen: nat, dataLen: nat)
    requires dataLen < outputLen <= output.Length && outputLen < 256
    modifies output
    ensures output[..] == Splice(old(output[..]), dataLen, PadBytes(Pkcs7, outputLen, dataLen))
  {
    hide Splice;
    var paddingLen: Byte := outputLen - dataLen;
    ghost var o := output[..];
    SpliceEmpty(o, dataLen);
    var i := 0;
    while i < paddingLen
      invariant 0 <= i <= paddingLen
      invariant output[..] == Splice(o, dataLen, Fill(i, paddingLen))
    {
      SpliceSnoc(o, dataLen, Fill(i, paddingLen), paddingLen);
      assert Fill(i + 1, paddingLen) == Fill(i, paddingLen) + [paddingLen];
      output[dataLen + i] := paddingLen;
      i := i + 1;
    }
  }

  method AddOneAndZeros(output: array<Byte>, outputLen: nat, dataLen: nat)
    requires dataLen < outputLen <= output.Length && outputLen < 256
    modifies output
    ensures output[..] == Splice(old(output[..]), dataLen, PadBytes(OneAndZeros, outputLen, dataLen))
  {
    hide Splice;
    var paddingLen: Byte := outputLen - dataLen;
    ghost var o := output[..];
    SpliceEmpty(o, dataLen);
    SpliceSnoc(o, dataLen, [], 0x80);
    assert [] + [0x80] == [0x80] + Fill(0, 0);
    output[dataLen] := 0x80;
    var i := 1;
    while i < paddingLen
      invariant 1 <= i <= paddingLen
      invariant output[..] == Splice(o, dataLen, [0x80] + Fill(i - 1, 0))
    {
      SpliceSnoc(o, dataLen, [0x80] + Fill(i - 1, 0), 0);
      assert [0x80] + Fill(i, 0) == [0x80] + Fill(i - 1, 0) + [0];
      output[dataLen + i] := 0;
      i := i + 1;
    }
  }

  method AddZerosAndLen(output: array<Byte>, outputLen: nat, dataLen: nat)
    requires dataLen < outputLen <= output.Length && outputLen < 256
    modifies output
    ensures output[..] == Splice(old(output[..]), dataLen, PadBytes(ZerosAndLen, outputLen, dataLen))
  {
    hide Splice;
    var paddingLen: Byte := outputLen - dataLen;
    ghost var o := output[..];
    SpliceEmpty(o, dataLen);
    var i := 1;
    while i < paddingLen
      invariant 1 <= i <= paddingLen
      invariant output[..] == Splice(o, dataLen, Fill(i - 1, 0))
    {
      SpliceSnoc(o, dataLen, Fill(i - 1, 0), 0);
      assert Fill(i, 0) == Fill(i - 1, 0) + [0];
      output[dataLen + i - 1] := 0;
      i := i + 1;
    }
    SpliceSnoc(o, dataLen, Fill(paddingLen - 1, 0), paddingLen);
    output[outputLen - 1] := paddingLen;
  }

  method AddZeros(output: array<Byte>, outputLen: nat, dataLen: nat)
    requires dataLen < outputLen <= output.Length && outputLen < 256
    modifies output
    ensures output[..] == Splice(old(output[..]), dataLen, PadBytes(Zeros, outputLen, dataLen))
  {
    hide Splice;
    ghost var o := output[..];
    SpliceEmpty(o, dataLen);
    for i := dataLen to outputLen
      invariant output[..] == Splice(o, dataLen, Fill(i - dataLen, 0))
    {
      SpliceSnoc(o, dataLen, Fill(i - dataLen, 0), 0);
      assert Fill(i + 1 - dataLen, 0) == Fill(i - dataLen, 0) + [0];
      output[i] := 0;
    }
  }

  // ----- taking off -----

  /** A number times a truth value. */
  function Times(x: nat, b: bool): nat {
    if b then x else 0
  }

  lemma TimesZero(x: nat, b: bool)
    ensures Times(x, b) == 0 <==> x == 0 || !b
  {
  }

  /** The branch-free checks accept a block exactly when its data end somewhere, and then report where. */
  method GetPadding(p: Padding, input: array<Byte>, inputLen: nat) returns (ret: CipherStatus, dataLen: nat)
    requires 0 < inputLen <= input.Length && inputLen < 256
    ensures ret == Ok || ret == InvalidPadding
    ensures ret == Ok <==> exists n: nat :: DataEnds(p, input[..inputLen], n)
    ensures ret == Ok ==> DataEnds(p, input[..inputLen], dataLen)
  {
    match p
    case Pkcs7 => ret, dataLen := GetPkcs(input, inputLen);
    case OneAndZeros => ret, dataLen := GetOneAndZeros(input, inputLen);
    case ZerosAndLen => ret, dataLen := GetZerosAndLen(input, inputLen);
    case Zeros =>
      ret := Ok;
      dataLen := GetZeros(input, inputLen);
    case NoPadding =>
      ret, dataLen := Ok, inputLen;
      assert DataEnds(NoPadding, input[..inputLen], inputLen);
  }

  const SIZE_RANGE := 0x1_0000_0000_0000_0000

  method GetPkcs(input: array<Byte>, inputLen: nat) returns (ret: CipherStatus, dataLen: nat)
    requires 0 < inputLen <= input.Length && inputLen < 256
    ensures ret == Ok || ret == InvalidPadding
    ensures ret == Ok <==> exists n: nat :: DataEnds(Pkcs7, input[..inputLen], n)
    ensures ret == Ok ==> DataEnds(Pkcs7, input[..inputLen], dataLen)
  {
    hide BitOr, XorByte, DataEnds, Times;
    var paddingLen := input[inputLen - 1];
    TimesZero(1, paddingLen > inputLen);
    TimesZero(1, paddingLen == 0);
    dataLen := (inputLen - paddingLen) % SIZE_RANGE;
    var bad := BitOr(BitOr(0, Times(1, paddingLen > inputLen)), Times(1, paddingLen == 0));
    BitOrZero(0, Times(1, paddingLen > inputLen));
    BitOrZero(BitOr(0, Times(1, paddingLen > inputLen)), Times(1, paddingLen == 0));
    var padIdx := dataLen;
    for i := 0 to inputLen
      invariant bad == 0 <==> 0 < paddingLen <= inputLen && forall k :: padIdx <= k < i ==> input[k] == paddingLen
    {
      var more := Times(XorByte(input[i], paddingLen), i >= padIdx);
      XorZero(input[i], paddingLen);
      TimesZero(XorByte(input[i], paddingLen), i >= padIdx);
      BitOrZero(bad, more);
      bad := BitOr(bad, more);
    }
    ghost var block := input[..inputLen];
    PkcsEnds(block, paddingLen);
    ret := if bad != 0 then InvalidPadding else Ok;
  }

  lemma PkcsEnds(block: seq<Byte>, len: Byte)
    requires 0 < |block| < 256 && len == block[|block| - 1]
    ensures (exists n: nat :: DataEnds(Pkcs7, block, n)) <==>
            0 < len <= |block| && forall k :: |block| - len <= k < |block| ==> block[k] == len
    ensures (exists n: nat :: DataEnds(Pkcs7, block, n)) ==> DataEnds(Pkcs7, block, |block| - len)
  {
    if n: nat :| DataEnds(Pkcs7, block, n) { PaddingShape(Pkcs7, block, n); }
    if 0 < len <= |block| && forall k :: |block| - len <= k < |block| ==> block[k] == len {
      assert block[|block| - len..] == PadBytes(Pkcs7, |block|, |block| - len);
      assert DataEnds(Pkcs7, block, |block| - len);
    }
  }

  method GetZerosAndLen(input: array<Byte>, inputLen: nat) returns (ret: CipherStatus, dataLen: nat)
    requires 0 < inputLen <= input.Length && inputLen < 256
    ensures ret == Ok || ret == InvalidPadding
    ensures ret == Ok <==> exists n: nat :: DataEnds(ZerosAndLen, input[..inputLen], n)
    ensures ret == Ok ==> DataEnds(ZerosAndLen, input[..inputLen], dataLen)
  {
    hide BitOr, DataEnds;
    var paddingLen := input[inputLen - 1];
    dataLen := (inputLen - paddingLen) % SIZE_RANGE;
    var bad := BitOr(BitOr(0, Times(1, paddingLen > inputLen)), Times(1, paddingLen == 0));
    BitOrZero(0, Times(1, paddingLen > inputLen));
    BitOrZero(BitOr(0, Times(1, paddingLen > inputLen)), Times(1, paddingLen == 0));
    var padIdx := dataLen;
    for i := 0 to inputLen - 1
      invariant bad == 0 <==> 0 < paddingLen <= inputLen && forall k :: padIdx <= k < i ==> input[k] == 0
    {
      var more := Times(input[i], i >= padIdx);
      BitOrZero(bad, more);
      bad := BitOr(bad, more);
    }
    ghost var block := input[..inputLen];
    ZerosAndLenEnds(block, paddingLen);
    ret := if bad != 0 then InvalidPadding else Ok;
  }

  lemma ZerosAndLenEnds(block: seq<Byte>, len: Byte)
    requires 0 < |block| < 256 && len == block[|block| - 1]
    ensures (exists n: nat :: DataEnds(ZerosAndLen, block, n)) <==>
            0 < len <= |block| && forall k :: |block| - len <= k < |block| - 1 ==> block[k] == 0
    ensures (exists n: nat :: DataEnds(ZerosAndLen, block, n)) ==> DataEnds(ZerosAndLen, block, |block| - len)
  {
    if n: nat :| DataEnds(ZerosAndLen, block, n) { PaddingShape(ZerosAndLen, block, n); }
    if 0 < len <= |block| && forall k :: |block| - len <= k < |block| - 1 ==> block[k] == 0 {
      assert block[|block| - len..] == PadBytes(ZerosAndLen, |block|, |block| - len);
      assert DataEnds(ZerosAndLen, block, |block| - len);
    }
  }

  method GetOneAndZeros(input: array<Byte>, inputLen: nat) returns (ret: CipherStatus, dataLen: nat)
    requires 0 < inputLen <= input.Length && inputLen < 256
    ensures ret == Ok || ret == InvalidPadding
    ensures ret == Ok <==> exists n: nat :: DataEnds(OneAndZeros, input[..inputLen], n)
    ensures ret == Ok ==> DataEnds(OneAndZeros, input[..inputLen], dataLen)
  {
    hide BitOr, XorByte, DataEnds;
    var bad: Byte, done := 0x80, false;
    dataLen := 0;
    var i := inputLen;
    while i > 0
      invariant 0 <= i <= inputLen
      invariant !done ==> bad == 0x80 && dataLen == 0 && forall k :: i <= k < inputLen ==> input[k] == 0
      invariant done ==> i <= dataLen < inputLen && input[dataLen] != 0 && bad == XorByte(0x80, input[dataLen])
                         && forall k :: dataLen < k < inputLen ==> input[k] == 0
    {
      var prevDone := done;
      done := done || input[i - 1] != 0;
      BitOrZero(dataLen, 0);
      BitOrZero(0, i - 1);
      OrNothing(dataLen);
      dataLen := BitOr(dataLen, Times(i - 1, done != prevDone));
      XorZero(0, bad);
      XorBack(0, bad);
      bad := XorByte(bad, Times(input[i - 1], done != prevDone));
      i := i - 1;
    }
    ghost var block := input[..inputLen];
    if done { XorZero(0x80, input[dataLen]); }
    OneAndZerosEnds(block, if done then dataLen else |block|);
    ret := if bad != 0 then InvalidPadding else Ok;
  }

  /** m is the last position that is not zero, or the length when there is none. */
  lemma OneAndZerosEnds(block: seq<Byte>, m: nat)
    requires 0 < |block| < 256 && m <= |block| && forall k :: m < k < |block| ==> block[k] == 0
    requires if m < |block| then block[m] != 0 else forall k :: 0 <= k < |block| ==> block[k] == 0
    ensures (exists n: nat :: DataEnds(OneAndZeros, block, n)) <==> m < |block| && block[m] == 0x80
    ensures m < |block| && block[m] == 0x80 ==> DataEnds(OneAndZeros, block, m)
  {
    if n: nat :| DataEnds(OneAndZeros, block, n) { PaddingShape(OneAndZeros, block, n); }
    if m < |block| && block[m] == 0x80 {
      assert block[m..] == PadBytes(OneAndZeros, |block|, m);
      assert DataEnds(OneAndZeros, block, m);
    }
  }

  method GetZeros(input: array<Byte>, inputLen: nat) returns (dataLen: nat)
    requires 0 < inputLen <= input.Length && inputLen < 256
    ensures DataEnds(Zeros, input[..inputLen], dataLen)
  {
    hide BitOr;
    var done := false;
    dataLen := 0;
    var i := inputLen;
    while i > 0
      invariant 0 <= i <= inputLen
      invariant !done ==> dataLen == 0 && forall k :: i <= k < inputLen ==> input[k] == 0
      invariant done ==> i < dataLen <= inputLen && input[dataLen - 1] != 0
                         && forall k :: dataLen <= k < inputLen ==> input[k] == 0
    {
      var prevDone := done;
      done := done || input[i - 1] != 0;
      BitOrZero(0, i);
      OrNothing(dataLen);
      dataLen := BitOr(dataLen, Times(i, done != prevDone));
      i := i - 1;
    }
  }
}
