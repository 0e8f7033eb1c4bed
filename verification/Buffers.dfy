/** Writing into a fixed-size buffer. */
module Buffers {
  /** The buffer b with `data` written at position p. */
  function Splice<T>(b: seq<T>, p: nat, data: seq<T>): (r: seq<T>)
    requires p + |data| <= |b|
    ensures |r| == |b|
  {
    b[..p] + data + b[p + |data|..]
  }

  lemma SpliceEmpty<T>(b: seq<T>, p: nat)
    requires p <= |b|
    ensures Splice(b, p, []) == b
  {
  }

  lemma SpliceSnoc<T>(b: seq<T>, p: nat, data: seq<T>, x: T)
    requires p + |data| < |b|
    ensures Splice(b, p, data)[p + |data| := x] == Splice(b, p, data + [x])
  {
  }

  lemma SpliceSplice<T>(b: seq<T>, p: nat, data: seq<T>, more: seq<T>)
    requires p + |data| + |more| <= |b|
    ensures Splice(Splice(b, p, data), p + |data|, more) == Splice(b, p, data + more)
  {
  }

  lemma SpliceWhole<T>(b: seq<T>, data: seq<T>)
    requires |b| == |data|
    ensures Splice(b, 0, data) == data
  {
  }

  lemma SpliceKeeps<T>(b: seq<T>, p: nat, data: seq<T>)
    requires p + |data| <= |b|
    ensures Splice(b, p, data)[p + |data|..] == b[p + |data|..]
  {
  }

  lemma SpliceRead<T>(b: seq<T>, p: nat, data: seq<T>)
    requires p + |data| <= |b|
    ensures Splice(b, p, data)[p..p + |data|] == data
  {
  }

  lemma SubSlice<T>(s: seq<T>, at: nat, n: nat, i: nat, j: nat)
    requires i <= j <= n && at + n <= |s|
    ensures s[at..at + n][i..j] == s[at + i..at + j]
  {
    var t, u := s[at..at + n][i..j], s[at + i..at + j];
    assert |t| == |u|;
    forall k | 0 <= k < |t| ensures t[k] == u[k] { assert t[k] == s[at..at + n][i + k] == s[at + (i + k)]; }
  }

  /** What lies behind position n of a buffer that has not changed there. */
  lemma RestThere<T>(before: seq<T>, after: seq<T>, data: seq<T>, start: nat, n: nat)
    requires start + |data| <= |before| == |after| && n <= |data|
    requires before[start + n..start + |data|] == data[n..] && after[start + n..] == before[start + n..]
    ensures after[start + n..start + |data|] == data[n..]
  {
    assert after[start + n..start + |data|] == after[start + n..][..|data| - n];
    assert before[start + n..start + |data|] == before[start + n..][..|data| - n];
  }

  /** A later write over the same place wins. */
  lemma SpliceOver<T>(b: seq<T>, p: nat, data: seq<T>, again: seq<T>)
    requires |again| == |data| && p + |data| <= |b|
    ensures Splice(Splice(b, p, data), p, again) == Splice(b, p, again)
  {
  }

  /** Copy all of `data` to position `at`. */
  method CopyInto<T>(dst: array<T>, at: nat, data: seq<T>)
    requires at + |data| <= dst.Length
    modifies dst
    ensures dst[..] == Splice(old(dst[..]), at, data)
  {
    hide Splice;
    SpliceEmpty(dst[..], at);
    for i := 0 to |data|
      invariant dst[..] == Splice(old(dst[..]), at, data[..i])
    {
      SpliceSnoc(old(dst[..]), at, data[..i], data[i]);
      assert data[..i] + [data[i]] == data[..i + 1];
      dst[at + i] := data[i];
    }
    assert data[..|data|] == data;
  }
}
