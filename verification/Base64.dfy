/** Base64 encoding and decoding; section 6.8 of RFC 2045, and lines as section 5.2 of RFC 1521 has them. */
module Base64 {
  import opened Arithmetic
  import opened Bits
  import opened Limbs
  import opened Bytes
  import opened Buffers

  datatype Status = Ok | BufferTooSmall | InvalidCharacter

  const SPACE: Byte := 0x20
  const CR: Byte := 0x0D
  const LF: Byte := 0x0A
  const EQUALS: Byte := 0x3D

  const SIZE_T_MAX := 0xFFFF_FFFF_FFFF_FFFF

  // ----- the two tables -----

  type Sextet = v: nat | v < 64

  /** base64_enc_map */
  function EncMap(v: Sextet): Byte {
    if v < 26 then 'A' as int + v
    else if v < 52 then 'a' as int + (v - 26)
    else if v < 62 then '0' as int + (v - 52)
    else if v == 62 then '+' as int else '/' as int
  }

  /** base64_dec_map: 64 for the padding character, 127 for a character that is no symbol. */
  function DecMap(c: Byte): nat
    requires c < 128
  {
    if 'A' as int <= c <= 'Z' as int then c - 'A' as int
    else if 'a' as int <= c <= 'z' as int then c - 'a' as int + 26
    else if '0' as int <= c <= '9' as int then c - '0' as int + 52
    else if c == '+' as int then 62
    else if c == '/' as int then 63
    else if c == '=' as int then 64
    else 127
  }

  /** The tables are inverse to each other, and no digit looks like padding or space. */
  lemma TablesAgree(v: Sextet, c: Byte)
    ensures EncMap(v) < 128 && DecMap(EncMap(v)) == v
    ensures c < 128 && DecMap(c) < 64 ==> EncMap(DecMap(c)) == c
    ensures EncMap(v) !in {61, 32, 13, 10} && EQUALS == 61 && SPACE == 32 && CR == 13 && LF == 10
  {
  }

  /** The alphabet, table 1 of RFC 2045. */
  function Symbol(v: Sextet): char {
    if v < 26 then "ABCDEFGHIJKLMNOPQRSTUVWXYZ"[v]
    else if v < 52 then "abcdefghijklmnopqrstuvwxyz"[v - 26]
    else "0123456789+/"[v - 52]
  }

  lemma SymbolIs(v: Sextet)
    ensures EncMap(v) == Symbol(v) as int
  {
    if v < 26 {
      UpperCase(v);
    } else if v < 52 {
      LowerCase(v - 26);
    }
  }

  lemma UpperCase(v: nat)
    requires v < 26
    ensures "ABCDEFGHIJKLMNOPQRSTUVWXYZ"[v] as int == 65 + v
  {
  }

  lemma LowerCase(v: nat)
    requires v < 26
    ensures "abcdefghijklmnopqrstuvwxyz"[v] as int == 97 + v
  {
  }

  /** The tables hold this alphabet; the padding character is 64 and everything else 127. */
  lemma TablesAreAlphabet(v: Sextet, c: Byte)
    ensures EncMap(v) == Symbol(v) as int && Symbol(v) as int < 128 && DecMap(Symbol(v) as int) == v
    ensures c < 128 && (forall w: Sextet :: Symbol(w) as int != c) ==> DecMap(c) == if c == 61 then 64 else 127
  {
    hide Symbol;
    SymbolIs(v);
    TablesAgree(v, c);
    if c < 128 && DecMap(c) < 64 {
      SymbolIs(DecMap(c));
      assert Symbol(DecMap(c)) as int == c;
    }
  }

  // ----- encoding -----

  /** Three bytes as four symbols. */
  function Group(a: Byte, b: Byte, c: Byte): (q: seq<Byte>)
    ensures |q| == 4
  {
    [EncMap(a / 4), EncMap(a % 4 * 16 + b / 16), EncMap(b % 16 * 4 + c / 64), EncMap(c % 64)]
  }

  /** A last group of one or two bytes, filled up with padding. */
  function LastGroup(s: seq<Byte>): (q: seq<Byte>)
    requires 1 <= |s| <= 2
    ensures |q| == 4
  {
    if |s| == 1 then [EncMap(s[0] / 4), EncMap(s[0] % 4 * 16), EQUALS, EQUALS]
    else [EncMap(s[0] / 4), EncMap(s[0] % 4 * 16 + s[1] / 16), EncMap(s[1] % 16 * 4), EQUALS]
  }

  function Encoded(s: seq<Byte>): (t: seq<Byte>)
    ensures |t| == 4 * ((|s| + 2) / 3)
  {
    if s == [] then []
    else if |s| < 3 then LastGroup(s)
    else Group(s[0], s[1], s[2]) + Encoded(s[3..])
  }

  lemma EncodedCons(a: Byte, b: Byte, c: Byte, rest: seq<Byte>)
    ensures Encoded([a, b, c] + rest) == Group(a, b, c) + Encoded(rest)
  {
    hide Group, LastGroup;
    var s := [a, b, c] + rest;
    assert s[3..] == rest;
  }

  lemma {:induction false} EncodedSplit(a: seq<Byte>, b: seq<Byte>)
    requires |a| % 3 == 0
    ensures Encoded(a + b) == Encoded(a) + Encoded(b)
  {
    hide Group, LastGroup, Encoded;
    if a == [] {
      EncodedEmpty();
      assert a + b == b && [] + Encoded(b) == Encoded(b);
    } else {
      var x, y, z, rest := a[0], a[1], a[2], a[3..];
      assert a == [x, y, z] + rest && a + b == [x, y, z] + (rest + b);
      EncodedSplit(rest, b);
      EncodedCons(x, y, z, rest);
      EncodedCons(x, y, z, rest + b);
    }
  }

  /** The number that three bytes make up; those that are missing count as zero. */
  function ThreeBytesAt(s: seq<Byte>, i: nat): nat
    requires i < |s|
  {
    s[i] as int * 0x1_0000 + (if i + 1 < |s| then s[i + 1] as int * 0x100 else 0)
    + (if i + 2 < |s| then s[i + 2] as int else 0)
  }

  /** The number of four groups of six bits. */
  function SixBits(v: seq<Sextet>): nat
    requires |v| == 4
  {
    v[0] as int * 0x4_0000 + v[1] as int * 0x1000 + v[2] as int * 0x40 + v[3] as int
  }

  /** Group g of an encoding: four symbols for the number that bytes 3g to 3g + 2 make up, six bits each and the highest
      first; with one byte missing the last symbol is '=', with two bytes missing the last two are. */
  lemma EncodedStandard(s: seq<Byte>, g: nat) returns (v: seq<Sextet>)
    requires 3 * g < |s|
    ensures |v| == 4 && ThreeBytesAt(s, 3 * g) == SixBits(v)
    ensures var q := Encoded(s)[4 * g..4 * g + 4];
            && q[0] == Symbol(v[0]) as int && q[1] == Symbol(v[1]) as int
            && q[2] == (if 3 * g + 1 < |s| then Symbol(v[2]) as int else '=' as int)
            && q[3] == (if 3 * g + 2 < |s| then Symbol(v[3]) as int else '=' as int)
  {
    hide Encoded, Symbol;
    var a, b := s[..3 * g], s[3 * g..];
    assert s == a + b && ThreeBytesAt(s, 3 * g) == ThreeBytesAt(b, 0);
    EncodedSplit(a, b);
    v := FirstGroup(b);
    SliceBehind(Encoded(a), Encoded(b), 4);
  }

  lemma SliceBehind(a: seq<Byte>, b: seq<Byte>, n: nat)
    requires n <= |b|
    ensures (a + b)[|a|..|a| + n] == b[..n]
  {
  }

  lemma FirstGroup(b: seq<Byte>) returns (v: seq<Sextet>)
    requires b != []
    ensures |v| == 4 && ThreeBytesAt(b, 0) == SixBits(v)
    ensures var q := Encoded(b);
            && |q| >= 4 && q[0] == Symbol(v[0]) as int && q[1] == Symbol(v[1]) as int
            && q[2] == (if |b| > 1 then Symbol(v[2]) as int else '=' as int)
            && q[3] == (if |b| > 2 then Symbol(v[3]) as int else '=' as int)
  {
    v := FourSixes(b[0], if |b| > 1 then b[1] else 0, if |b| > 2 then b[2] else 0);
    hide Symbol, EncMap;
    SymbolIs(v[0]);
    SymbolIs(v[1]);
    SymbolIs(v[2]);
    SymbolIs(v[3]);
  }

  lemma FourSixes(a: Byte, b: Byte, c: Byte) returns (v: seq<Sextet>)
    ensures v == [a / 4, a % 4 * 16 + b / 16, b % 16 * 4 + c / 64, c % 64]
    ensures a as int * 0x1_0000 + b as int * 0x100 + c == SixBits(v)
  {
    v := [a / 4, a % 4 * 16 + b / 16, b % 16 * 4 + c / 64, c % 64];
  }

  /** The buffer that the text and its terminating zero need. */
  function RoomFor(slen: nat): nat {
    4 * ((slen + 2) / 3) + 1
  }

  method Encode(dst: array?<Byte>, dlen: nat, src: array<Byte>, slen: nat) returns (ret: Status, olen: nat)
    requires slen <= src.Length && (dst != null ==> dlen <= dst.Length && dst != src)
    requires slen <= SIZE_T_MAX
    modifies dst
    ensures ret == if slen == 0 || (dst != null && RoomFor(slen) <= dlen && RoomFor(slen) <= SIZE_T_MAX) then Ok
                   else BufferTooSmall
    ensures ret.BufferTooSmall? ==> olen == if RoomFor(slen) <= SIZE_T_MAX then RoomFor(slen) else SIZE_T_MAX
    ensures dst != null && (ret.BufferTooSmall? || slen == 0) ==> dst[..] == old(dst[..])
    ensures ret.Ok? ==> olen == |Encoded(src[..slen])|
    ensures ret.Ok? && slen > 0 ==> dst[..] == Splice(old(dst[..]), 0, Encoded(src[..slen]) + [0])
  {
    hide Splice, Encoded;
    if slen == 0 {
      EncodedEmpty();
      assert src[..0] == [];
      return Ok, 0;
    }
    var n := slen / 3 + if slen % 3 != 0 then 1 else 0;
    if n > (SIZE_T_MAX - 1) / 4 { return BufferTooSmall, SIZE_T_MAX; }
    n := n * 4;
    if dst == null || dlen < n + 1 { return BufferTooSmall, n + 1; }
    var p := EncodeGroups(dst, src, slen);
    ghost var o, s := old(dst[..]), src[..slen];
    p := EncodeRest(dst, p, src, slen, o);
    SpliceSnoc(o, 0, Encoded(s), 0);
    dst[p] := 0;
    return Ok, p;
  }

  /** The loop over groups of three bytes. */
  method EncodeGroups(dst: array<Byte>, src: array<Byte>, slen: nat) returns (p: nat)
    requires dst != src && slen <= src.Length && RoomFor(slen) <= dst.Length
    modifies dst
    ensures p == slen / 3 * 4
    ensures dst[..] == Splice(old(dst[..]), 0, Encoded(src[..slen / 3 * 3]))
  {
    hide Splice, Encoded, EncMap;
    var n, i := slen / 3 * 3, 0;
    p := 0;
    ghost var o := dst[..];
    SpliceEmpty(o, 0);
    EncodedEmpty();
    assert src[..0] == [];
    while i < n
      invariant 0 <= i <= n && i % 3 == 0 && p == i / 3 * 4
      invariant dst[..] == Splice(o, 0, Encoded(src[..i]))
    {
      var c1, c2, c3 := src[i], src[i + 1], src[i + 2];
      EncodedGroup(src[..i], c1, c2, c3);
      Sextets(c1, c2, c3);
      assert src[..i + 3] == src[..i] + [c1, c2, c3];
      PutFour(dst, p, EncMap(c1 / 4 % 64), EncMap((c1 % 4 * 16 + c2 / 16) % 64),
              EncMap((c2 % 16 * 4 + c3 / 64) % 64), EncMap(c3 % 64), o, Encoded(src[..i]));
      p := p + 4;
      i := i + 3;
    }
  }

  lemma EncodedEmpty()
    ensures Encoded([]) == []
  {
  }

  lemma EncodedGroup(a: seq<Byte>, c1: Byte, c2: Byte, c3: Byte)
    requires |a| % 3 == 0
    ensures Encoded(a + [c1, c2, c3]) == Encoded(a) + Group(c1, c2, c3)
  {
    hide Group, LastGroup, Encoded;
    EncodedSplit(a, [c1, c2, c3]);
    EncodedCons(c1, c2, c3, []);
    EncodedEmpty();
    assert [c1, c2, c3] + [] == [c1, c2, c3] && Group(c1, c2, c3) + [] == Group(c1, c2, c3);
  }

  /** The masks in the code cut nothing off. */
  lemma Sextets(c1: Byte, c2: Byte, c3: Byte)
    ensures c1 / 4 % 64 == c1 / 4 && (c1 % 4 * 16 + c2 / 16) % 64 == c1 % 4 * 16 + c2 / 16
    ensures (c2 % 16 * 4 + c3 / 64) % 64 == c2 % 16 * 4 + c3 / 64 && (c2 % 16 * 4) % 64 == c2 % 16 * 4
  {
  }

  /** Four characters behind the text t. */
  method PutFour(dst: array<Byte>, p: nat, a: Byte, b: Byte, c: Byte, d: Byte, ghost o: seq<Byte>, ghost t: seq<Byte>)
    requires |t| == p && p + 4 <= dst.Length == |o| && dst[..] == Splice(o, 0, t)
    modifies dst
    ensures dst[..] == Splice(o, 0, t + [a, b, c, d])
  {
    dst[p] := a;
    dst[p + 1] := b;
    dst[p + 2] := c;
    dst[p + 3] := d;
  }

  /** The last group of one or two bytes, if there is one. */
  method EncodeRest(dst: array<Byte>, start: nat, src: array<Byte>, slen: nat, ghost o: seq<Byte>) returns (p: nat)
    requires dst != src && slen <= src.Length && RoomFor(slen) <= dst.Length == |o| && start == slen / 3 * 4
    requires dst[..] == Splice(o, 0, Encoded(src[..slen / 3 * 3]))
    modifies dst
    ensures p == |Encoded(src[..slen])| && dst[..] == Splice(o, 0, Encoded(src[..slen]))
  {
    hide Splice, EncMap, Encoded;
    p := start;
    var i := slen / 3 * 3;
    ghost var a, b := src[..i], src[i..slen];
    EncodedSplit(a, b);
    WholeGroups(slen);
    assert src[..slen] == a + b;
    if i < slen {
      var c1, c2 := src[i], if i + 1 < slen then src[i + 1] else 0;
      var third := if i + 1 < slen then EncMap((c2 % 16 * 4) % 64) else EQUALS;
      EncodedTail(b, c1, c2);
      PutFour(dst, p, EncMap(c1 / 4 % 64), EncMap((c1 % 4 * 16 + c2 / 16) % 64), third, EQUALS, o, Encoded(a));
      p := p + 4;
    } else {
      EncodedEmpty();
      assert b == [];
      assert Encoded(a) + Encoded(b) == Encoded(a);
    }
  }

  lemma WholeGroups(n: nat)
    ensures (n / 3 * 3 + 2) / 3 == n / 3 && n - n / 3 * 3 < 3
  {
  }

  lemma EncodedTail(b: seq<Byte>, c1: Byte, c2: Byte)
    requires 1 <= |b| <= 2 && c1 == b[0] && c2 == if |b| == 2 then b[1] else 0
    ensures Encoded(b) == [EncMap(c1 / 4 % 64), EncMap((c1 % 4 * 16 + c2 / 16) % 64),
                           if |b| == 2 then EncMap((c2 % 16 * 4) % 64) else EQUALS, EQUALS]
  {
    assert Encoded(b) == LastGroup(b);
    Sextets(c1, c2, 0);
    hide EncMap, Encoded;
  }

  // ----- what a text decodes to -----

  /** The symbols of a text: everything but spaces and line ends. */
  function Symbols(t: seq<Byte>): (r: seq<Byte>)
    ensures |r| <= |t|
  {
    if t == [] then []
    else
      var c := t[|t| - 1];
      Symbols(t[..|t| - 1]) + if c == SPACE || c == CR || c == LF then [] else [c]
  }

  /** The value of four symbols as one number; padding counts as zero. */
  function QuadValue(q: seq<Byte>): nat
    requires |q| == 4 && forall k :: 0 <= k < 4 ==> q[k] < 128
  {
    ((DecMap(q[0]) % 64 * 64 + DecMap(q[1]) % 64) * 64 + DecMap(q[2]) % 64) * 64 + DecMap(q[3]) % 64
  }

  function CountPadding(q: seq<Byte>): (n: nat)
    ensures n <= |q|
  {
    if q == [] then 0 else CountPadding(q[..|q| - 1]) + if q[|q| - 1] == EQUALS then 1 else 0
  }

  /** Three bytes, less one for every padding symbol. */
  function QuadBytes(q: seq<Byte>): (r: seq<Byte>)
    requires |q| == 4 && forall k :: 0 <= k < 4 ==> q[k] < 128
  {
    var v := QuadValue(q);
    [v / 0x1_0000 % 256, v / 256 % 256, v % 256][..if CountPadding(q) <= 3 then 3 - CountPadding(q) else 0]
  }

  /** Where the last complete group of n symbols begins. */
  function LastQuad(n: nat): (k: nat)
    requires n >= 4
    ensures k + 4 <= n && k % 4 == 0
  {
    n - n % 4 - 4
  }

  /** Groups of four symbols; an incomplete last group gives nothing. */
  function Decoded(s: seq<Byte>): (r: seq<Byte>)
    requires forall k :: 0 <= k < |s| ==> s[k] < 128
  {
    if |s| < 4 then []
    else
      var n := LastQuad(|s|);
      Decoded(s[..n]) + QuadBytes(s[n..n + 4])
  }

  /** At most two padding symbols, and none before a digit. */
  ghost predicate WellPadded(s: seq<Byte>) {
    && CountPadding(s) <= 2
    && forall i, j :: 0 <= i < j < |s| && s[i] == EQUALS ==> s[j] == EQUALS
  }

  predicate IsSymbol(c: Byte) {
    c < 128 && DecMap(c) != 127
  }

  /** Spaces only before a line end or the end of the text, carriage returns only before line feeds, else symbols. */
  predicate Local(t: seq<Byte>, k: nat)
    requires k < |t|
  {
    if t[k] == SPACE then k + 1 == |t| || t[k + 1] == SPACE || t[k + 1] == CR || t[k + 1] == LF
    else if t[k] == CR then k + 1 < |t| && t[k + 1] == LF
    else t[k] == LF || IsSymbol(t[k])
  }

  /** The texts that decoding accepts. */
  ghost predicate Admissible(t: seq<Byte>) {
    && (forall k :: 0 <= k < |t| ==> Local(t, k))
    && WellPadded(Symbols(t))
  }

  lemma SymbolsStep(t: seq<Byte>, i: nat)
    requires i < |t|
    ensures Symbols(t[..i + 1]) ==
            if t[i] == SPACE || t[i] == CR || t[i] == LF then Symbols(t[..i]) else Symbols(t[..i]) + [t[i]]
  {
    assert t[..i + 1][..i] == t[..i] && Symbols(t[..i]) + [] == Symbols(t[..i]);
  }

  lemma {:induction false} SymbolsPrefix(t: seq<Byte>, i: nat)
    requires i <= |t|
    ensures Symbols(t[..i]) <= Symbols(t)
  {
    if i == |t| {
      assert t[..i] == t;
    } else {
      SymbolsPrefix(t[..|t| - 1], i);
      assert t[..|t| - 1][..i] == t[..i];
    }
  }

  lemma {:induction false} PaddingPrefix(s: seq<Byte>, i: nat)
    requires i <= |s|
    ensures CountPadding(s[..i]) <= CountPadding(s)
  {
    if i == |s| {
      assert s[..i] == s;
    } else {
      PaddingPrefix(s[..|s| - 1], i);
      assert s[..|s| - 1][..i] == s[..i];
    }
  }

  lemma WellPaddedPrefix(s: seq<Byte>, i: nat)
    requires i <= |s| && WellPadded(s)
    ensures WellPadded(s[..i])
  {
    hide CountPadding;
    PaddingPrefix(s, i);
  }

  /** A text is rejected as soon as a prefix has bad padding. */
  lemma BadPrefix(t: seq<Byte>, i: nat)
    requires i <= |t| && !WellPadded(Symbols(t[..i]))
    ensures !Admissible(t)
  {
    SymbolsPrefix(t, i);
    var n := |Symbols(t[..i])|;
    assert Symbols(t)[..n] == Symbols(t[..i]);
    if WellPadded(Symbols(t)) { WellPaddedPrefix(Symbols(t), n); }
  }

  lemma PaddingStep(s: seq<Byte>, c: Byte)
    ensures CountPadding(s + [c]) == CountPadding(s) + if c == EQUALS then 1 else 0
  {
    assert (s + [c])[..|s|] == s;
  }

  lemma {:induction false} NoPadding(s: seq<Byte>)
    ensures CountPadding(s) == 0 <==> forall k :: 0 <= k < |s| ==> s[k] != EQUALS
  {
    if s != [] { NoPadding(s[..|s| - 1]); }
  }

  /** One more symbol keeps the padding in order unless it is a third padding symbol or a digit behind padding. */
  lemma WellPaddedStep(s: seq<Byte>, c: Byte)
    requires WellPadded(s)
    ensures WellPadded(s + [c]) <==> if c == EQUALS then CountPadding(s) < 2 else CountPadding(s) == 0
  {
    hide CountPadding;
    PaddingStep(s, c);
    NoPadding(s);
    var r := s + [c];
    if c != EQUALS && CountPadding(s) != 0 {
      var k :| 0 <= k < |s| && s[k] == EQUALS;
      assert r[k] == EQUALS && r[|s|] == c;
    }
    if WellPadded(r) { WellPaddedPrefix(r, |s|); }
  }

  // ----- decoding -----

  /** First pass: is the text admissible, how many symbols does it have, how many of them are padding? */
  method FirstPass(src: array<Byte>, slen: nat) returns (ret: Status, n: nat, j: nat)
    requires slen <= src.Length
    ensures ret == if Admissible(src[..slen]) then Ok else InvalidCharacter
    ensures ret.Ok? ==> n == |Symbols(src[..slen])| && j == CountPadding(Symbols(src[..slen]))
  {
    hide Symbols, CountPadding, WellPadded, DecMap;
    ghost var t := src[..slen];
    var i := 0;
    n, j := 0, 0;
    NothingYet(t);
    while i < slen
      invariant 0 <= i <= slen && n == |Symbols(t[..i])| && j == CountPadding(Symbols(t[..i]))
      invariant WellPadded(Symbols(t[..i]))
      invariant forall k :: 0 <= k < i ==> Local(t, k)
    {
      var x;
      i, x := SkipSpaces(src, slen, i);
      if i == slen { break; }
      SymbolsStep(t, i);
      if slen - i >= 2 && src[i] == CR && src[i + 1] == LF {
        i := i + 1;
        continue;
      }
      if src[i] == LF {
        i := i + 1;
        continue;
      }
      if x != 0 {
        assert !Local(t, i - 1) || !Local(t, i);
        return InvalidCharacter, n, j;
      }
      if src[i] == CR {
        assert !Local(t, i);
      } else {
        PaddingStep(Symbols(t[..i]), src[i]);
        WellPaddedStep(Symbols(t[..i]), src[i]);
        if !WellPadded(Symbols(t[..i + 1])) { BadPrefix(t, i + 1); }
      }
      SymbolKinds(src[i]);
      if src[i] == EQUALS {
        j := j + 1;
        if j > 2 { return InvalidCharacter, n, j; }
      }
      if src[i] > 127 || DecMap(src[i]) == 127 {
        assert !Local(t, i);
        return InvalidCharacter, n, j;
      }
      if DecMap(src[i]) < 64 && j != 0 { return InvalidCharacter, n, j; }
      n := n + 1;
      i := i + 1;
    }
    assert t[..slen] == t;
    return Ok, n, j;
  }

  lemma NothingYet(t: seq<Byte>)
    ensures Symbols(t[..0]) == [] && CountPadding([]) == 0 && WellPadded([])
  {
  }

  /** A character with a table value below 64 is no padding, and padding has the value 64. */
  lemma SymbolKinds(c: Byte)
    ensures c < 128 ==> (DecMap(c) == 64 <==> c == EQUALS) && (DecMap(c) < 64 || DecMap(c) == 64 || DecMap(c) == 127)
    ensures c == EQUALS ==> c < 128 && IsSymbol(c)
    ensures c < 128 && (c == SPACE || c == CR || c == LF) ==> DecMap(c) == 127
  {
  }

  method SkipSpaces(src: array<Byte>, slen: nat, start: nat) returns (i: nat, x: nat)
    requires start < slen <= src.Length
    ensures start <= i <= slen && x == i - start && (i < slen ==> src[i] != SPACE)
    ensures forall k :: start <= k < i ==> src[k] == SPACE
    ensures Symbols(src[..slen][..i]) == Symbols(src[..slen][..start])
  {
    hide Symbols;
    i, x := start, 0;
    while i < slen && src[i] == SPACE
      invariant start <= i <= slen && x == i - start
      invariant forall k :: start <= k < i ==> src[k] == SPACE
      invariant Symbols(src[..slen][..i]) == Symbols(src[..slen][..start])
    {
      SymbolsStep(src[..slen], i);
      i := i + 1;
      x := x + 1;
    }
  }

  // ----- lengths -----

  /** The output length that the first pass computes for n symbols, j of them padding. */
  function OutputBound(n: nat, j: nat): int {
    6 * (n / 8) + (6 * (n % 8) + 7) / 8 - j
  }

  /** The computed length does not underflow. */
  lemma BoundNotNegative(n: nat, j: nat)
    requires j <= n && j <= 2
    ensures OutputBound(n, j) >= 0
  {
  }

  /** Padding in order: what is behind the first padding symbol is padding. */
  lemma {:induction false} PaddingSplit(s: seq<Byte>, i: nat)
    requires i <= |s| && WellPadded(s)
    ensures CountPadding(s) == CountPadding(s[..i]) + CountPadding(s[i..])
    ensures CountPadding(s[..i]) > 0 ==> CountPadding(s[i..]) == |s| - i
  {
    if i == |s| {
      assert s[..i] == s && s[i..] == [];
    } else {
      var m := |s| - 1;
      WellPaddedPrefix(s, m);
      PaddingSplit(s[..m], i);
      assert s[..m][..i] == s[..i] && s[..m][i..] == s[i..m];
      assert s[i..][..m - i] == s[i..m];
      if CountPadding(s[..i]) > 0 {
        NoPadding(s[..i]);
        var k :| 0 <= k < i && s[..i][k] == EQUALS;
        assert s[k] == EQUALS && s[m] == EQUALS;
      }
    }
  }

  lemma {:induction false} DecodedSplit(a: seq<Byte>, b: seq<Byte>)
    requires |a| % 4 == 0
    requires (forall k :: 0 <= k < |a| ==> a[k] < 128) && forall k :: 0 <= k < |b| ==> b[k] < 128
    ensures Decoded(a + b) == Decoded(a) + Decoded(b)
  {
    hide QuadBytes, Decoded, LastQuad;
    if |b| >= 4 {
      var n := LastQuad(|b|);
      LastQuadShift(|a|, |b|);
      DecodedSplit(a, b[..n]);
      DecodedStep(b, n);
      DecodedStep(a + b, |a| + n);
      SplitParts(a, b, n);
    } else {
      DecodedShort(b);
      IncompleteTail(a, b);
    }
  }

  lemma IncompleteTail(a: seq<Byte>, b: seq<Byte>)
    requires |a| % 4 == 0 && |b| < 4
    requires (forall k :: 0 <= k < |a| ==> a[k] < 128) && forall k :: 0 <= k < |b| ==> b[k] < 128
    ensures Decoded(a + b) == Decoded(a)
  {
    hide QuadBytes, Decoded, LastQuad;
    if |a| >= 4 {
      var n := |a| - 4;
      LastQuadHere(|a|, |b|);
      DecodedStep(a, n);
      DecodedStep(a + b, n);
      assert (a + b)[..n] == a[..n] && (a + b)[n..n + 4] == a[n..n + 4];
    } else {
      DecodedShort(a);
      DecodedShort(a + b);
    }
  }

  lemma SplitParts(a: seq<Byte>, b: seq<Byte>, n: nat)
    requires n + 4 <= |b|
    ensures (a + b)[..|a| + n] == a + b[..n] && (a + b)[|a| + n..|a| + n + 4] == b[n..n + 4]
  {
  }

  lemma LastQuadShift(m: nat, n: nat)
    requires m % 4 == 0 && n >= 4
    ensures LastQuad(m + n) == m + LastQuad(n)
  {
    assert (m + n) % 4 == n % 4;
  }

  lemma LastQuadHere(m: nat, n: nat)
    requires m % 4 == 0 && m >= 4 && n < 4
    ensures LastQuad(m + n) == m - 4 == LastQuad(m)
  {
    assert (m + n) % 4 == n;
  }

  lemma DecodedStep(s: seq<Byte>, n: nat)
    requires |s| >= 4 && n == LastQuad(|s|) && forall k :: 0 <= k < |s| ==> s[k] < 128
    ensures Decoded(s) == Decoded(s[..n]) + QuadBytes(s[n..n + 4])
  {
  }

  lemma DecodedShort(s: seq<Byte>)
    requires |s| < 4 && forall k :: 0 <= k < |s| ==> s[k] < 128
    ensures Decoded(s) == []
  {
  }

  lemma QuadLength(q: seq<Byte>)
    requires |q| == 4 && (forall k :: 0 <= k < 4 ==> q[k] < 128) && CountPadding(q) <= 2
    ensures |QuadBytes(q)| == 3 - CountPadding(q)
  {
    hide QuadValue, CountPadding;
  }

  /** Every complete group gives three bytes less its padding. */
  lemma {:induction false} DecodedLength(s: seq<Byte>)
    requires WellPadded(s) && forall k :: 0 <= k < |s| ==> s[k] < 128
    ensures |Decoded(s)| == |s| / 4 * 3 - CountPadding(s[..|s| - |s| % 4])
  {
    hide QuadBytes, CountPadding, WellPadded;
    if |s| >= 4 {
      var n := LastQuad(|s|);
      WellPaddedPrefix(s, n + 4);
      WellPaddedPrefix(s, n);
      DecodedLength(s[..n]);
      PaddingSplit(s[..n + 4], n);
      assert s[..n + 4][..n] == s[..n] && s[..n + 4][n..] == s[n..n + 4] && s[..n][..n] == s[..n];
      SmallPadding(s[..n + 4]);
      QuadLength(s[n..n + 4]);
      DivideByFour(|s|);
    } else {
      NothingYet(s);
      assert s[..0] == [];
    }
  }

  lemma SmallPadding(s: seq<Byte>)
    requires WellPadded(s)
    ensures CountPadding(s) <= 2
  {
  }

  lemma DivideByFour(n: nat)
    requires n >= 4
    ensures (n - n % 4 - 4) / 4 == n / 4 - 1 && (n - n % 4 - 4) % 4 == 0
  {
  }

  /** The second pass never writes more than the first pass computed. */
  lemma WritesWithinBound(s: seq<Byte>)
    requires WellPadded(s) && forall k :: 0 <= k < |s| ==> s[k] < 128
    ensures 0 <= |Decoded(s)| <= OutputBound(|s|, CountPadding(s))
  {
    hide Decoded, CountPadding, WellPadded;
    var n := |s| - |s| % 4;
    DecodedLength(s);
    PaddingSplit(s, n);
    SmallPadding(s);
    BoundArith(|s|, CountPadding(s[..n]), CountPadding(s[n..]));
  }

  lemma BoundArith(n: nat, before: nat, behind: nat)
    requires before + behind <= 2 && behind <= n % 4 && before <= n - n % 4
    ensures n / 4 * 3 - before <= OutputBound(n, before + behind)
  {
    var q, r := n / 8, n % 8;
  }

  // ----- round trip -----

  /** Four symbols with the values of three bytes' sextets stand for these bytes, less one for every padding symbol. */
  lemma QuadOfSextets(q: seq<Byte>, a: Byte, b: Byte, c: Byte)
    requires |q| == 4 && (forall k :: 0 <= k < 4 ==> q[k] < 128) && CountPadding(q) <= 2
    requires DecMap(q[0]) % 64 == a / 4 && DecMap(q[1]) % 64 == a % 4 * 16 + b / 16
    requires DecMap(q[2]) % 64 == b % 16 * 4 + c / 64 && DecMap(q[3]) % 64 == c % 64
    ensures QuadBytes(q) == [a, b, c][..3 - CountPadding(q)]
  {
    hide DecMap, CountPadding;
    assert QuadValue(q) == a * 0x1_0000 + b * 256 + c by { QuadArith(a, b, c); }
    hide QuadValue;
    ThreeBytes(a, b, c);
    TopBytes(a, b);
  }

  lemma TopBytes(a: Byte, b: Byte)
    ensures a % 256 == a && (a * 256 + b) % 256 == b
  {
  }

  lemma QuadArith(a: Byte, b: Byte, c: Byte)
    ensures ((a / 4 * 64 + (a % 4 * 16 + b / 16)) * 64 + (b % 16 * 4 + c / 64)) * 64 + c % 64
            == a * 0x1_0000 + b * 256 + c
  {
  }

  lemma ThreeBytes(a: Byte, b: Byte, c: Byte)
    ensures var v := a * 0x1_0000 + b * 256 + c; v / 0x1_0000 == a && v / 256 == a * 256 + b && v % 256 == c
  {
  }

  lemma GroupDecodes(a: Byte, b: Byte, c: Byte)
    ensures forall k :: 0 <= k < 4 ==> Group(a, b, c)[k] < 128
    ensures QuadBytes(Group(a, b, c)) == [a, b, c] && CountPadding(Group(a, b, c)) == 0
  {
    hide EncMap, DecMap, CountPadding, QuadBytes;
    var q := Group(a, b, c);
    TablesAgree(a / 4, 0);
    TablesAgree(a % 4 * 16 + b / 16, 0);
    TablesAgree(b % 16 * 4 + c / 64, 0);
    TablesAgree(c % 64, 0);
    NoPadding(q);
    QuadOfSextets(q, a, b, c);
  }

  lemma LastGroupDecodes(s: seq<Byte>)
    requires 1 <= |s| <= 2
    ensures forall k :: 0 <= k < 4 ==> LastGroup(s)[k] < 128
    ensures QuadBytes(LastGroup(s)) == s && CountPadding(LastGroup(s)) == 3 - |s| && WellPadded(LastGroup(s))
  {
    hide EncMap, DecMap, CountPadding, QuadBytes, WellPadded;
    var q, a, b := LastGroup(s), s[0], if |s| == 2 then s[1] else 0;
    TablesAgree(a / 4, 0);
    TablesAgree(a % 4 * 16 + b / 16, 0);
    TablesAgree(b % 16 * 4, 0);
    SymbolKinds(EQUALS);
    LastGroupPadding(q, |s|);
    QuadOfSextets(q, a, b, 0);
    assert [a, b, 0][..|s|] == s;
  }

  lemma LastGroupPadding(q: seq<Byte>, n: nat)
    requires |q| == 4 && 1 <= n <= 2 && q[0] != EQUALS && q[1] != EQUALS && q[3] == EQUALS && (n == 1 <==> q[2] == EQUALS)
    ensures CountPadding(q) == 3 - n && WellPadded(q)
  {
    hide CountPadding;
    PaddingStep(q[..3], q[3]);
    PaddingStep(q[..2], q[2]);
    NoPadding(q[..2]);
    assert q == q[..3] + [q[3]] && q[..3] == q[..2] + [q[2]];
  }

  /** The text of an encoding has no spaces, its padding is in order, and it decodes to what was encoded. */
  lemma {:induction false} RoundTrip(s: seq<Byte>)
    ensures forall k :: 0 <= k < |Encoded(s)| ==> Encoded(s)[k] < 128 && IsSymbol(Encoded(s)[k])
    ensures WellPadded(Encoded(s)) && Decoded(Encoded(s)) == s
    decreases |s|
  {
    hide QuadBytes, EncMap, DecMap, CountPadding, WellPadded, LastGroup, Group;
    if s == [] {
      NothingYet([]);
    } else if |s| < 3 {
      LastGroupDecodes(s);
      DecodedShort([]);
      LastGroupSymbols(s);
      DecodedStep(LastGroup(s), 0);
      assert LastGroup(s)[0..4] == LastGroup(s) && LastGroup(s)[..0] == [] && [] + s == s;
    } else {
      var g, rest := Group(s[0], s[1], s[2]), Encoded(s[3..]);
      RoundTrip(s[3..]);
      GroupDecodes(s[0], s[1], s[2]);
      GroupSymbols(s[0], s[1], s[2]);
      DecodedShort([]);
      DecodedStep(g, 0);
      assert g[0..4] == g && g[..0] == [] && [] + QuadBytes(g) == QuadBytes(g);
      DecodedSplit(g, rest);
      UnpaddedFront(g, rest);
      assert s == [s[0], s[1], s[2]] + s[3..];
    }
  }

  lemma GroupSymbols(a: Byte, b: Byte, c: Byte)
    ensures forall k :: 0 <= k < 4 ==> IsSymbol(Group(a, b, c)[k])
  {
    TablesAgree(a / 4, 0);
    TablesAgree(a % 4 * 16 + b / 16, 0);
    TablesAgree(b % 16 * 4 + c / 64, 0);
    TablesAgree(c % 64, 0);
    hide EncMap, DecMap;
  }

  lemma LastGroupSymbols(s: seq<Byte>)
    requires 1 <= |s| <= 2
    ensures forall k :: 0 <= k < 4 ==> IsSymbol(LastGroup(s)[k])
  {
    var b := if |s| == 2 then s[1] else 0;
    TablesAgree(s[0] / 4, 0);
    TablesAgree(s[0] % 4 * 16 + b / 16, 0);
    TablesAgree(b % 16 * 4, 0);
    SymbolKinds(EQUALS);
    hide EncMap, DecMap;
  }

  /** Symbols without padding may stand in front of any well padded ones. */
  lemma {:induction false} UnpaddedFront(g: seq<Byte>, s: seq<Byte>)
    requires CountPadding(g) == 0 && WellPadded(s)
    ensures WellPadded(g + s) && CountPadding(g + s) == CountPadding(s)
  {
    hide CountPadding;
    if s == [] {
      assert g + s == g;
      NoPadding(g);
    } else {
      var n := |s| - 1;
      WellPaddedPrefix(s, n);
      UnpaddedFront(g, s[..n]);
      assert g + s == g + s[..n] + [s[n]] && s == s[..n] + [s[n]];
      WellPaddedStep(s[..n], s[n]);
      WellPaddedStep(g + s[..n], s[n]);
      PaddingStep(s[..n], s[n]);
      PaddingStep(g + s[..n], s[n]);
    }
  }

  /** An encoding is an admissible text whose symbols are itself. */
  lemma EncodingAdmissible(s: seq<Byte>)
    ensures Admissible(Encoded(s)) && Symbols(Encoded(s)) == Encoded(s)
  {
    hide Encoded, CountPadding, WellPadded, Symbols;
    RoundTrip(s);
    AllSymbols(Encoded(s));
  }

  lemma {:induction false} AllSymbols(t: seq<Byte>)
    requires forall k :: 0 <= k < |t| ==> IsSymbol(t[k])
    ensures Symbols(t) == t && forall k :: 0 <= k < |t| ==> Local(t, k)
  {
    if t != [] {
      var n := |t| - 1;
      AllSymbols(t[..n]);
      assert t == t[..n] + [t[n]];
      forall k | 0 <= k < |t| ensures Local(t, k) { SymbolKinds(t[k]); }
      SymbolKinds(t[n]);
    }
  }

  lemma {:induction false} SymbolsSplit(a: seq<Byte>, b: seq<Byte>)
    ensures Symbols(a + b) == Symbols(a) + Symbols(b)
  {
    if b == [] {
      assert a + b == a && Symbols(a) + [] == Symbols(a);
    } else {
      hide Symbols;
      var n := |b| - 1;
      SymbolsSplit(a, b[..n]);
      SymbolsLast(b);
      SymbolsLast(a + b);
      assert (a + b)[..|a| + n] == a + b[..n];
    }
  }

  lemma SymbolsLast(t: seq<Byte>)
    requires t != []
    ensures var n := |t| - 1;
            Symbols(t) == Symbols(t[..n]) + if t[n] == SPACE || t[n] == CR || t[n] == LF then [] else [t[n]]
  {
  }

  /** A line break may be inserted anywhere except inside another one; the text stays admissible and keeps its
      symbols, so it decodes to the same bytes. */
  lemma LineBreakInserted(t: seq<Byte>, i: nat, crlf: bool)
    requires Admissible(t) && i <= |t| && (i > 0 ==> t[i - 1] != CR)
    ensures var r := t[..i] + LineBreak(crlf) + t[i..];
            Admissible(r) && Symbols(r) == Symbols(t)
  {
    hide WellPadded, Symbols, Local;
    var r := t[..i] + LineBreak(crlf) + t[i..];
    BreakHasNoSymbols(crlf);
    SymbolsSplit(t[..i], LineBreak(crlf));
    SymbolsSplit(t[..i] + LineBreak(crlf), t[i..]);
    SymbolsSplit(t[..i], t[i..]);
    assert t[..i] + t[i..] == t && Symbols(t[..i]) + [] == Symbols(t[..i]);
    forall k | 0 <= k < |r| ensures Local(r, k) {
      LocalAround(t, i, crlf, k);
    }
  }

  function LineBreak(crlf: bool): (r: seq<Byte>)
    ensures |r| > 0
  {
    if crlf then [CR, LF] else [LF]
  }

  lemma LocalAround(t: seq<Byte>, i: nat, crlf: bool, k: nat)
    requires (forall l :: 0 <= l < |t| ==> Local(t, l)) && i <= |t| && (i > 0 ==> t[i - 1] != CR)
    requires k < |t| + |LineBreak(crlf)|
    ensures Local(t[..i] + LineBreak(crlf) + t[i..], k)
  {
    hide IsSymbol;
    var br := LineBreak(crlf);
    var r := t[..i] + br + t[i..];
    if k < i {
      assert r[k] == t[k] && Local(t, k);
      if k + 1 < i { assert r[k + 1] == t[k + 1]; } else { assert r[k + 1] == br[0]; }
    } else if k < i + |br| {
      assert r[k] == br[k - i];
    } else {
      var l := k - |br|;
      assert r[k] == t[l] && Local(t, l);
      if k + 1 < |r| { assert r[k + 1] == t[l + 1]; }
    }
  }

  lemma BreakHasNoSymbols(crlf: bool)
    ensures Symbols(LineBreak(crlf)) == []
  {
    var br := LineBreak(crlf);
    assert Symbols(br[..0]) == [];
    SymbolsStep(br, 0);
    if crlf { SymbolsStep(br, 1); }
    assert br[..|br|] == br;
  }

  // ----- the accepted texts -----

  ghost predicate InAlphabet(c: Byte) {
    c == '=' as int || exists v: Sextet :: Symbol(v) as int == c
  }

  /** Read from the left: line feeds, pairs of carriage return and line feed, and symbols; behind spaces only more
      spaces, a line end or the end of the text. */
  ghost predicate InLines(t: seq<Byte>, spaced: bool) {
    if t == [] then true
    else if t[0] == 10 then InLines(t[1..], false)
    else if t[0] == 13 then |t| > 1 && t[1] == 10 && InLines(t[2..], false)
    else if t[0] == 32 then InLines(t[1..], true)
    else !spaced && InAlphabet(t[0]) && InLines(t[1..], false)
  }

  /** Symbols other than '=', and then none, one or two of those. */
  ghost predicate PaddedBy(s: seq<Byte>, k: nat) {
    && k <= 2 && k <= |s|
    && forall i :: 0 <= i < |s| ==> (s[i] == '=' as int <==> i >= |s| - k)
  }

  lemma SymbolInAlphabet(c: Byte)
    ensures IsSymbol(c) <==> InAlphabet(c)
  {
    hide Symbol;
    TablesAreAlphabet(0, c);
    forall v: Sextet | Symbol(v) as int == c ensures IsSymbol(c) { TablesAreAlphabet(v, c); }
  }

  /** What may stand behind a space. */
  predicate EndsLine(t: seq<Byte>) {
    t == [] || t[0] == SPACE || t[0] == CR || t[0] == LF
  }

  lemma LocalTail(t: seq<Byte>, k: nat)
    requires 0 < k < |t|
    ensures Local(t, k) <==> Local(t[1..], k - 1)
  {
    hide IsSymbol;
  }

  lemma AllLocal(t: seq<Byte>)
    requires t != []
    ensures (forall k :: 0 <= k < |t| ==> Local(t, k)) <==>
            Local(t, 0) && forall k :: 0 <= k < |t| - 1 ==> Local(t[1..], k)
  {
    hide Local;
    forall k | 0 < k < |t| ensures Local(t, k) <==> Local(t[1..], k - 1) { LocalTail(t, k); }
    if forall k :: 0 <= k < |t| ==> Local(t, k) {
      forall k | 0 <= k < |t| - 1 ensures Local(t[1..], k) { assert Local(t, k + 1); }
    }
    if Local(t, 0) && forall k :: 0 <= k < |t| - 1 ==> Local(t[1..], k) {
      forall k | 0 <= k < |t| ensures Local(t, k) {
        if k > 0 { assert Local(t[1..], k - 1); }
      }
    }
  }

  lemma {:induction false} LocalIsInLines(t: seq<Byte>, spaced: bool)
    ensures InLines(t, spaced) <==> (spaced ==> EndsLine(t)) && forall k :: 0 <= k < |t| ==> Local(t, k)
    decreases |t|
  {
    hide InAlphabet, IsSymbol;
    if t != [] {
      SymbolInAlphabet(t[0]);
      SymbolKinds(t[0]);
      AllLocal(t);
      LocalIsInLines(t[1..], t[0] == SPACE);
      if t[0] == CR && |t| > 1 && t[1] == LF {
        AllLocal(t[1..]);
        LocalIsInLines(t[2..], false);
        assert t[1..][1..] == t[2..];
      }
    }
  }

  lemma {:induction false} PaddingBehind(s: seq<Byte>, k: nat)
    requires k <= |s| && forall i :: 0 <= i < |s| ==> (s[i] == EQUALS <==> i >= |s| - k)
    ensures CountPadding(s) == k
  {
    if s != [] { PaddingBehind(s[..|s| - 1], if k > 0 then k - 1 else 0); }
  }

  /** The padding characters begin somewhere. */
  lemma {:induction false} PaddingBegins(s: seq<Byte>) returns (k: nat)
    requires forall i, j :: 0 <= i < j < |s| && s[i] == EQUALS ==> s[j] == EQUALS
    ensures k <= |s| && forall i :: 0 <= i < |s| ==> (s[i] == EQUALS <==> i >= |s| - k)
  {
    if s == [] || s[|s| - 1] != EQUALS {
      k := 0;
    } else {
      k := PaddingBegins(s[..|s| - 1]);
      k := k + 1;
    }
  }

  lemma WellPaddedMeans(s: seq<Byte>)
    ensures WellPadded(s) <==> exists k: nat :: PaddedBy(s, k)
  {
    hide CountPadding;
    if WellPadded(s) {
      var k := PaddingBegins(s);
      PaddingBehind(s, k);
      assert PaddedBy(s, k);
    }
    if exists k: nat :: PaddedBy(s, k) {
      var k: nat :| PaddedBy(s, k);
      PaddingBehind(s, k);
    }
  }

  /** The accepted texts are lines of symbols with spaces at their ends alone, whose symbols end in at most two '=' and
      have no other. */
  lemma AdmissibleTexts(t: seq<Byte>)
    ensures Admissible(t) <==> InLines(t, false) && exists k: nat :: PaddedBy(Symbols(t), k)
  {
    hide WellPadded, Symbols, Local, InLines, PaddedBy;
    LocalIsInLines(t, false);
    WellPaddedMeans(Symbols(t));
    assert InLines(t, false) <==> forall k :: 0 <= k < |t| ==> Local(t, k);
    assert WellPadded(Symbols(t)) <==> exists k: nat :: PaddedBy(Symbols(t), k);
    assert Admissible(t) <==> WellPadded(Symbols(t)) && forall k :: 0 <= k < |t| ==> Local(t, k);
  }

  /** A piece of a text and what follows it. */
  datatype Ending = Nothing | Lf | CrLf
  datatype Line = Line(symbols: seq<Byte>, ending: Ending)

  function EndingBytes(e: Ending): seq<Byte> {
    match e
    case Nothing => []
    case Lf => LineBreak(false)
    case CrLf => LineBreak(true)
  }

  /** The text with its line breaks. */
  function Laid(lines: seq<Line>): seq<Byte> {
    if lines == [] then [] else lines[0].symbols + EndingBytes(lines[0].ending) + Laid(lines[1..])
  }

  /** The text without them. */
  function Content(lines: seq<Line>): seq<Byte> {
    if lines == [] then [] else lines[0].symbols + Content(lines[1..])
  }

  /** However an encoding is cut into lines, empty ones included, and whichever ends they have, the text is
      accepted and decodes to what was encoded. */
  lemma LinesRoundTrip(s: seq<Byte>, lines: seq<Line>)
    requires Content(lines) == Encoded(s)
    ensures Admissible(Laid(lines)) && Symbols(Laid(lines)) == Encoded(s)
    ensures (forall k :: 0 <= k < |Symbols(Laid(lines))| ==> Symbols(Laid(lines))[k] < 128)
         && Decoded(Symbols(Laid(lines))) == s
  {
    hide Encoded, Decoded, WellPadded, Symbols, Content, Laid, IsSymbol, Local;
    RoundTrip(s);
    LaidOut(lines);
    BreaksSkipped(lines);
  }

  /** No spaces, and nothing else that depends on what follows the text. */
  ghost predicate Closed(t: seq<Byte>) {
    forall k :: 0 <= k < |t| ==> Local(t, k) && t[k] != SPACE
  }

  lemma ClosedJoin(a: seq<Byte>, b: seq<Byte>)
    requires Closed(a) && Closed(b)
    ensures Closed(a + b)
  {
    hide IsSymbol;
    var r := a + b;
    forall k | 0 <= k < |r| ensures Local(r, k) && r[k] != SPACE {
      if k < |a| {
        assert r[k] == a[k] && Local(a, k);
        if k + 1 < |a| { assert r[k + 1] == a[k + 1]; }
      } else {
        var l := k - |a|;
        assert r[k] == b[l] && Local(b, l);
        if l + 1 < |b| { assert r[k + 1] == b[l + 1]; }
      }
    }
  }

  lemma ClosedPiece(t: seq<Byte>, e: Ending)
    requires forall k :: 0 <= k < |t| ==> IsSymbol(t[k])
    ensures Closed(t) && Closed(EndingBytes(e))
  {
    hide Symbols;
    AllSymbols(t);
    forall k | 0 <= k < |t| ensures t[k] != SPACE { SymbolKinds(t[k]); }
  }

  lemma {:induction false} LaidOut(lines: seq<Line>)
    requires forall k :: 0 <= k < |Content(lines)| ==> IsSymbol(Content(lines)[k])
    ensures forall k :: 0 <= k < |Laid(lines)| ==> Local(Laid(lines), k)
    ensures Closed(Laid(lines))
  {
    if lines != [] {
      var l := lines[0];
      assert Content(lines) == l.symbols + Content(lines[1..]);
      SymbolsOfBoth(l.symbols, Content(lines[1..]));
      ClosedPiece(l.symbols, l.ending);
      LaidOut(lines[1..]);
      hide Closed, Local, IsSymbol, EndingBytes;
      ClosedJoin(l.symbols, EndingBytes(l.ending));
      ClosedJoin(l.symbols + EndingBytes(l.ending), Laid(lines[1..]));
    }
    ClosedLocal(Laid(lines));
  }

  lemma ClosedLocal(t: seq<Byte>)
    requires Closed(t)
    ensures forall k :: 0 <= k < |t| ==> Local(t, k)
  {
  }

  lemma SymbolsOfBoth(a: seq<Byte>, b: seq<Byte>)
    requires forall k :: 0 <= k < |a + b| ==> IsSymbol((a + b)[k])
    ensures (forall k :: 0 <= k < |a| ==> IsSymbol(a[k])) && forall k :: 0 <= k < |b| ==> IsSymbol(b[k])
  {
    hide IsSymbol;
    forall k | 0 <= k < |a| ensures IsSymbol(a[k]) { assert (a + b)[k] == a[k]; }
    forall k | 0 <= k < |b| ensures IsSymbol(b[k]) { assert (a + b)[|a| + k] == b[k]; }
  }

  lemma {:induction false} BreaksSkipped(lines: seq<Line>)
    requires forall k :: 0 <= k < |Content(lines)| ==> IsSymbol(Content(lines)[k])
    ensures Symbols(Laid(lines)) == Content(lines)
  {
    hide IsSymbol, Local, Symbols;
    if lines == [] {
      NothingYet([]);
    } else {
      var l, rest := lines[0], lines[1..];
      assert Content(lines) == l.symbols + Content(rest);
      SymbolsOfBoth(l.symbols, Content(rest));
      AllSymbols(l.symbols);
      EndingSkipped(l.ending);
      BreaksSkipped(rest);
      SymbolsSplit(l.symbols, EndingBytes(l.ending));
      SymbolsSplit(l.symbols + EndingBytes(l.ending), Laid(rest));
    }
  }

  lemma EndingSkipped(e: Ending)
    ensures Symbols(EndingBytes(e)) == []
  {
    hide Symbols;
    NothingYet([]);
    BreakHasNoSymbols(false);
    BreakHasNoSymbols(true);
  }

  // ----- the second pass -----

  const UINT32 := 0x1_0000_0000

  /** 64 to the power n, for up to four symbols. */
  function Power64(n: nat): nat {
    if n == 0 then 1 else if n == 1 then 64 else if n == 2 then 0x1000 else if n == 3 then 0x4_0000 else 0x100_0000
  }

  /** The value of the last n symbols. */
  function Part(s: seq<Byte>, n: nat): (v: nat)
    requires n <= |s| && forall k :: 0 <= k < |s| ==> s[k] < 128
  {
    if n == 0 then 0 else Part(s[..|s| - 1], n - 1) * 64 + DecMap(s[|s| - 1]) % 64
  }

  /** Six more bits in the 32-bit accumulator. */
  function ShiftedIn(x: nat, v: nat): nat {
    BitOr((x * 64) % UINT32, v)
  }

  lemma ShiftIn(x: nat, v: nat, n: nat)
    requires x < UINT32 && v < 64 && n < 4
    ensures ShiftedIn(x, v) < UINT32 && ShiftedIn(x, v) % Power64(n + 1) == (x % Power64(n)) * 64 + v
  {
    var m := x % 0x400_0000;
    assert (x * 64) % UINT32 == m * 64;
    assert Pow2(6) == 64;
    hide BitOr, Pow2;
    BitOrDisjoint(m, v, 6);
    ShiftArith(x, m, v, n);
  }

  lemma ShiftArith(x: nat, m: nat, v: nat, n: nat)
    requires m == x % 0x400_0000 && v < 64 && n < 4
    ensures (m * 64 + v) % Power64(n + 1) == (x % Power64(n)) * 64 + v
  {
    var w, k := Power64(n), x / 0x400_0000;
    var q, r := DivMod(m, w);
    var h := if n == 0 then 0x400_0000 else if n == 1 then 0x10_0000 else if n == 2 then 0x4000 else 0x100;
    Regroup(k, h, q, w, r);
    DivUnique(x, w, k * h + q, r);
    Regroup64(q, w, r, v);
    DivUnique(m * 64 + v, 64 * w, q, r * 64 + v);
  }

  lemma Regroup(k: nat, h: nat, q: nat, w: nat, r: nat)
    requires h * w == 0x400_0000
    ensures 0x400_0000 * k + (q * w + r) == (k * h + q) * w + r
  {
    MulAssoc(k, h, w);
  }

  lemma Regroup64(q: nat, w: nat, r: nat, v: nat)
    requires r < w && v < 64
    ensures (q * w + r) * 64 + v == q * (64 * w) + (r * 64 + v) && r * 64 + v < 64 * w
  {
    MulAssoc(q, w, 64);
  }

  lemma LowBytes(x: nat, v: nat)
    requires x % 0x100_0000 == v
    ensures x / 0x1_0000 % 256 == v / 0x1_0000 % 256 && x / 256 % 256 == v / 256 % 256 && x % 256 == v % 256
  {
    var q := x / 0x100_0000;
    var a, b, c := v / 0x1_0000, v / 256 % 256, v % 256;
    assert v == a * 0x1_0000 + b * 256 + c;
    Digits256(a, b, c);
    Digits256(a + 256 * q, b, c);
    LowByte(a, q);
    LowByte(b, a);
    LowByte(b, a + 256 * q);
  }

  lemma Digits256(a: nat, b: nat, c: nat)
    requires b < 256 && c < 256
    ensures var v := a * 0x1_0000 + b * 256 + c; v / 0x1_0000 == a && v / 256 == b + 256 * a && v % 256 == c
  {
  }

  lemma QuadOfPart(s: seq<Byte>)
    requires |s| >= 4 && forall k :: 0 <= k < |s| ==> s[k] < 128
    ensures QuadValue(s[|s| - 4..]) == Part(s, 4)
  {
    hide DecMap, Symbols, Decoded;
    var n := |s|;
    assert s[..n - 1][..n - 2] == s[..n - 2] && s[..n - 2][..n - 3] == s[..n - 3] && s[..n - 3][..n - 4] == s[..n - 4];
    assert Part(s[..n - 3], 1) == DecMap(s[n - 4]) % 64;
    assert Part(s[..n - 2], 2) == Part(s[..n - 3], 1) * 64 + DecMap(s[n - 3]) % 64;
    assert Part(s[..n - 1], 3) == Part(s[..n - 2], 2) * 64 + DecMap(s[n - 2]) % 64;
  }

  lemma {:induction false} SymbolsAscii(t: seq<Byte>)
    requires forall k :: 0 <= k < |t| ==> t[k] == SPACE || t[k] == CR || t[k] == LF || IsSymbol(t[k])
    ensures forall k :: 0 <= k < |Symbols(t)| ==> Symbols(t)[k] < 128
  {
    hide DecMap;
    if t != [] { SymbolsAscii(t[..|t| - 1]); }
  }

  /** An incomplete group adds nothing yet. */
  lemma DecodedGrow(s: seq<Byte>, c: Byte)
    requires (|s| + 1) % 4 != 0 && c < 128 && forall k :: 0 <= k < |s| ==> s[k] < 128
    ensures Decoded(s + [c]) == Decoded(s)
  {
    hide QuadBytes, Decoded, LastQuad;
    var r := s + [c];
    if |s| >= 4 {
      LastQuadGrow(|s|);
      var n := LastQuad(|s|);
      DecodedStep(s, n);
      DecodedStep(r, n);
      assert r[..n] == s[..n] && r[n..n + 4] == s[n..n + 4];
    } else {
      DecodedShort(s);
      DecodedShort(r);
    }
  }

  lemma LastQuadGrow(n: nat)
    requires n >= 4 && (n + 1) % 4 != 0
    ensures LastQuad(n + 1) == LastQuad(n)
  {
  }

  /** What the second pass knows once the symbols s are behind it. */
  ghost predicate Progress(s: seq<Byte>, o: seq<Byte>, out: seq<Byte>, p: nat, n: nat, j: nat, x: nat)
    requires forall k :: 0 <= k < |s| ==> s[k] < 128
  {
    && n == |s| % 4 && j == 3 - CountPadding(s) && x < UINT32 && x % Power64(n) == Part(s, n)
    && p == |Decoded(s)| <= |o| && out == Splice(o, 0, Decoded(s))
  }

  method SecondPass(dst: array<Byte>, src: array<Byte>, slen: nat) returns (p: nat)
    requires dst != src && slen <= src.Length && Admissible(src[..slen])
    requires forall k :: 0 <= k < |Symbols(src[..slen])| ==> Symbols(src[..slen])[k] < 128
    requires |Decoded(Symbols(src[..slen]))| <= dst.Length
    modifies dst
    ensures p == |Decoded(Symbols(src[..slen]))|
    ensures dst[..] == Splice(old(dst[..]), 0, Decoded(Symbols(src[..slen])))
  {
    hide Symbols, CountPadding, WellPadded, DecMap, Progress, Decoded, Splice, BitOr;
    ghost var t, o := src[..slen], dst[..];
    ghost var all := Symbols(t);
    var i, pos, j, n, x := slen, 0, 3, 0, 0;
    p := 0;
    ProgressStart(o);
    NothingYet(t);
    ghost var s: seq<Byte> := [];
    while i > 0
      invariant pos == slen - i && s == Symbols(t[..pos]) && s <= all
      invariant Progress(s, o, dst[..], p, n, j, x)
    {
      SymbolsStep(t, pos);
      SymbolsPrefix(t, pos + 1);
      assert Local(t, pos);
      var c := src[pos];
      if c == CR || c == LF || c == SPACE {
        i, pos := i - 1, pos + 1;
        continue;
      }
      assert all[..|s| + 1] == s + [c] && all[|s|] == c;
      p, n, j, x := TakeSymbol(dst, p, n, j, x, c, o, s, all);
      s := s + [c];
      i, pos := i - 1, pos + 1;
    }
    assert t[..slen] == t;
    ProgressDone(s, o, dst[..], p, n, j, x);
  }

  lemma ProgressStart(o: seq<Byte>)
    ensures Progress([], o, o, 0, 0, 3, 0)
  {
    SpliceEmpty(o, 0);
  }

  lemma ProgressDone(s: seq<Byte>, o: seq<Byte>, out: seq<Byte>, p: nat, n: nat, j: nat, x: nat)
    requires forall k :: 0 <= k < |s| ==> s[k] < 128
    requires Progress(s, o, out, p, n, j, x)
    ensures p == |Decoded(s)| <= |o| && out == Splice(o, 0, Decoded(s))
  {
  }

  /** One symbol; every fourth one completes a group and writes its bytes. */
  method TakeSymbol(dst: array<Byte>, p: nat, n: nat, j: nat, x: nat, c: Byte,
                    ghost o: seq<Byte>, ghost s: seq<Byte>, ghost all: seq<Byte>)
    returns (p': nat, n': nat, j': nat, x': nat)
    requires (forall k :: 0 <= k < |all| ==> all[k] < 128) && WellPadded(all) && s + [c] <= all
    requires forall k :: 0 <= k < |s| ==> s[k] < 128
    requires c < 128 && |Decoded(all)| <= dst.Length == |o|
    requires Progress(s, o, dst[..], p, n, j, x)
    modifies dst
    ensures Progress(s + [c], o, dst[..], p', n', j', x')
  {
    hide CountPadding, WellPadded, DecMap, Decoded, Splice, ShiftedIn, Power64, Part, Progress, QuadBytes, QuadValue;
    ghost var r := s + [c];
    assert r[..|r| - 1] == s && |r| == |s| + 1;
    Shifted(s, o, dst[..], p, n, j, x, c, all);
    j' := j - if DecMap(c) == 64 then 1 else 0;
    x' := ShiftedIn(x, DecMap(c) % 64);
    n' := n + 1;
    p' := p;
    if n' == 4 {
      n' := 0;
      GroupComplete(r, all);
      p' := PutBytes(dst, p, x', j', o, Decoded(s), r[|r| - 4..]);
      GroupWritten(r, o, dst[..], p', j', x');
    } else {
      DecodedGrow(s, c);
      GroupGrows(r, o, dst[..], p', n', j', x');
    }
  }

  /** The symbol is shifted into the accumulator and counted. */
  lemma Shifted(s: seq<Byte>, o: seq<Byte>, out: seq<Byte>, p: nat, n: nat, j: nat, x: nat, c: Byte, all: seq<Byte>)
    requires (forall k :: 0 <= k < |s| ==> s[k] < 128) && c < 128
    requires s + [c] <= all && WellPadded(all) && Progress(s, o, out, p, n, j, x)
    ensures var r, x' := s + [c], ShiftedIn(x, DecMap(c) % 64);
            && x' < UINT32 && n == |s| % 4 && |r| >= n + 1 && x' % Power64(n + 1) == Part(r, n + 1)
            && CountPadding(r) <= 2 && j - (if DecMap(c) == 64 then 1 else 0) == 3 - CountPadding(r)
            && p == |Decoded(s)| <= |o| && out == Splice(o, 0, Decoded(s))
            && (n + 1 == 4 ==> |r| % 4 == 0 && x' % 0x100_0000 == QuadValue(r[|r| - 4..]))
            && (n + 1 != 4 ==> |r| % 4 == n + 1 != 0)
  {
    hide CountPadding, WellPadded, DecMap, Decoded, Splice, ShiftedIn, Power64, Part, QuadValue;
    var r := s + [c];
    PaddingStep(s, c);
    assert all[..|r|] == r;
    WellPaddedPrefix(all, |r|);
    SmallPadding(r);
    SymbolKinds(c);
    ShiftIn(x, DecMap(c) % 64, n);
    PartStep(s, c, n);
    Four(r, x);
    NextPlace(|s|);
    if n + 1 == 4 { QuadOfPart(r); }
  }

  lemma NextPlace(m: nat)
    ensures if m % 4 == 3 then (m + 1) % 4 == 0 && m >= 3 else (m + 1) % 4 == m % 4 + 1
  {
  }

  lemma GroupWritten(r: seq<Byte>, o: seq<Byte>, out: seq<Byte>, p: nat, j: nat, x: nat)
    requires (forall k :: 0 <= k < |r| ==> r[k] < 128) && |r| % 4 == 0 && x < UINT32 && j == 3 - CountPadding(r)
    requires p == |Decoded(r)| <= |o| && out == Splice(o, 0, Decoded(r))
    ensures Progress(r, o, out, p, 0, j, x)
  {
    hide CountPadding, Decoded, Splice;
    Four(r, x);
  }

  lemma GroupGrows(r: seq<Byte>, o: seq<Byte>, out: seq<Byte>, p: nat, n: nat, j: nat, x: nat)
    requires (forall k :: 0 <= k < |r| ==> r[k] < 128) && n == |r| % 4 && x < UINT32 && j == 3 - CountPadding(r)
    requires x % Power64(n) == Part(r, n) && p == |Decoded(r)| <= |o| && out == Splice(o, 0, Decoded(r))
    ensures Progress(r, o, out, p, n, j, x)
  {
  }

  lemma Four(r: seq<Byte>, x: nat)
    requires forall k :: 0 <= k < |r| ==> r[k] < 128
    ensures Power64(4) == 0x100_0000 && Power64(0) == 1 && Part(r, 0) == 0 && x % 1 == 0
  {
  }

  lemma PartStep(s: seq<Byte>, c: Byte, n: nat)
    requires n <= |s| && c < 128 && forall k :: 0 <= k < |s| ==> s[k] < 128
    ensures Part(s + [c], n + 1) == Part(s, n) * 64 + DecMap(c) % 64
  {
    hide DecMap;
    assert (s + [c])[..|s|] == s;
  }

  /** A completed group holds all the padding so far, and the output grows by its bytes, inside the final output. */
  lemma GroupComplete(r: seq<Byte>, all: seq<Byte>)
    requires (forall k :: 0 <= k < |all| ==> all[k] < 128) && WellPadded(all) && r <= all
    requires |r| >= 4 && |r| % 4 == 0
    ensures CountPadding(r[|r| - 4..]) == CountPadding(r) <= 2
    ensures Decoded(r) == Decoded(r[..|r| - 1]) + QuadBytes(r[|r| - 4..])
    ensures |Decoded(r)| <= |Decoded(all)|
  {
    hide CountPadding, WellPadded, DecMap, Decoded, QuadBytes, LastQuad;
    var n := |r| - 4;
    assert all[..|r|] == r && all == r + all[|r|..];
    WellPaddedPrefix(all, |r|);
    SmallPadding(r);
    PaddingSplit(r, n);
    DecodedSplit(r, all[|r|..]);
    LastQuadHere(|r|, 0);
    DecodedStep(r, n);
    assert r[n..n + 4] == r[n..];
    GroupIncomplete(r);
  }

  lemma GroupIncomplete(r: seq<Byte>)
    requires |r| >= 4 && |r| % 4 == 0 && forall k :: 0 <= k < |r| ==> r[k] < 128
    ensures Decoded(r[..|r| - 1]) == Decoded(r[..|r| - 4])
  {
    hide Decoded;
    var n := |r| - 4;
    DecodedGrow(r[..n], r[n]);
    DecodedGrow(r[..n + 1], r[n + 1]);
    DecodedGrow(r[..n + 2], r[n + 2]);
    assert r[..n] + [r[n]] == r[..n + 1] && r[..n + 1] + [r[n + 1]] == r[..n + 2];
    assert r[..n + 2] + [r[n + 2]] == r[..n + 3];
  }

  method PutBytes(dst: array<Byte>, p: nat, x: nat, j: nat, ghost o: seq<Byte>, ghost d: seq<Byte>, ghost q: seq<Byte>)
    returns (p': nat)
    requires |q| == 4 && (forall k :: 0 <= k < 4 ==> q[k] < 128) && CountPadding(q) <= 2 && j == 3 - CountPadding(q)
    requires x % 0x100_0000 == QuadValue(q) && p == |d| && |d + QuadBytes(q)| <= dst.Length == |o|
    requires dst[..] == Splice(o, 0, d)
    modifies dst
    ensures p' == |d + QuadBytes(q)| && dst[..] == Splice(o, 0, d + QuadBytes(q))
  {
    hide Splice, QuadValue, CountPadding;
    LowBytes(x, QuadValue(q));
    ghost var b: seq<Byte> := [x / 0x1_0000 % 256, x / 256 % 256, x % 256];
    QuadLength(q);
    assert QuadBytes(q) == b[..j];
    p' := p;
    ghost var e := d;
    if j > 0 {
      SpliceSnoc(o, 0, e, b[0]);
      dst[p'] := x / 0x1_0000 % 256;
      p', e := p' + 1, e + [b[0]];
    }
    if j > 1 {
      SpliceSnoc(o, 0, e, b[1]);
      dst[p'] := x / 256 % 256;
      p', e := p' + 1, e + [b[1]];
    }
    if j > 2 {
      SpliceSnoc(o, 0, e, b[2]);
      dst[p'] := x % 256;
      p', e := p' + 1, e + [b[2]];
    }
    assert e == d + b[..j];
  }

  method Decode(dst: array?<Byte>, dlen: nat, src: array<Byte>, slen: nat) returns (ret: Status, olen: nat)
    requires slen <= src.Length && (dst != null ==> dlen <= dst.Length && dst != src)
    modifies dst
    ensures ret.InvalidCharacter? <==> !Admissible(src[..slen])
    ensures Admissible(src[..slen]) ==>
      var s := Symbols(src[..slen]);
      && (forall k :: 0 <= k < |s| ==> s[k] < 128)
      && var bound := OutputBound(|s|, CountPadding(s));
      && |Decoded(s)| <= bound
      && (ret == if s == [] || (dst != null && bound <= dlen) then Ok else BufferTooSmall)
      && olen == (if ret.Ok? then |Decoded(s)| else bound)
      && (dst != null && ret.Ok? ==> dst[..] == Splice(old(dst[..]), 0, Decoded(s)))
    ensures dst != null && !ret.Ok? ==> dst[..] == old(dst[..])
  {
    hide Symbols, CountPadding, WellPadded, Decoded, Splice, OutputBound;
    var n, j;
    ret, n, j := FirstPass(src, slen);
    if !ret.Ok? { return ret, 0; }
    ghost var s := Symbols(src[..slen]);
    AdmissibleAscii(src[..slen]);
    WritesWithinBound(s);
    SmallPadding(s);
    if n == 0 {
      NothingDecoded(if dst != null then dst[..] else []);
      return Ok, 0;
    }
    var bound := OutputLength(n, j);
    if dst == null || dlen < bound { return BufferTooSmall, bound; }
    olen := SecondPass(dst, src, slen);
    return Ok, olen;
  }

  lemma AdmissibleAscii(t: seq<Byte>)
    requires Admissible(t)
    ensures WellPadded(Symbols(t)) && forall k :: 0 <= k < |Symbols(t)| ==> Symbols(t)[k] < 128
  {
    hide Symbols, WellPadded, DecMap;
    forall k | 0 <= k < |t| ensures t[k] == SPACE || t[k] == CR || t[k] == LF || IsSymbol(t[k]) {
      assert Local(t, k);
    }
    SymbolsAscii(t);
  }

  lemma NothingDecoded(o: seq<Byte>)
    ensures Decoded([]) == [] && Splice(o, 0, []) == o
  {
    SpliceEmpty(o, 0);
  }

  /** Three quarters of the symbols, rounded up, less one byte for every padding character. */
  lemma BoundIs(n: nat, j: nat)
    ensures OutputBound(n, j) == (6 * n + 7) / 8 - j
  {
    assert 6 * n + 7 == 8 * (6 * (n / 8)) + (6 * (n % 8) + 7);
  }

  method OutputLength(n: nat, j: nat) returns (r: nat)
    requires j <= n && j <= 2
    ensures r == OutputBound(n, j)
  {
    BoundNotNegative(n, j);
    r := 6 * (n / 8) + (6 * (n % 8) + 7) / 8;
    r := r - j;
  }
}
