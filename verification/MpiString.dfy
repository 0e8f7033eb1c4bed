/** Reading and writing numbers as text in any radix from 2 to 16. */
module MpiString {
  import opened Arithmetic
  import opened Limbs
  import opened Buffers
  import opened Positional
  import opened MpiCore
  import opened MpiAddSub
  import opened MpiMul
  import opened MpiShift
  import opened MpiDivide
  import opened MpiText

  // ----- what a text denotes -----

  /** The value of a character as a digit; 255 when it is none. */
  function CharDigit(c: char): nat {
    if '0' <= c <= '9' then c as int - 0x30
    else if 'A' <= c <= 'F' then c as int - 0x37
    else if 'a' <= c <= 'f' then c as int - 0x57
    else 255
  }

  function DigitValues(s: string): (ds: seq<nat>)
    ensures |ds| == |s| && forall k :: 0 <= k < |s| ==> ds[k] == CharDigit(s[k])
  {
    seq(|s|, k requires 0 <= k < |s| => CharDigit(s[k]))
  }

  predicate Negative(s: string) {
    s != "" && s[0] == '-'
  }

  function Unsigned(s: string): string {
    if Negative(s) then s[1..] else s
  }

  predicate AllDigits(s: string, radix: nat) {
    forall k :: 0 <= k < |s| ==> CharDigit(s[k]) < radix
  }

  /** An optional minus sign, then digits of the radix; there may be none of them. */
  predicate WellFormed(s: string, radix: nat) {
    AllDigits(Unsigned(s), radix)
  }

  function Denoted(s: string, radix: nat): int {
    var v := Number(DigitValues(Unsigned(s)), radix);
    if Negative(s) then -(v as int) else v
  }

  // ----- reading -----

  method GetDigit(radix: nat, c: char) returns (ret: Status, d: Limb)
    requires radix <= 16
    ensures d == CharDigit(c)
    ensures ret == if CharDigit(c) >= radix then InvalidCharacter else Ok
  {
    d := 255;
    if 0x30 <= c as int <= 0x39 { d := c as int - 0x30; }
    if 0x41 <= c as int <= 0x46 { d := c as int - 0x37; }
    if 0x61 <= c as int <= 0x66 { d := c as int - 0x57; }
    ret := if d >= radix then InvalidCharacter else Ok;
  }

  method ReadString(X: Mpi, radix: int, s: string) returns (ret: Status)
    modifies X
    ensures ret == if radix < 2 || radix > 16 then BadInputData
                   else if WellFormed(s, radix) then Ok else InvalidCharacter
    ensures ret.Ok? ==> X.Value() == Denoted(s, radix)
  {
    if radix < 2 || radix > 16 { return BadInputData; }
    if radix == 16 {
      ret := ReadHex(X, s);
    } else {
      ret := ReadDigits(X, radix, s);
    }
  }

  lemma HexCons(s: string, i: nat)
    requires 0 < i <= |s| && forall k :: i <= k < |s| ==> CharDigit(s[k]) < 16
    ensures Number(DigitValues(s[i - 1..]), 16) ==
            CharDigit(s[i - 1]) * Pow2(4 * (|s| - i)) + Number(DigitValues(s[i..]), 16)
    ensures Number(DigitValues(s[i..]), 16) < Pow2(4 * (|s| - i))
  {
    SmallPowers();
    NumberCons(DigitValues(s[i - 1..]), 4);
    assert DigitValues(s[i - 1..])[1..] == DigitValues(s[i..]);
    NumberBound(DigitValues(s[i..]), 4);
  }

  /** Radix 16: nibbles packed from the last character on, a sign accepted only in front. */
  method ReadHex(X: Mpi, s: string) returns (ret: Status)
    modifies X
    ensures ret == if WellFormed(s, 16) then Ok else InvalidCharacter
    ensures ret.Ok? ==> X.Value() == Denoted(s, 16)
  {
    hide Val, Pow2, Number, CharDigit, DigitValues, WellFormed, Denoted;
    Grow(X, LimbsForBits(4 * |s|));
    SetInt(X, 0);
    var i, j := |s|, 0;
    assert s[i..] == "";
    EmptyNumber(16);
    while i > 0
      invariant 0 <= i <= |s| && j == |s| - i && X.s == 1 && 16 * |X.p| >= |s|
      invariant forall k :: i <= k < |s| ==> CharDigit(s[k]) < 16
      invariant X.Abs() == Number(DigitValues(s[i..]), 16)
    {
      if i == 1 && s[i - 1] == '-' {
        X.s := -1;
        SignedText(s, 16);
        return Ok;
      }
      var r, d := GetDigit(16, s[i - 1]);
      if !r.Ok? {
        BadCharacter(s, i - 1, 16);
        return r;
      }
      HexCons(s, i);
      SmallPowers();
      NibbleRoom(j, |s|, |X.p|);
      PackDigit(X, 4 * j, d, 4);
      i, j := i - 1, j + 1;
    }
    UnsignedText(s, 16);
    return Ok;
  }

  lemma NibbleRoom(j: nat, n: nat, limbs: nat)
    requires j < n <= 16 * limbs
    ensures 4 * j / 64 < limbs && 4 * j % 4 == 0
  {
  }

  lemma SignedText(s: string, radix: nat)
    requires Negative(s) && forall k :: 1 <= k < |s| ==> CharDigit(s[k]) < radix
    ensures WellFormed(s, radix) && Denoted(s, radix) == -(Number(DigitValues(s[1..]), radix) as int)
  {
  }

  lemma UnsignedText(s: string, radix: nat)
    requires radix <= 16 && forall k :: 0 <= k < |s| ==> CharDigit(s[k]) < radix
    ensures WellFormed(s, radix) && Denoted(s, radix) == Number(DigitValues(s[0..]), radix)
  {
    assert s[0..] == s && (Negative(s) ==> CharDigit('-') < radix);
  }

  lemma EmptyNumber(radix: nat)
    ensures Number(DigitValues(""), radix) == 0
  {
  }

  lemma BadCharacter(s: string, i: nat, radix: nat)
    requires i < |s| && CharDigit(s[i]) >= radix && !(i == 0 && s[i] == '-')
    ensures !WellFormed(s, radix)
  {
    if Negative(s) {
      assert CharDigit(Unsigned(s)[i - 1]) >= radix;
    }
  }

  /** Where the digits begin. */
  function SignLength(s: string): nat {
    if Negative(s) then 1 else 0
  }

  /** The other radices: multiply by the radix, then add the digit, or subtract it from a negative number. */
  method ReadDigits(X: Mpi, radix: nat, s: string) returns (ret: Status)
    requires 2 <= radix < 16
    modifies X
    ensures ret == if WellFormed(s, radix) then Ok else InvalidCharacter
    ensures ret.Ok? ==> X.Value() == Denoted(s, radix)
  {
    hide Val, Number;
    SetInt(X, 0);
    var T := new Mpi();
    EmptyNumber(radix);
    var i := 0;
    while i < |s|
      invariant 0 <= i <= |s| && X.p != [] && fresh(T)
      invariant X.s == if i > 0 && Negative(s) then -1 else 1
      invariant i > 0 ==> forall k :: SignLength(s) <= k < i ==> CharDigit(s[k]) < radix
      invariant i == 0 || SignLength(s) == i ==> X.Abs() == 0
      invariant i > 0 ==> X.Abs() == Number(DigitValues(s[SignLength(s)..i]), radix)
    {
      if i == 0 && s[i] == '-' {
        X.s := -1;
        assert s[1..1] == "";
        i := 1;
        continue;
      }
      var r, d := GetDigit(radix, s[i]);
      if !r.Ok? {
        BadCharacter(s, i, radix);
        return r;
      }
      ghost var before := s[SignLength(s)..i];
      if i == 0 { assert before == ""; }
      AppendDigit(before, s[i], radix);
      assert s[SignLength(s)..i + 1] == before + [s[i]];
      AccumulateDigit(X, T, radix, d);
      i := i + 1;
    }
    if |s| == 0 { assert s == ""; } else { assert s[SignLength(s)..|s|] == Unsigned(s); }
    return Ok;
  }

  lemma AppendDigit(s: string, c: char, radix: nat)
    ensures Number(DigitValues(s + [c]), radix) == Number(DigitValues(s), radix) * radix + CharDigit(c)
  {
    NumberSnoc(DigitValues(s), CharDigit(c), radix);
    assert DigitValues(s + [c]) == DigitValues(s) + [CharDigit(c)];
  }

  /** X = X * radix + d on the absolute value; the sign stays, even while X is zero. */
  method AccumulateDigit(X: Mpi, T: Mpi, radix: nat, d: Limb)
    requires X != T && X.p != [] && 2 <= radix <= 16 && d < 16
    modifies X, T
    ensures X.s == old(X.s) && X.p != []
    ensures X.Abs() == old(X.Abs()) * radix + d
  {
    hide Val;
    MulInt(T, X, radix);
    if X.s == 1 {
      AddInt(X, T, d);
    } else {
      SubInt(X, T, d);
    }
  }

  // ----- writing -----

  function DigitChar(d: nat): (c: char)
    requires d < 16
    ensures CharDigit(c) == d && c != '-'
  {
    if d < 10 then (d + 0x30) as char else (d + 0x37) as char
  }

  function DigitChars(ds: seq<nat>): (s: string)
    requires forall k :: 0 <= k < |ds| ==> ds[k] < 16
    ensures |s| == |ds| && forall k :: 0 <= k < |ds| ==> s[k] == DigitChar(ds[k])
  {
    seq(|ds|, k requires 0 <= k < |ds| => DigitChar(ds[k]))
  }

  /** Two hexadecimal digits for every byte. */
  function HexPairs(bs: seq<nat>): (s: string)
    requires forall k :: 0 <= k < |bs| ==> bs[k] < 256
    ensures |s| == 2 * |bs|
  {
    if bs == [] then ""
    else HexPairs(bs[..|bs| - 1]) + [DigitChar(bs[|bs| - 1] / 16)] + [DigitChar(bs[|bs| - 1] % 16)]
  }

  /** The digits written for v: whole bytes in radix 16, no leading zeros otherwise. */
  function Magnitude(v: nat, radix: nat): string
    requires 2 <= radix <= 16
  {
    if radix == 16 then HexPairs(Digits(v, 256)) else DigitChars(Digits(v, radix))
  }

  function Text(s: Sign, v: nat, radix: nat): string
    requires 2 <= radix <= 16
  {
    (if s == -1 then "-" else "") + Magnitude(v, radix)
  }

  lemma NoDigits(radix: nat)
    ensures Number([], radix) == 0
  {
  }

  lemma {:induction false} HexPairsDenote(bs: seq<nat>)
    requires forall k :: 0 <= k < |bs| ==> bs[k] < 256
    ensures AllDigits(HexPairs(bs), 16)
    ensures Number(DigitValues(HexPairs(bs)), 16) == Number(bs, 256)
  {
    hide Number;
    if bs == [] {
      EmptyNumber(16);
      NoDigits(256);
    } else {
      var n := |bs| - 1;
      var b, front := bs[n], HexPairs(bs[..n]);
      HexPairsDenote(bs[..n]);
      assert bs == bs[..n] + [b];
      NumberSnoc(bs[..n], b, 256);
      AppendDigit(front, DigitChar(b / 16), 16);
      AppendDigit(front + [DigitChar(b / 16)], DigitChar(b % 16), 16);
      assert HexPairs(bs) == front + [DigitChar(b / 16)] + [DigitChar(b % 16)];
    }
  }

  lemma MagnitudeDenotes(v: nat, radix: nat)
    requires 2 <= radix <= 16
    ensures AllDigits(Magnitude(v, radix), radix)
    ensures Number(DigitValues(Magnitude(v, radix)), radix) == v
    ensures !Negative(Magnitude(v, radix))
  {
    if radix == 16 {
      NumberOfDigits(v, 256);
      HexPairsDenote(Digits(v, 256));
    } else {
      NumberOfDigits(v, radix);
      assert DigitValues(DigitChars(Digits(v, radix))) == Digits(v, radix);
    }
  }

  /** Reading back what was written gives the number that was written. */
  lemma TextDenotes(s: Sign, v: nat, radix: nat)
    requires 2 <= radix <= 16
    ensures WellFormed(Text(s, v, radix), radix)
    ensures Denoted(Text(s, v, radix), radix) == s * v
  {
    hide Magnitude, Number;
    MagnitudeDenotes(v, radix);
    if s == -1 {
      assert Text(s, v, radix)[1..] == Magnitude(v, radix);
    } else {
      assert Text(s, v, radix) == Magnitude(v, radix);
    }
  }

  /** The room asked for a number of `len` bits: sign, digits and terminator, rounded up to an even count. */
  function TextRoom(len: nat, radix: nat): (n: nat)
    ensures n % 2 == 0
  {
    var halved := if radix >= 16 then len / 2 / 2 else if radix >= 4 then len / 2 else len;
    halved + 3 + (halved + 1) % 2
  }

  /** The sixteen digits: upper case is written, both cases are read, and nothing else is a digit. */
  lemma DigitTable(k: nat, c: char)
    requires k < 16
    ensures "0123456789ABCDEF"[k] == DigitChar(k)
    ensures CharDigit("0123456789ABCDEF"[k]) == k == CharDigit("0123456789abcdef"[k])
    ensures c !in "0123456789ABCDEFabcdef" ==> CharDigit(c) == 255
  {
    var s := "0123456789ABCDEFabcdef";
    if '0' <= c <= '9' {
      assert s[c as int - 0x30] == c;
    } else if 'A' <= c <= 'F' {
      assert s[c as int - 0x37] == c;
    } else if 'a' <= c <= 'f' {
      assert s[c as int - 0x57 + 6] == c;
    }
  }

  lemma {:induction false} FirstDigit(v: nat, radix: nat)
    requires radix >= 2
    ensures |Digits(v, radix)| == 1 || Digits(v, radix)[0] != 0
  {
    if v >= radix {
      QuotientSmaller(v, radix);
      FirstDigit(v / radix, radix);
      var q, r := DivMod(v, radix);
    }
  }

  /** A minus sign for negative numbers alone, no digit zero in front, and in radix 16 no byte zero. */
  lemma TextShortest(s: Sign, v: nat, radix: nat)
    requires 2 <= radix <= 16
    ensures var t := Text(s, v, radix);
            && (t[0] == '-' <==> s == -1)
            && var m := if s == -1 then t[1..] else t;
            if radix == 16 then |m| % 2 == 0 && (|m| == 2 || m[0] != '0' || m[1] != '0')
            else |m| == 1 || m[0] != '0'
  {
    MagnitudeShortest(v, radix);
    MagnitudePlain(v, radix);
    hide Magnitude, Number;
    SignInFront(s, Magnitude(v, radix));
  }

  lemma SignInFront(s: Sign, m: string)
    requires m != "" && m[0] != '-'
    ensures var t := (if s == -1 then "-" else "") + m;
            (t[0] == '-' <==> s == -1) && (if s == -1 then t[1..] else t) == m
  {
  }

  lemma MagnitudePlain(v: nat, radix: nat)
    requires 2 <= radix <= 16
    ensures !Negative(Magnitude(v, radix))
  {
    hide Number, AllDigits, DigitValues, Magnitude;
    MagnitudeDenotes(v, radix);
  }

  lemma MagnitudeShortest(v: nat, radix: nat)
    requires 2 <= radix <= 16
    ensures var m := Magnitude(v, radix);
            if radix == 16 then |m| >= 2 && |m| % 2 == 0 && (|m| == 2 || m[0] != '0' || m[1] != '0')
            else |m| == 1 || (m != "" && m[0] != '0')
  {
    hide HexPairs, Digits;
    if radix == 16 {
      var bs := Digits(v, 256);
      FirstDigit(v, 256);
      FirstPair(bs);
      if bs[0] > 0 { ByteDigits(bs[0]); }
    } else {
      FirstDigit(v, radix);
    }
  }

  lemma ByteDigits(b: nat)
    requires 0 < b < 256
    ensures DigitChar(b / 16) != '0' || DigitChar(b % 16) != '0'
  {
  }

  lemma {:induction false} FirstPair(bs: seq<nat>)
    requires bs != [] && forall k :: 0 <= k < |bs| ==> bs[k] < 256
    ensures |HexPairs(bs)| >= 2 && HexPairs(bs)[..2] == [DigitChar(bs[0] / 16), DigitChar(bs[0] % 16)]
  {
    if |bs| > 1 {
      FirstPair(bs[..|bs| - 1]);
    } else {
      assert HexPairs(bs[..0]) == "";
    }
  }

  /** A digit for every bit, or for every two bits from radix 4 on, or every four in radix 16, rounded down; three more,
      and the whole rounded up to an even number. */
  lemma RoomIs(len: nat, radix: nat)
    requires 2 <= radix <= 16
    ensures var n := if radix == 16 then len / 4 else if radix >= 4 then len / 2 else len;
            TextRoom(len, radix) == 2 * ((n + 4) / 2)
  {
    assert len / 2 / 2 == len / 4;
  }

  /** The text and its terminator always fit in the room asked for. */
  lemma RoomSuffices(s: Sign, v: nat, radix: nat, len: nat)
    requires 2 <= radix <= 16 && IsBitLength(v, len)
    ensures |Text(s, v, radix)| + 1 <= TextRoom(len, radix)
  {
    hide HexPairs, DigitChars, Digits, Pow2;
    SmallPowers();
    if radix == 16 {
      DigitCount(v, 256, 8, len);
    } else {
      DigitCount(v, radix, if radix >= 4 then 2 else 1, len);
    }
  }

  /** What is written for a limb vector: in radix 16 nothing but the sign when there are no limbs. */
  function Shown(s: Sign, p: seq<Limb>, radix: nat): string
    requires 2 <= radix <= 16
  {
    if radix == 16 && p == [] then (if s == -1 then "-" else "") else Text(s, Val(p), radix)
  }

  /** It denotes the number all the same. */
  lemma ShownDenotes(s: Sign, p: seq<Limb>, radix: nat)
    requires 2 <= radix <= 16
    ensures WellFormed(Shown(s, p, radix), radix)
    ensures Denoted(Shown(s, p, radix), radix) == s * Val(p)
    ensures |Shown(s, p, radix)| <= |Text(s, Val(p), radix)|
  {
    TextDenotes(s, Val(p), radix);
    hide Number, DigitValues, CharDigit, Magnitude;
    if p == [] {
      EmptyNumber(radix);
      EmptyIsZero();
    }
  }

  /** The text of X with a terminating NUL; too small a buffer is left alone and the room needed reported.
      Radix 2 looks at the lowest limb, so there must be one. */
  method WriteString(X: Mpi, radix: int, buf: array<char>) returns (ret: Status, olen: nat)
    requires radix == 2 ==> X.p != []
    modifies buf
    ensures forall len: nat | 2 <= radix <= 16 && IsBitLength(X.Abs(), len) ::
              && (ret == if buf.Length < TextRoom(len, radix) then BufferTooSmall else Ok)
              && (ret.BufferTooSmall? ==> olen == TextRoom(len, radix) && buf[..] == old(buf[..]))
              && (ret.Ok? ==> olen <= TextRoom(len, radix))
    ensures !(2 <= radix <= 16) ==> ret.BadInputData? && buf[..] == old(buf[..])
    ensures ret.Ok? ==>
      2 <= radix <= 16 && olen == |Shown(X.s, X.p, radix)| + 1 <= buf.Length
      && buf[..] == Splice(old(buf[..]), 0, Shown(X.s, X.p, radix) + ['\0'])
  {
    hide Val, IsBitLength, HexPairs, DigitChars, Digits, TextRoom, Splice, Shown, ShownDigits, Text, Magnitude;
    if radix < 2 || radix > 16 { return BadInputData, 0; }
    var len := BitLength(X);
    forall l: nat | IsBitLength(X.Abs(), l) ensures l == len { BitLengthUnique(X.Abs(), l, len); }
    var n := TextRoom(len, radix);
    if buf.Length < n { return BufferTooSmall, n; }
    RoomSuffices(X.s, X.Abs(), radix, len);
    ShownDenotes(X.s, X.p, radix);
    olen := WriteShown(X, radix, buf);
    return Ok, olen;
  }

  /** Sign, digits and terminator. */
  method WriteShown(X: Mpi, radix: nat, buf: array<char>) returns (olen: nat)
    requires 2 <= radix <= 16 && (radix == 2 ==> X.p != []) && |Shown(X.s, X.p, radix)| + 1 <= buf.Length
    modifies buf
    ensures olen == |Shown(X.s, X.p, radix)| + 1
    ensures buf[..] == Splice(old(buf[..]), 0, Shown(X.s, X.p, radix) + ['\0'])
  {
    hide Val, HexPairs, DigitChars, Digits, Splice, Shown, ShownDigits;
    ShownParts(X.s, X.p, radix);
    ghost var b0 := buf[..];
    var p := WriteSign(X.s, buf);
    ghost var sign, digits := if X.s == -1 then "-" else "", ShownDigits(X.p, radix);
    SpliceSplice(b0, 0, sign, digits);
    SpliceSnoc(b0, 0, sign + digits, '\0');
    if radix == 16 {
      p := WriteHex(X, buf, p);
    } else {
      var T := new Mpi();
      Copy(T, X);
      if T.s == -1 { T.s := 1; }
      p := WriteDigits(T, radix, buf, p);
    }
    buf[p] := '\0';
    return p + 1;
  }

  method WriteSign(s: Sign, buf: array<char>) returns (p: nat)
    requires buf.Length > 0
    modifies buf
    ensures p == |if s == -1 then "-" else ""| && buf[..] == Splice(old(buf[..]), 0, if s == -1 then "-" else "")
  {
    p := 0;
    if s == -1 {
      buf[p] := '-';
      p := 1;
    }
  }

  function ShownDigits(p: seq<Limb>, radix: nat): string
    requires 2 <= radix <= 16
  {
    if radix == 16 && p == [] then "" else Magnitude(Val(p), radix)
  }

  lemma ShownParts(s: Sign, p: seq<Limb>, radix: nat)
    requires 2 <= radix <= 16
    ensures Shown(s, p, radix) == (if s == -1 then "-" else "") + ShownDigits(p, radix)
    ensures radix < 16 ==> ShownDigits(p, radix) == DigitChars(Digits(Val(p), radix))
  {
    hide Val, Digits, DigitChars, HexPairs;
    assert "-" + "" == "-";
  }

  /** The bytes that a scan from the top has written once it has reached byte m. */
  function Emitted(h: nat, m: nat): (bs: seq<nat>)
    ensures forall k :: 0 <= k < |bs| ==> bs[k] < 256
  {
    if m == 0 || h != 0 then Digits(h, 256) else []
  }

  lemma EmitByte(h: nat, h': nat, c: nat, m: nat)
    requires m > 0 && c < 256 && h' == h * 256 + c
    ensures if h == 0 && c == 0 && m != 1 then Emitted(h', m - 1) == [] == Emitted(h, m)
            else Emitted(h', m - 1) == Emitted(h, m) + [c] == Digits(h', 256)
  {
    if h == 0 {
      assert Digits(c, 256) == [c];
    } else {
      DivUnique(h', 256, h, c);
    }
  }

  /** Radix 16, over the bytes from the top: a zero byte is skipped until one has been written, except the last. */
  method WriteHex(X: Mpi, buf: array<char>, p: nat) returns (q: nat)
    requires p + |ShownDigits(X.p, 16)| <= buf.Length
    modifies buf
    ensures q == p + |ShownDigits(X.p, 16)|
    ensures buf[..] == Splice(old(buf[..]), p, ShownDigits(X.p, 16))
  {
    hide Val, Pow2, HighPart, DigitOf, HexPairs, Digits, DigitChar, Splice;
    ghost var v := X.Abs();
    var m, k := 8 * |X.p|, false;
    q := p;
    if m == 0 {
      SpliceEmpty(buf[..], p);
      return;
    }
    NothingAboveTop(X.p);
    SpliceEmpty(buf[..], p);
    while m > 0
      invariant 0 <= m <= 8 * |X.p| && HighPart(v, 8 * m) >= 0
      invariant m > 0 ==> (k <==> HighPart(v, 8 * m) != 0)
      invariant q == p + |HexPairs(Emitted(HighPart(v, 8 * m), m))| <= buf.Length
      invariant buf[..] == Splice(old(buf[..]), p, HexPairs(Emitted(HighPart(v, 8 * m), m)))
    {
      m := m - 1;
      var c := DigitOf(X.p, 8 * m, 8);
      ghost var h, h' := HighPart(v, 8 * m + 8), HighPart(v, 8 * m);
      NextByte(X.p, m);
      HighPartBelow(v, 8 * m);
      EmitByte(h, h', c, m + 1);
      if c == 0 && !k && m != 0 { continue; }
      DigitsMono(h', v, 256);
      ghost var front := HexPairs(Emitted(h, m + 1));
      HexPairsSnoc(Emitted(h, m + 1), c);
      SpliceSnoc(old(buf[..]), p, front, DigitChar(c / 16));
      SpliceSnoc(old(buf[..]), p, front + [DigitChar(c / 16)], DigitChar(c % 16));
      buf[q] := DigitChar(c / 16);
      buf[q + 1] := DigitChar(c % 16);
      q := q + 2;
      k := true;
    }
    WholePart(v);
  }

  lemma NothingAboveTop(p: seq<Limb>)
    ensures HighPart(Val(p), 64 * |p|) == 0
  {
    ValBound(p);
    LimbPowIsPow2(|p|);
    DivUnique(Val(p), Pow2(64 * |p|), 0, Val(p));
  }

  lemma NextByte(p: seq<Limb>, m: nat)
    requires m < 8 * |p|
    ensures HighPart(Val(p), 8 * m) == HighPart(Val(p), 8 * m + 8) * 256 + DigitOf(p, 8 * m, 8)
    ensures DigitOf(p, 8 * m, 8) < 256
  {
    hide Val, HighPart, DigitOf, Pow2;
    DigitAt(p, 8 * m, 8);
    SmallPowers();
  }

  lemma HighPartBelow(v: nat, pos: nat)
    ensures 0 <= HighPart(v, pos) <= v
  {
    hide Pow2;
    var q, r := DivMod(v, Pow2(pos));
    MulMonoLeft(q, 1, Pow2(pos));
  }

  lemma HexPairsSnoc(bs: seq<nat>, c: nat)
    requires c < 256 && forall k :: 0 <= k < |bs| ==> bs[k] < 256
    ensures HexPairs(bs + [c]) == HexPairs(bs) + [DigitChar(c / 16)] + [DigitChar(c % 16)]
  {
    hide DigitChar;
    var longer := bs + [c];
    assert longer[..|bs|] == bs && longer[|bs|] == c;
  }

  /** The other radices, high-order digit first: the quotient is written before the remainder. */
  method WriteDigits(X: Mpi, radix: nat, buf: array<char>, p: nat) returns (q: nat)
    requires 2 <= radix < 16 && X.s == 1 && (radix == 2 ==> X.p != [])
    requires p + |Digits(X.Abs(), radix)| <= buf.Length
    modifies X, buf
    ensures q == p + |Digits(old(X.Abs()), radix)| <= buf.Length
    ensures buf[..] == Splice(old(buf[..]), p, DigitChars(Digits(old(X.Abs()), radix)))
    decreases X.Abs()
  {
    hide Val, DigitChars, Digits, Splice;
    ghost var v, b0 := X.Abs(), buf[..];
    var _, r := ModInt(X, radix);
    var _ := DivideInt(X, null, X, radix);
    ghost var h := v / radix;
    DigitsStep(v, radix);
    var nonzero := CompareInt(X, 0);
    q := p;
    SpliceEmpty(b0, p);
    if nonzero != 0 {
      NonzeroHasLimbs(X.p);
      q := WriteDigits(X, radix, buf, p);
    }
    ghost var front := if h == 0 then [] else Digits(h, radix);
    DigitCharsSnoc(front, r);
    SpliceSnoc(b0, p, DigitChars(front), DigitChar(r));
    buf[q] := if r < 10 then (r + 0x30) as char else (r + 0x37) as char;
    q := q + 1;
  }

  lemma DigitsStep(v: nat, radix: nat)
    requires radix >= 2
    ensures 0 <= v / radix && 0 <= v % radix < radix
    ensures Digits(v, radix) == (if v / radix == 0 then [] else Digits(v / radix, radix)) + [v % radix]
    ensures v / radix > 0 ==> v / radix < v
  {
    if v < radix {
      DivUnique(v, radix, 0, v);
    } else {
      QuotientSmaller(v, radix);
      QuotientPositive(v, radix);
    }
  }

  lemma QuotientPositive(v: nat, radix: nat)
    requires v >= radix > 0
    ensures v / radix > 0
  {
    QuotientMono(radix, v, radix);
    DivUnique(radix, radix, 1, 0);
  }

  lemma NonzeroHasLimbs(p: seq<Limb>)
    ensures Val(p) != 0 ==> p != []
  {
  }

  lemma DigitCharsSnoc(ds: seq<nat>, d: nat)
    requires d < 16 && forall k :: 0 <= k < |ds| ==> ds[k] < 16
    ensures DigitChars(ds + [d]) == DigitChars(ds) + [DigitChar(d)]
  {
  }
}
