/** Where the constants of SHA-256 come from; sections 4.2.2 and 5.3.3 of FIPS 180-4. */
module Sha256Constants {
  import opened Arithmetic
  import opened Sha256
  import opened Sha256Stream

  function PrimeRow(i: nat): (r: seq<nat>)
    requires i < 8
    ensures |r| == 8
  {
    match i
    case 0 => [2, 3, 5, 7, 11, 13, 17, 19]
    case 1 => [23, 29, 31, 37, 41, 43, 47, 53]
    case 2 => [59, 61, 67, 71, 73, 79, 83, 89]
    case 3 => [97, 101, 103, 107, 109, 113, 127, 131]
    case 4 => [137, 139, 149, 151, 157, 163, 167, 173]
    case 5 => [179, 181, 191, 193, 197, 199, 211, 223]
    case 6 => [227, 229, 233, 239, 241, 251, 257, 263]
    case _ => [269, 271, 277, 281, 283, 293, 307, 311]
  }

  /** The first 64 primes, counted from 0. */
  function Prime(t: nat): nat
    requires t < 64
  {
    PrimeRow(t / 8)[t % 8]
  }

  predicate IsPrime(p: nat) {
    p >= 2 && forall d :: 2 <= d < p ==> p % d != 0
  }

  /** No divisor up to 17, which is the square root of every number in question. */
  predicate Sifted(p: nat) {
    && (p <= 2 || p % 2 != 0) && (p <= 3 || p % 3 != 0) && (p <= 5 || p % 5 != 0) && (p <= 7 || p % 7 != 0)
    && (p <= 11 || p % 11 != 0) && (p <= 13 || p % 13 != 0) && (p <= 17 || p % 17 != 0)
  }

  lemma SiftedIsPrime(p: nat)
    requires 2 <= p < 324
    ensures Sifted(p) <==> IsPrime(p)
  {
    if Sifted(p) {
      forall d | 2 <= d < p ensures p % d != 0 {
        if p % d == 0 { NoCofactor(p, d, p / d); }
      }
    }
  }

  /** The smaller one of two factors is at most 17 and has a divisor that was sifted out. */
  lemma NoCofactor(p: nat, d: nat, e: nat)
    requires 2 <= p < 324 && Sifted(p) && 2 <= d < p
    ensures p != d * e
  {
    if p == d * e {
      TimesSmall(d, e);
      if d >= 18 && e >= 18 {
        MulMono(d, 18, e);
      } else if d < 18 {
        SmallFactor(p, d, e);
      } else {
        Commute(d, e);
        SmallFactor(p, e, d);
      }
    }
  }

  lemma TimesSmall(d: nat, e: nat)
    ensures (e == 0 ==> d * e == 0) && (e == 1 ==> d * e == d)
  {
  }

  lemma Commute(d: nat, e: nat)
    ensures d * e == e * d
  {
  }

  lemma SmallFactor(p: nat, d: nat, e: nat)
    requires 2 <= d < 18 && e >= 2 && p == d * e
    ensures !Sifted(p)
  {
    var q := if d % 2 == 0 then 2 else if d % 3 == 0 then 3 else d;
    var k := d / q;
    assert d == q * k && q < p;
    assert q in {2, 3, 5, 7, 11, 13, 17};
    MulAssoc(q, k, e);
    Multiple(q, k * e);
  }

  lemma Multiple(q: nat, n: nat)
    requires q > 0
    ensures (q * n) % q == 0
  {
    DivUnique(q * n, q, n, 0);
  }

  ghost predicate Listed(x: nat) {
    exists t: nat :: t < 64 && Prime(t) == x
  }

  /** No number strictly between x and y is left by the sieve. */
  predicate Gap(x: nat, y: nat)
    decreases y - x
  {
    x + 1 >= y || (!Sifted(x + 1) && Gap(x + 1, y))
  }

  lemma {:induction false} InGap(x: nat, y: nat, z: nat)
    requires Gap(x, y) && x < z < y
    ensures !Sifted(z)
    decreases y - x
  {
    if z > x + 1 { InGap(x + 1, y, z); }
  }

  /** From one prime to the next. */
  ghost predicate Follows(t: nat)
    requires t < 63
  {
    Prime(t) < Prime(t + 1) && Sifted(Prime(t + 1)) && Gap(Prime(t), Prime(t + 1))
  }

  lemma Primes0()
    ensures forall t :: 0 <= t < 8 ==> Follows(t)
  {
    hide Follows;
    NextPrime(0, 2, 3);
    NextPrime(1, 3, 5);
    NextPrime(2, 5, 7);
    NextPrime(3, 7, 11);
    NextPrime(4, 11, 13);
    NextPrime(5, 13, 17);
    NextPrime(6, 17, 19);
    NextPrime(7, 19, 23);
  }

  lemma Primes8()
    ensures forall t :: 8 <= t < 16 ==> Follows(t)
  {
    hide Follows;
    NextPrime(8, 23, 29);
    NextPrime(9, 29, 31);
    NextPrime(10, 31, 37);
    NextPrime(11, 37, 41);
    NextPrime(12, 41, 43);
    NextPrime(13, 43, 47);
    NextPrime(14, 47, 53);
    NextPrime(15, 53, 59);
  }

  lemma Primes16()
    ensures forall t :: 16 <= t < 24 ==> Follows(t)
  {
    hide Follows;
    NextPrime(16, 59, 61);
    NextPrime(17, 61, 67);
    NextPrime(18, 67, 71);
    NextPrime(19, 71, 73);
    NextPrime(20, 73, 79);
    NextPrime(21, 79, 83);
    NextPrime(22, 83, 89);
    NextPrime(23, 89, 97);
  }

  lemma Primes24()
    ensures forall t :: 24 <= t < 32 ==> Follows(t)
  {
    hide Follows;
    NextPrime(24, 97, 101);
    NextPrime(25, 101, 103);
    NextPrime(26, 103, 107);
    NextPrime(27, 107, 109);
    NextPrime(28, 109, 113);
    NextPrime(29, 113, 127);
    NextPrime(30, 127, 131);
    NextPrime(31, 131, 137);
  }

  lemma Primes32()
    ensures forall t :: 32 <= t < 40 ==> Follows(t)
  {
    hide Follows;
    NextPrime(32, 137, 139);
    NextPrime(33, 139, 149);
    NextPrime(34, 149, 151);
    NextPrime(35, 151, 157);
    NextPrime(36, 157, 163);
    NextPrime(37, 163, 167);
    NextPrime(38, 167, 173);
    NextPrime(39, 173, 179);
  }

  lemma Primes40()
    ensures forall t :: 40 <= t < 48 ==> Follows(t)
  {
    hide Follows;
    NextPrime(40, 179, 181);
    NextPrime(41, 181, 191);
    NextPrime(42, 191, 193);
    NextPrime(43, 193, 197);
    NextPrime(44, 197, 199);
    NextPrime(45, 199, 211);
    NextPrime(46, 211, 223);
    NextPrime(47, 223, 227);
  }

  lemma Primes48()
    ensures forall t :: 48 <= t < 56 ==> Follows(t)
  {
    hide Follows;
    NextPrime(48, 227, 229);
    NextPrime(49, 229, 233);
    NextPrime(50, 233, 239);
    NextPrime(51, 239, 241);
    NextPrime(52, 241, 251);
    NextPrime(53, 251, 257);
    NextPrime(54, 257, 263);
    NextPrime(55, 263, 269);
  }

  lemma Primes56()
    ensures forall t :: 56 <= t < 63 ==> Follows(t)
  {
    hide Follows;
    NextPrime(56, 269, 271);
    NextPrime(57, 271, 277);
    NextPrime(58, 277, 281);
    NextPrime(59, 281, 283);
    NextPrime(60, 283, 293);
    NextPrime(61, 293, 307);
    NextPrime(62, 307, 311);
  }

  lemma NextPrime(t: nat, p: nat, q: nat)
    requires t < 63 && Prime(t) == p && Prime(t + 1) == q && p < q && Sifted(q) && Gap(p, q)
    ensures Follows(t)
  {
  }

  lemma AllFollow(t: nat)
    requires t < 63
    ensures Follows(t)
  {
    hide Follows;
    Primes0();
    Primes8();
    Primes16();
    Primes24();
    Primes32();
    Primes40();
    Primes48();
    Primes56();
  }

  lemma {:induction false} Ascending(i: nat, j: nat)
    requires i < j < 64
    ensures Prime(i) < Prime(j)
    decreases j
  {
    AllFollow(j - 1);
    if i < j - 1 { Ascending(i, j - 1); }
  }

  lemma {:induction false} ListedOrSifted(x: nat, t: nat)
    requires t < 64 && 2 <= x <= Prime(t)
    ensures Sifted(x) <==> Listed(x)
    decreases t
  {
    hide Prime, Sifted, Gap;
    Ends();
    if t == 0 {
      assert Listed(Prime(0));
    } else {
      AllFollow(t - 1);
      if x == Prime(t) {
        assert Listed(x);
      } else if x <= Prime(t - 1) {
        ListedOrSifted(x, t - 1);
      } else {
        InGap(Prime(t - 1), Prime(t), x);
        NotListed(x, t);
      }
    }
  }

  lemma Ends()
    ensures Prime(0) == 2 && Prime(63) == 311 && Sifted(2)
  {
  }

  lemma NotListed(x: nat, t: nat)
    requires 0 < t < 64 && Prime(t - 1) < x < Prime(t)
    ensures !Listed(x)
  {
    hide Prime;
    if Listed(x) {
      var u: nat :| u < 64 && Prime(u) == x;
      if u < t - 1 { Ascending(u, t - 1); }
      if u > t { Ascending(t, u); }
    }
  }

  /** The list has every prime up to 311 and nothing else, in order. */
  lemma FirstPrimes(i: nat, j: nat, x: nat)
    requires i < j < 64 && x <= 311
    ensures Prime(i) < Prime(j)
    ensures Listed(x) <==> IsPrime(x)
  {
    Ascending(i, j);
    Ends();
    hide Prime, Sifted;
    if x < 2 {
      if Listed(x) {
        var u: nat :| u < 64 && Prime(u) == x;
        if u > 0 { Ascending(0, u); }
      }
    } else {
      ListedOrSifted(x, 63);
      SiftedIsPrime(x);
    }
  }

  // ----- roots -----

  /** x is the first 32 bits of the fractional part of the cube root of p, c being its whole part. */
  predicate CubeRootWith(x: nat, p: nat, c: nat) {
    var v := c * 0x1_0000_0000 + x;
    && c * c * c <= p < (c + 1) * (c + 1) * (c + 1)
    && v * v * v <= p * 0x1_0000_0000_0000_0000_0000_0000 < (v + 1) * (v + 1) * (v + 1)
  }

  ghost predicate CubeRootFraction(x: nat, p: nat) {
    exists c: nat :: CubeRootWith(x, p, c)
  }

  /** x is the first 32 bits of the fractional part of the square root of p, c being its whole part. */
  predicate SquareRootWith(x: nat, p: nat, c: nat) {
    var v := c * 0x1_0000_0000 + x;
    && c * c <= p < (c + 1) * (c + 1)
    && v * v <= p * 0x1_0000_0000_0000_0000 < (v + 1) * (v + 1)
  }

  ghost predicate SquareRootFraction(x: nat, p: nat) {
    exists c: nat :: SquareRootWith(x, p, c)
  }

  lemma Constants0()
    ensures forall t :: 0 <= t < 4 ==> CubeRootFraction(K(t), Prime(t))
  {
    hide CubeRootFraction;
    CubeRoot(0, 0x428A2F98, 2, 1);
    CubeRoot(1, 0x71374491, 3, 1);
    CubeRoot(2, 0xB5C0FBCF, 5, 1);
    CubeRoot(3, 0xE9B5DBA5, 7, 1);
  }

  lemma Constants4()
    ensures forall t :: 4 <= t < 8 ==> CubeRootFraction(K(t), Prime(t))
  {
    hide CubeRootFraction;
    CubeRoot(4, 0x3956C25B, 11, 2);
    CubeRoot(5, 0x59F111F1, 13, 2);
    CubeRoot(6, 0x923F82A4, 17, 2);
    CubeRoot(7, 0xAB1C5ED5, 19, 2);
  }

  lemma Constants8()
    ensures forall t :: 8 <= t < 12 ==> CubeRootFraction(K(t), Prime(t))
  {
    hide CubeRootFraction;
    CubeRoot(8, 0xD807AA98, 23, 2);
    CubeRoot(9, 0x12835B01, 29, 3);
    CubeRoot(10, 0x243185BE, 31, 3);
    CubeRoot(11, 0x550C7DC3, 37, 3);
  }

  lemma Constants12()
    ensures forall t :: 12 <= t < 16 ==> CubeRootFraction(K(t), Prime(t))
  {
    hide CubeRootFraction;
    CubeRoot(12, 0x72BE5D74, 41, 3);
    CubeRoot(13, 0x80DEB1FE, 43, 3);
    CubeRoot(14, 0x9BDC06A7, 47, 3);
    CubeRoot(15, 0xC19BF174, 53, 3);
  }

  lemma Constants16()
    ensures forall t :: 16 <= t < 20 ==> CubeRootFraction(K(t), Prime(t))
  {
    hide CubeRootFraction;
    CubeRoot(16, 0xE49B69C1, 59, 3);
    CubeRoot(17, 0xEFBE4786, 61, 3);
    CubeRoot(18, 0x0FC19DC6, 67, 4);
    CubeRoot(19, 0x240CA1CC, 71, 4);
  }

  lemma Constants20()
    ensures forall t :: 20 <= t < 24 ==> CubeRootFraction(K(t), Prime(t))
  {
    hide CubeRootFraction;
    CubeRoot(20, 0x2DE92C6F, 73, 4);
    CubeRoot(21, 0x4A7484AA, 79, 4);
    CubeRoot(22, 0x5CB0A9DC, 83, 4);
    CubeRoot(23, 0x76F988DA, 89, 4);
  }

  lemma Constants24()
    ensures forall t :: 24 <= t < 28 ==> CubeRootFraction(K(t), Prime(t))
  {
    hide CubeRootFraction;
    CubeRoot(24, 0x983E5152, 97, 4);
    CubeRoot(25, 0xA831C66D, 101, 4);
    CubeRoot(26, 0xB00327C8, 103, 4);
    CubeRoot(27, 0xBF597FC7, 107, 4);
  }

  lemma Constants28()
    ensures forall t :: 28 <= t < 32 ==> CubeRootFraction(K(t), Prime(t))
  {
    hide CubeRootFraction;
    CubeRoot(28, 0xC6E00BF3, 109, 4);
    CubeRoot(29, 0xD5A79147, 113, 4);
    CubeRoot(30, 0x06CA6351, 127, 5);
    CubeRoot(31, 0x14292967, 131, 5);
  }

  lemma Constants32()
    ensures forall t :: 32 <= t < 36 ==> CubeRootFraction(K(t), Prime(t))
  {
    hide CubeRootFraction;
    CubeRoot(32, 0x27B70A85, 137, 5);
    CubeRoot(33, 0x2E1B2138, 139, 5);
    CubeRoot(34, 0x4D2C6DFC, 149, 5);
    CubeRoot(35, 0x53380D13, 151, 5);
  }

  lemma Constants36()
    ensures forall t :: 36 <= t < 40 ==> CubeRootFraction(K(t), Prime(t))
  {
    hide CubeRootFraction;
    CubeRoot(36, 0x650A7354, 157, 5);
    CubeRoot(37, 0x766A0ABB, 163, 5);
    CubeRoot(38, 0x81C2C92E, 167, 5);
    CubeRoot(39, 0x92722C85, 173, 5);
  }

  lemma Constants40()
    ensures forall t :: 40 <= t < 44 ==> CubeRootFraction(K(t), Prime(t))
  {
    hide CubeRootFraction;
    CubeRoot(40, 0xA2BFE8A1, 179, 5);
    CubeRoot(41, 0xA81A664B, 181, 5);
    CubeRoot(42, 0xC24B8B70, 191, 5);
    CubeRoot(43, 0xC76C51A3, 193, 5);
  }

  lemma Constants44()
    ensures forall t :: 44 <= t < 48 ==> CubeRootFraction(K(t), Prime(t))
  {
    hide CubeRootFraction;
    CubeRoot(44, 0xD192E819, 197, 5);
    CubeRoot(45, 0xD6990624, 199, 5);
    CubeRoot(46, 0xF40E3585, 211, 5);
    CubeRoot(47, 0x106AA070, 223, 6);
  }

  lemma Constants48()
    ensures forall t :: 48 <= t < 52 ==> CubeRootFraction(K(t), Prime(t))
  {
    hide CubeRootFraction;
    CubeRoot(48, 0x19A4C116, 227, 6);
    CubeRoot(49, 0x1E376C08, 229, 6);
    CubeRoot(50, 0x2748774C, 233, 6);
    CubeRoot(51, 0x34B0BCB5, 239, 6);
  }

  lemma Constants52()
    ensures forall t :: 52 <= t < 56 ==> CubeRootFraction(K(t), Prime(t))
  {
    hide CubeRootFraction;
    CubeRoot(52, 0x391C0CB3, 241, 6);
    CubeRoot(53, 0x4ED8AA4A, 251, 6);
    CubeRoot(54, 0x5B9CCA4F, 257, 6);
    CubeRoot(55, 0x682E6FF3, 263, 6);
  }

  lemma Constants56()
    ensures forall t :: 56 <= t < 60 ==> CubeRootFraction(K(t), Prime(t))
  {
    hide CubeRootFraction;
    CubeRoot(56, 0x748F82EE, 269, 6);
    CubeRoot(57, 0x78A5636F, 271, 6);
    CubeRoot(58, 0x84C87814, 277, 6);
    CubeRoot(59, 0x8CC70208, 281, 6);
  }

  lemma Constants60()
    ensures forall t :: 60 <= t < 64 ==> CubeRootFraction(K(t), Prime(t))
  {
    hide CubeRootFraction;
    CubeRoot(60, 0x90BEFFFA, 283, 6);
    CubeRoot(61, 0xA4506CEB, 293, 6);
    CubeRoot(62, 0xBEF9A3F7, 307, 6);
    CubeRoot(63, 0xC67178F2, 311, 6);
  }

  lemma CubeRoot(t: nat, x: nat, p: nat, c: nat)
    requires t < 64 && K(t) == x && Prime(t) == p && CubeRootWith(x, p, c)
    ensures CubeRootFraction(K(t), Prime(t))
  {
  }

  /** Round constant t is the fraction of the cube root of prime t. */
  lemma RoundConstants(t: nat)
    requires t < 64
    ensures CubeRootFraction(K(t), Prime(t))
  {
    hide CubeRootFraction, K, Prime;
    Constants0();
    Constants4();
    Constants8();
    Constants12();
    Constants16();
    Constants20();
    Constants24();
    Constants28();
    Constants32();
    Constants36();
    Constants40();
    Constants44();
    Constants48();
    Constants52();
    Constants56();
    Constants60();
  }

  lemma SquareRoot(i: nat, x: nat, p: nat, c: nat)
    requires i < 8 && InitialState()[i] == x && Prime(i) == p && SquareRootWith(x, p, c)
    ensures SquareRootFraction(InitialState()[i], Prime(i))
  {
  }

  /** Word i of the initial hash value is the fraction of the square root of prime i. */
  lemma InitialWords(i: nat)
    requires i < 8
    ensures SquareRootFraction(InitialState()[i], Prime(i))
  {
    hide SquareRootFraction;
    SquareRoot(0, 0x6A09E667, 2, 1);
    SquareRoot(1, 0xBB67AE85, 3, 1);
    SquareRoot(2, 0x3C6EF372, 5, 2);
    SquareRoot(3, 0xA54FF53A, 7, 2);
    SquareRoot(4, 0x510E527F, 11, 3);
    SquareRoot(5, 0x9B05688C, 13, 3);
    SquareRoot(6, 0x1F83D9AB, 17, 4);
    SquareRoot(7, 0x5BE0CD19, 19, 4);
  }
}
