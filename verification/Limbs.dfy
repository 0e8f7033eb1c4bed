/** Limbs, limb vectors and the number a limb vector stands for.
    The limb is the 64-bit word of an amd64 or aarch64 build; the number of limbs is unbounded. */
module Limbs {
  import opened Arithmetic

  const BASE := 0x1_0000_0000_0000_0000

  type Limb = x: int | 0 <= x < BASE witness 0

  /** 2 to the power k. */
  function Pow2(k: nat): (r: nat)
    ensures r >= 1
  {
    if k == 0 then 1 else 2 * Pow2(k - 1)
  }

  /** The weight of limb k. */
  function LimbPow(k: nat): (r: nat)
    ensures r >= 1
  {
    if k == 0 then 1 else BASE * LimbPow(k - 1)
  }

  /** The number a little-endian limb vector stands for. */
  function Val(p: seq<Limb>): nat {
    if p == [] then 0 else p[0] + BASE * Val(p[1..])
  }

  /** The number of limbs up to and including the highest non-zero one. */
  function Significant(p: seq<Limb>): (n: nat)
    ensures n <= |p|
    ensures n > 0 ==> p[n - 1] != 0
    ensures forall k :: n <= k < |p| ==> p[k] == 0
  {
    if p == [] then 0 else if p[|p| - 1] != 0 then |p| else Significant(p[..|p| - 1])
  }

  // ----- powers -----

  lemma {:induction false} Pow2Add(a: nat, b: nat)
    ensures Pow2(a + b) == Pow2(a) * Pow2(b)
  {
    if a > 0 {
      Pow2Add(a - 1, b);
      assert Pow2(a) * Pow2(b) == 2 * (Pow2(a - 1) * Pow2(b));
    }
  }

  lemma {:induction false} Pow2Mono(a: nat, b: nat)
    requires a <= b
    ensures Pow2(a) <= Pow2(b)
  {
    if a < b { Pow2Mono(a, b - 1); }
  }

  lemma {:induction false} Pow2Strict(a: nat, b: nat)
    requires Pow2(a) < Pow2(b)
    ensures a < b
  {
    if a >= b { Pow2Mono(b, a); }
  }

  lemma SmallPowers()
    ensures Pow2(1) == 2 && Pow2(2) == 4 && Pow2(3) == 8 && Pow2(4) == 16 && Pow2(8) == 256
  {
    assert Pow2(0) == 1 && Pow2(4) == 16;
    hide Pow2;
    Pow2Add(4, 4);
  }

  lemma Pow2Limb()
    ensures Pow2(64) == BASE && Pow2(32) == 0x1_0000_0000
  {
    SmallPowers();
    hide Pow2;
    Pow2Add(8, 8);
    Pow2Add(16, 16);
    Pow2Add(32, 32);
  }

  /** The powers that words of whole bytes need. */
  lemma WordPowers()
    ensures Pow2(1) == 2 && Pow2(8) == 256 && Pow2(32) == 0x1_0000_0000
    ensures Pow2(56) == 0x100_0000_0000_0000 && Pow2(64) == BASE
  {
    hide Pow2;
    SmallPowers();
    Pow2Limb();
    Pow2Add(56, 8);
  }

  lemma {:induction false} LimbPowAdd(a: nat, b: nat)
    ensures LimbPow(a + b) == LimbPow(a) * LimbPow(b)
  {
    if a > 0 {
      LimbPowAdd(a - 1, b);
      MulAssoc(BASE, LimbPow(a - 1), LimbPow(b));
    }
  }

  lemma {:induction false} LimbPowIsPow2(k: nat)
    ensures LimbPow(k) == Pow2(64 * k)
  {
    if k > 0 {
      LimbPowIsPow2(k - 1);
      Pow2Add(64, 64 * (k - 1));
      Pow2Limb();
    }
  }

  lemma {:induction false} LimbPowMono(a: nat, b: nat)
    requires a <= b
    ensures LimbPow(a) <= LimbPow(b)
  {
    if a < b { LimbPowMono(a, b - 1); }
  }

  // ----- values -----

  lemma {:induction false} ValSplit(p: seq<Limb>, k: nat)
    requires k <= |p|
    ensures Val(p) == Val(p[..k]) + LimbPow(k) * Val(p[k..])
  {
    if k == 0 {
      assert p[0..] == p;
    } else {
      assert Val(p) == p[0] + BASE * Val(p[1..]) && Val(p[..k]) == p[0] + BASE * Val(p[..k][1..]);
      assert LimbPow(k) == BASE * LimbPow(k - 1);
      hide Val, LimbPow;
      ValSplit(p[1..], k - 1);
      assert p[1..][..k - 1] == p[..k][1..];
      assert p[1..][k - 1..] == p[k..];
      MulAssoc(BASE, LimbPow(k - 1), Val(p[k..]));
    }
  }

  /** One more limb at the top. */
  lemma {:induction false} ValSnoc(p: seq<Limb>, i: nat)
    requires i < |p|
    ensures Val(p[..i + 1]) == Val(p[..i]) + p[i] * LimbPow(i)
  {
    var q := p[..i + 1];
    ValSplit(q, i);
    assert q[..i] == p[..i] && q[i..] == [p[i]];
    assert Val([p[i]]) == p[i] + BASE * Val([p[i]][1..]);
    assert LimbPow(i) * p[i] == p[i] * LimbPow(i);
  }

  lemma EmptyIsZero()
    ensures Val([]) == 0
  {
  }

  lemma ParityOfLimbs(p: seq<Limb>)
    requires p != []
    ensures p[0] % 2 == Val(p) % 2
  {
    ValHead(p, 0);
    assert p[0..] == p;
  }

  /** One more limb at the bottom. */
  lemma ValHead(p: seq<Limb>, i: nat)
    requires i < |p|
    ensures Val(p[i..]) == p[i] + BASE * Val(p[i + 1..])
  {
    assert p[i..][1..] == p[i + 1..];
  }

  lemma {:induction false} ValBound(p: seq<Limb>)
    ensures Val(p) < LimbPow(|p|)
  {
    if p != [] { ValBound(p[1..]); }
  }

  lemma {:induction false} ValZero(p: seq<Limb>)
    ensures Val(p) == 0 <==> forall k :: 0 <= k < |p| ==> p[k] == 0
  {
    if p != [] {
      ValZero(p[1..]);
      if forall k :: 0 <= k < |p[1..]| ==> p[1..][k] == 0 {
        forall k | 1 <= k < |p| ensures p[k] == 0 { assert p[1..][k - 1] == 0; }
      }
    }
  }

  /** Limbs above a bound on the value are zero. */
  lemma ValHighZero(p: seq<Limb>, k: nat)
    requires k <= |p| && Val(p) < LimbPow(k)
    ensures forall j :: k <= j < |p| ==> p[j] == 0
    ensures Val(p[..k]) == Val(p)
  {
    var high := p[k..];
    assert Val(high) == 0 && Val(p[..k]) == Val(p) by {
      ValSplit(p, k);
      NoHighPart(Val(p[..k]), LimbPow(k), Val(high), Val(p));
    }
    ValZero(high);
    forall j | k <= j < |p| ensures p[j] == 0 { assert high[j - k] == 0; }
  }

  /** Zero limbs at the top do not count. */
  lemma ValTrim(p: seq<Limb>, k: nat)
    requires k <= |p| && forall j :: k <= j < |p| ==> p[j] == 0
    ensures Val(p) == Val(p[..k])
  {
    ValSplit(p, k);
    ValZero(p[k..]);
  }

  lemma ValSignificant(p: seq<Limb>)
    ensures Val(p) == Val(p[..Significant(p)]) < LimbPow(Significant(p))
    ensures Significant(p) > 0 ==> LimbPow(Significant(p) - 1) <= Val(p)
    ensures Significant(p) == 0 <==> Val(p) == 0
  {
    hide Val, LimbPow;
    var n := Significant(p);
    ValTrim(p, n);
    ValBound(p[..n]);
    if n > 0 {
      ValSnoc(p, n - 1);
      TimesPositive(p[n - 1], LimbPow(n - 1));
    } else {
      ValNothing(p);
    }
  }

  lemma ValNothing(p: seq<Limb>)
    ensures Val(p[..0]) == 0
  {
  }

  lemma TimesPositive(x: nat, w: nat)
    requires x > 0
    ensures x * w >= w
  {
  }

  /** More significant limbs, larger value. */
  lemma ValShorter(p: seq<Limb>, q: seq<Limb>)
    requires Significant(p) < Significant(q)
    ensures Val(p) < Val(q)
  {
    ValSignificant(p);
    ValSignificant(q);
    LimbPowMono(Significant(p), Significant(q) - 1);
  }

  /** Two vectors with the same value have the same significant limbs. */
  lemma SignificantFromVal(p: seq<Limb>, q: seq<Limb>)
    requires Val(p) == Val(q)
    ensures Significant(p) == Significant(q)
  {
    if Significant(p) < Significant(q) { ValShorter(p, q); }
    if Significant(q) < Significant(p) { ValShorter(q, p); }
  }

  /** Changing one limb changes the value by the difference times its weight. */
  lemma ValUpdate(p: seq<Limb>, i: nat, v: Limb)
    requires i < |p|
    ensures Val(p[i := v]) == Val(p) + (v - p[i]) * LimbPow(i)
  {
    var q := p[i := v];
    ValSplit(p, i);
    ValSplit(q, i);
    ValHead(p, i);
    ValHead(q, i);
    assert q[..i] == p[..i] && q[i + 1..] == p[i + 1..];
    MulSub(LimbPow(i), Val(q[i..]), Val(p[i..]));
  }

  /** The limbs are determined by the value. */
  lemma {:induction false} ValInjective(p: seq<Limb>, q: seq<Limb>)
    requires |p| == |q| && Val(p) == Val(q)
    ensures p == q
  {
    if p != [] {
      assert Val(p) % BASE == p[0] && Val(q) % BASE == q[0];
      ValInjective(p[1..], q[1..]);
      assert p == [p[0]] + p[1..] && q == [q[0]] + q[1..];
    }
  }
}
