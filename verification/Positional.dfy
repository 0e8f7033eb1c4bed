/** Positional notation: digits most significant first, in any radix. */
module Positional {
  import opened Arithmetic
  import opened Limbs

  /** The number that the digits ds stand for. */
  function Number(ds: seq<nat>, radix: nat): nat {
    if ds == [] then 0 else Number(ds[..|ds| - 1], radix) * radix + ds[|ds| - 1]
  }

  /** The shortest digits of v, at least one. */
  function Digits(v: nat, radix: nat): (ds: seq<nat>)
    requires radix >= 2
    ensures |ds| >= 1
    ensures forall k :: 0 <= k < |ds| ==> ds[k] < radix
  {
    if v < radix then [v]
    else
      QuotientSmaller(v, radix);
      Digits(v / radix, radix) + [v % radix]
  }

  lemma QuotientSmaller(v: nat, radix: nat)
    requires radix >= 2 && v > 0
    ensures 0 <= v / radix < v
  {
    var q, r := DivMod(v, radix);
    MulMono(q, 2, radix);
  }

  lemma NumberSnoc(ds: seq<nat>, d: nat, radix: nat)
    ensures Number(ds + [d], radix) == Number(ds, radix) * radix + d
  {
    assert (ds + [d])[..|ds|] == ds;
  }

  lemma NumberOne(d: nat, radix: nat)
    ensures Number([d], radix) == d
  {
    NumberSnoc([], d, radix);
    assert [] + [d] == [d];
    assert 0 * radix == 0;
  }

  lemma {:induction false} NumberOfDigits(v: nat, radix: nat)
    requires radix >= 2
    ensures Number(Digits(v, radix), radix) == v
  {
    if v < radix {
      NumberOne(v, radix);
    } else {
      QuotientSmaller(v, radix);
      NumberOfDigits(v / radix, radix);
      NumberSnoc(Digits(v / radix, radix), v % radix, radix);
      var q, r := DivMod(v, radix);
      assert Digits(v, radix) == Digits(q, radix) + [r];
    }
  }

  /** One more digit at the front, in a radix that is a power of two. */
  lemma {:induction false} NumberCons(ds: seq<nat>, u: nat)
    requires ds != []
    ensures Number(ds, Pow2(u)) == ds[0] * Pow2(u * (|ds| - 1)) + Number(ds[1..], Pow2(u))
  {
    var n := |ds| - 1;
    if n == 0 {
      NumberOne(ds[0], Pow2(u));
      assert ds == [ds[0]] && u * 0 == 0 && ds[1..] == [];
    } else {
      var init, rest := ds[..n], ds[1..];
      NumberCons(init, u);
      assert rest[..n - 1] == init[1..];
      assert u * n == u * (n - 1) + u;
      Pow2Add(u * (n - 1), u);
      NumberConsArith(ds[0], Pow2(u * (n - 1)), Pow2(u), Number(init[1..], Pow2(u)), ds[n]);
    }
  }

  lemma NumberConsArith(d: nat, w: nat, r: nat, low: nat, last: nat)
    ensures (d * w + low) * r + last == d * (w * r) + (low * r + last)
  {
    MulAssoc(d, w, r);
  }

  lemma {:induction false} NumberBound(ds: seq<nat>, u: nat)
    requires forall k :: 0 <= k < |ds| ==> ds[k] < Pow2(u)
    ensures Number(ds, Pow2(u)) < Pow2(u * |ds|)
  {
    if ds == [] {
      assert u * 0 == 0;
    } else {
      var n := |ds| - 1;
      NumberBound(ds[..n], u);
      assert u * |ds| == u * n + u;
      Pow2Add(u * n, u);
      TopDecides(ds[n], 0, Pow2(u), Number(ds[..n], Pow2(u)), Pow2(u * n));
    }
  }

  /** Digits in range are determined by their number and count. */
  lemma {:induction false} NumberInjective(ds: seq<nat>, es: seq<nat>, radix: nat)
    requires |ds| == |es| && Number(ds, radix) == Number(es, radix)
    requires forall k :: 0 <= k < |ds| ==> ds[k] < radix && es[k] < radix
    ensures ds == es
  {
    if ds != [] {
      var n := |ds| - 1;
      EuclidUnique(radix, Number(ds[..n], radix), ds[n], Number(es[..n], radix), es[n]);
      NumberInjective(ds[..n], es[..n], radix);
      assert ds == ds[..n] + [ds[n]] && es == es[..n] + [es[n]];
    }
  }

  /** At most one digit per u bits, rounded up, for a radix of at least 2^u. */
  lemma {:induction false} DigitCount(v: nat, radix: nat, u: nat, bits: nat)
    requires radix >= 2 && (u == 1 || u == 2 || u == 8) && Pow2(u) <= radix && v < Pow2(bits)
    ensures |Digits(v, radix)| <= if bits == 0 then 1 else (bits + u - 1) / u
  {
    if v >= radix {
      Pow2Strict(u, bits);
      var q, r := DivMod(v, radix);
      Pow2Add(bits - u, u);
      MulMono(q, Pow2(u), radix);
      if q >= Pow2(bits - u) { MulMonoLeft(Pow2(u), Pow2(bits - u), q); }
      QuotientSmaller(v, radix);
      DigitCount(v / radix, radix, u, bits - u);
    }
  }

  /** A smaller number has no more digits. */
  lemma {:induction false} DigitsMono(a: nat, b: nat, radix: nat)
    requires radix >= 2 && a <= b
    ensures |Digits(a, radix)| <= |Digits(b, radix)|
  {
    if a >= radix {
      QuotientSmaller(a, radix);
      QuotientSmaller(b, radix);
      QuotientMono(a, b, radix);
      DigitsMono(a / radix, b / radix, radix);
    }
  }

  lemma QuotientMono(a: nat, b: nat, radix: nat)
    requires radix > 0 && a <= b
    ensures a / radix <= b / radix
  {
    var p, r := DivMod(a, radix);
    var q, t := DivMod(b, radix);
    if p > q { MulMono(radix, q + 1, p); }
  }
}
