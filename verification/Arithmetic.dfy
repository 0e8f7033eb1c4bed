/** Facts about products, quotients and remainders. */
module Arithmetic {
  lemma MulZero(w: nat, x: nat)
    ensures w * x >= w || x == 0
  {
    if x > 0 { MulMono(w, 1, x); }
  }

  lemma MulMono(w: nat, x: int, y: int)
    requires x <= y
    ensures w * x <= w * y
  {
    assert w * (y - x) >= 0;
    assert w * (y - x) == w * y - w * x;
  }

  lemma MulMonoLeft(w: nat, x: int, y: int)
    requires x <= y
    ensures x * w <= y * w
  {
    MulMono(w, x, y);
  }

  lemma ScaledBelow(u: nat, d: nat, w: nat)
    requires u < d
    ensures u * w + w <= d * w
  {
    MulMono(w, u + 1, d);
  }

  lemma NoHighPart(low: nat, w: nat, high: nat, v: nat)
    requires v == low + w * high && v < w
    ensures high == 0 && low == v
  {
    MulZero(w, high);
    assert w * 0 == 0;
  }

  lemma TopDecides(low: nat, low': nat, w: nat, x: int, y: int)
    requires low < w && x < y
    ensures low + x * w < low' + y * w
  {
    MulMono(w, x + 1, y);
    assert w * (x + 1) == x * w + w;
  }

  lemma MulAssoc(x: int, y: int, z: int)
    ensures (x * y) * z == x * (y * z)
  {
  }

  lemma MulSub(w: int, x: int, y: int)
    ensures w * (x - y) == w * x - w * y
    ensures (x - y) * w == w * x - w * y
  {
  }

  lemma DivUnique(x: int, d: int, q: int, r: int)
    requires d > 0 && x == q * d + r && 0 <= r < d
    ensures x / d == q && x % d == r
  {
    var q', r' := x / d, x % d;
    assert (q - q') * d == r' - r;
    if q > q' { MulMono(d, 1, q - q'); }
    if q < q' { MulMono(d, 1, q' - q); }
  }

  lemma DivDiv(x: nat, a: nat, b: nat)
    requires a > 0 && b > 0
    ensures a * b > 0 && (x / a) / b == x / (a * b)
  {
    MulMono(a, 1, b);
    var q, r := x / a, x % a;
    var q', r' := q / b, q % b;
    assert x == (q' * b + r') * a + r;
    assert (q' * b + r') * a == q' * (a * b) + r' * a;
    MulMono(a, r' + 1, b);
    assert a * (r' + 1) == r' * a + a;
    DivUnique(x, a * b, q', r' * a + r);
  }

  lemma DivMod(v: nat, d: nat) returns (t: nat, rem: nat)
    requires d > 0
    ensures t == v / d && rem == v % d && t * d + rem == v && rem < d
  {
    t, rem := v / d, v % d;
  }

  lemma ScaledDivision(u: nat, d: nat, w: nat)
    requires d > 0 && w > 0
    ensures (u * w) / (d * w) == u / d && (u * w) % (d * w) == (u % d) * w
    ensures ((u % d) * w) / w == u % d
  {
    var q, r := u / d, u % d;
    MulMono(w, 1, d);
    assert (q * d + r) * w == q * (d * w) + r * w;
    MulMono(w, r + 1, d);
    assert w * (r + 1) == r * w + w;
    assert w * d == d * w;
    DivUnique(u * w, d * w, q, r * w);
    DivUnique(r * w, w, r, 0);
  }

  lemma NegateProduct(q: int, y: int)
    ensures q * -y == -(q * y) == (-q) * y && (-q) * (-y) == q * y
  {
  }

  lemma EuclidUnique(d: nat, q: nat, r: nat, q': nat, r': nat)
    requires r < d && r' < d && q * d + r == q' * d + r'
    ensures q == q' && r == r'
  {
    DivUnique(q * d + r, d, q, r);
    DivUnique(q * d + r, d, q', r');
  }

  lemma OneBelow(q: int, b: int)
    ensures (-q - 1) * b == -(q * b) - b
  {
  }

  lemma NegatedRem(v: nat, b: nat)
    requires b > 0
    ensures (-(v as int)) % b == if v % b == 0 then 0 else b - v % b
  {
    var q: int, r: int := v / b, v % b;
    NegateProduct(q, b);
    OneBelow(q, b);
    if r == 0 { DivUnique(-(v as int), b, -q, 0); } else { DivUnique(-(v as int), b, -q - 1, b - r); }
  }

  lemma AddMultiple(x: int, n: int, k: int)
    requires n > 0
    ensures (x + k * n) % n == x % n
  {
    var q: int, r: int := x / n, x % n;
    assert (q + k) * n == q * n + k * n;
    DivUnique(x + k * n, n, q + k, r);
  }

  lemma ModLeft(x: int, y: int, n: int)
    requires n > 0
    ensures (x * y) % n == ((x % n) * y) % n
  {
    var q, r := Quotient(x, n);
    SplitFactor(x, q, n, r, y);
    AddMultiple(r * y, n, q * y);
  }

  lemma Quotient(x: int, n: int) returns (q: int, r: int)
    requires n > 0
    ensures q == x / n && r == x % n && x == q * n + r
  {
    q, r := x / n, x % n;
  }

  lemma SplitFactor(x: int, q: int, n: int, r: int, y: int)
    requires x == q * n + r
    ensures x * y == r * y + (q * y) * n
  {
    assert (q * n) * y == (q * y) * n;
  }

  lemma ModProduct(x: int, y: int, n: int)
    requires n > 0
    ensures (x * y) % n == ((x % n) * (y % n)) % n
  {
    ModLeft(x, y, n);
    assert (x % n) * y == y * (x % n);
    ModLeft(y, x % n, n);
    assert (y % n) * (x % n) == (x % n) * (y % n);
  }
}
