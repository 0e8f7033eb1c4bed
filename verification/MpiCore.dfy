/** The multi-precision integer object, its allocation routines and its comparisons. */
module MpiCore {
  import opened Arithmetic
  import opened Limbs

  type Sign = s: int | s == 1 || s == -1 witness 1
  type SignedLimb = z: int | -0x8000_0000_0000_0000 <= z < 0x8000_0000_0000_0000

  datatype Status =
    | Ok
    | BadInputData
    | InvalidCharacter
    | BufferTooSmall
    | NegativeValue
    | DivisionByZero
    | NotAcceptable

  function AbsInt(z: int): nat {
    if z < 0 then -z else z
  }

  /** `s` is the sign, `p` the limb buffer that the object owns, least significant limb first.
      The buffer may have leading zero limbs, it may be empty, and zero may carry either sign. */
  class Mpi {
    var s: Sign
    var p: seq<Limb>

    constructor ()
      ensures s == 1 && p == []
    {
      s, p := 1, [];
    }

    ghost function Abs(): nat
      reads this
    {
      Val(p)
    }

    ghost function Value(): int
      reads this
    {
      if s < 0 then -(Val(p) as int) else Val(p)
    }
  }

  function Zeros(n: nat): (z: seq<Limb>)
    ensures |z| == n && forall k :: 0 <= k < n ==> z[k] == 0
  {
    seq(n, _ => 0)
  }

  lemma ValPad(p: seq<Limb>, n: nat)
    ensures Val(p + Zeros(n)) == Val(p)
  {
    ValTrim(p + Zeros(n), |p|);
    assert (p + Zeros(n))[..|p|] == p;
  }

  /** Enlarge the buffer to at least n limbs; allocation succeeds. */
  method Grow(X: Mpi, n: nat)
    modifies X
    ensures X.s == old(X.s) && X.Abs() == old(X.Abs())
    ensures |X.p| == if old(|X.p|) < n then n else old(|X.p|)
    ensures old(X.p) <= X.p && forall k :: |old(X.p)| <= k < |X.p| ==> X.p[k] == 0
  {
    if |X.p| < n {
      ValPad(X.p, n - |X.p|);
      X.p := X.p + Zeros(n - |X.p|);
    }
  }

  /** Set X from a machine integer; every higher limb becomes zero. */
  method SetInt(X: Mpi, z: SignedLimb)
    modifies X
    ensures X.Value() == z && X.Abs() == AbsInt(z)
    ensures X.s == if z < 0 then -1 else 1
    ensures |X.p| == if old(|X.p|) < 1 then 1 else old(|X.p|)
  {
    Grow(X, 1);
    X.p := Zeros(|X.p|)[0 := AbsInt(z)];
    X.s := if z < 0 then -1 else 1;
    ValTrim(X.p, 1);
    assert X.p[..1] == [X.p[0]];
    assert Val([X.p[0]]) == X.p[0] + BASE * Val([]);
  }

  /** The limb count that survives a copy: at least one. */
  function CopySize(p: seq<Limb>): nat {
    if Significant(p) == 0 then 1 else Significant(p)
  }

  method Copy(X: Mpi, Y: Mpi)
    modifies X
    ensures X.s == if old(Y.p) == [] && X != Y then 1 else old(Y.s)
    ensures X.Abs() == old(Y.Abs())
    ensures X.Value() == old(Y.Value())
    ensures X == Y ==> X.p == old(X.p)
    ensures X != Y && Y.p == [] ==> X.p == []
    ensures X != Y && Y.p != [] ==>
      |X.p| == if old(|X.p|) < CopySize(Y.p) then CopySize(Y.p) else old(|X.p|)
  {
    if X == Y { return; }
    if Y.p == [] {
      X.s, X.p := 1, [];
      return;
    }
    var i := |Y.p| - 1;
    while i > 0
      invariant 0 <= i < |Y.p|
      invariant forall k :: i < k < |Y.p| ==> Y.p[k] == 0
    {
      if Y.p[i] != 0 { break; }
      i := i - 1;
    }
    i := i + 1;
    SignificantUnique(Y.p, i);
    X.s := Y.s;
    if |X.p| < i {
      Grow(X, i);
    } else {
      X.p := X.p[..i] + Zeros(|X.p| - i);
    }
    X.p := Y.p[..i] + X.p[i..];
    assert X.p[..i] == Y.p[..i];
    ValTrim(X.p, i);
    ValTrim(Y.p, i);
  }

  lemma SignificantUnique(p: seq<Limb>, i: nat)
    requires 0 < i <= |p| && forall k :: i <= k < |p| ==> p[k] == 0
    requires i == 1 || p[i - 1] != 0
    ensures CopySize(p) == i
  {
    if Significant(p) > i {
      assert false;
    }
  }

  /** The scan for the highest non-zero limb that several routines start with. */
  method CountSignificant(X: Mpi) returns (i: nat)
    ensures i == Significant(X.p)
  {
    i := |X.p|;
    while i > 0
      invariant 0 <= i <= |X.p|
      invariant forall k :: i <= k < |X.p| ==> X.p[k] == 0
    {
      if X.p[i - 1] != 0 { break; }
      i := i - 1;
    }
    if i > 0 { SignificantUnique(X.p, i); }
  }

  // ----- comparisons -----

  /** -1, 0 or 1 as x is below, equal to or above y. */
  function Order(x: int, y: int): int {
    if x < y then -1 else if x > y then 1 else 0
  }

  lemma TopLimbDecides(x: seq<Limb>, y: seq<Limb>, k: nat)
    requires k < |x| && k < |y| && x[k] < y[k]
    ensures Val(x[..k + 1]) < Val(y[..k + 1])
  {
    ValSnoc(x, k);
    ValSnoc(y, k);
    ValBound(x[..k]);
    TopDecides(Val(x[..k]), Val(y[..k]), LimbPow(k), x[k], y[k]);
  }

  lemma SameTopLimbs(x: seq<Limb>, y: seq<Limb>, k: nat)
    requires k <= |x| == |y| && x[k..] == y[k..]
    ensures Val(x) - Val(y) == Val(x[..k]) - Val(y[..k])
  {
    ValSplit(x, k);
    ValSplit(y, k);
  }

  /** Among vectors of n significant limbs the highest limb in which they differ decides. */
  lemma ValCompare(p: seq<Limb>, q: seq<Limb>, n: nat, k: nat)
    requires k < n == Significant(p) == Significant(q)
    requires p[k] < q[k] && forall j :: k < j < n ==> p[j] == q[j]
    ensures Val(p) < Val(q)
  {
    hide Val, LimbPow, Significant;
    ValTrim(p, n);
    ValTrim(q, n);
    var x, y := p[..n], q[..n];
    TopLimbDecides(x, y, k);
    assert x[k + 1..] == y[k + 1..];
    SameTopLimbs(x, y, k + 1);
  }

  lemma ValSame(p: seq<Limb>, q: seq<Limb>, n: nat)
    requires n == Significant(p) == Significant(q)
    requires forall j :: 0 <= j < n ==> p[j] == q[j]
    ensures Val(p) == Val(q)
  {
    ValSignificant(p);
    ValSignificant(q);
    assert p[..n] == q[..n];
  }

  /** The closing loop of both comparisons, from the highest significant limb down. */
  method CompareLimbs(X: Mpi, Y: Mpi, n: nat) returns (r: int)
    requires n == Significant(X.p) == Significant(Y.p)
    ensures r == Order(X.Abs(), Y.Abs())
  {
    var i := n;
    while i > 0
      invariant 0 <= i <= n && forall k :: i <= k < n ==> X.p[k] == Y.p[k]
    {
      if X.p[i - 1] > Y.p[i - 1] { ValCompare(Y.p, X.p, n, i - 1); return 1; }
      if X.p[i - 1] < Y.p[i - 1] { ValCompare(X.p, Y.p, n, i - 1); return -1; }
      i := i - 1;
    }
    ValSame(X.p, Y.p, n);
    return 0;
  }

  method CompareAbs(X: Mpi, Y: Mpi) returns (r: int)
    ensures r == Order(X.Abs(), Y.Abs())
  {
    var i := CountSignificant(X);
    var j := CountSignificant(Y);
    ValSignificant(X.p);
    ValSignificant(Y.p);
    if i == 0 && j == 0 { return 0; }
    if i > j { ValShorter(Y.p, X.p); return 1; }
    if j > i { ValShorter(X.p, Y.p); return -1; }
    r := CompareLimbs(X, Y, i);
  }

  method Compare(X: Mpi, Y: Mpi) returns (r: int)
    ensures r == Order(X.Value(), Y.Value())
  {
    var i := CountSignificant(X);
    var j := CountSignificant(Y);
    ValSignificant(X.p);
    ValSignificant(Y.p);
    if i == 0 && j == 0 { return 0; }
    if i > j { ValShorter(Y.p, X.p); return X.s; }
    if j > i { ValShorter(X.p, Y.p); return -(Y.s as int); }
    if X.s > 0 && Y.s < 0 { return 1; }
    if Y.s > 0 && X.s < 0 { return -1; }
    r := CompareLimbs(X, Y, i);
    if X.s < 0 { r := -r; }
  }

  /** The one-limb operand that the routines taking a machine integer build on their stack. */
  method FromInt(z: SignedLimb) returns (Y: Mpi)
    ensures fresh(Y) && Y.Value() == z && Y.p == [AbsInt(z)] && Y.s == if z < 0 then -1 else 1
  {
    Y := new Mpi();
    Y.p := [AbsInt(z)];
    Y.s := if z < 0 then -1 else 1;
    assert Val(Y.p) == Y.p[0] + BASE * Val(Y.p[1..]);
  }

  method CompareInt(X: Mpi, z: SignedLimb) returns (r: int)
    ensures r == Order(X.Value(), z)
  {
    var Y := FromInt(z);
    r := Compare(X, Y);
  }
}
