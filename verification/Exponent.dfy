// The square-and-multiply chains: inversion and the exponent of the square root.

module Exponent {
  import opened Radix
  import opened Field25519

  /** 2^255 - 21 */
  const INVERSE_EXPONENT: nat := P - 2
  /** 2^252 - 3 */
  const ROOT_EXPONENT: nat := (P - 5) / 8

  /** The exponent reached when the loop has run from `top - 1` down to `a`, where the
      multiplication is left out at the indices in `skip`. */
  function ChainExponent(top: nat, skip: set<int>, a: nat): nat
    decreases top - a
  {
    if a >= top then 1
    else 2 * ChainExponent(top, skip, a + 1) + if a in skip then 0 else 1
  }

  lemma ChainStep(top: nat, skip: set<int>, a: nat, e: nat)
    requires a < top && e == ChainExponent(top, skip, a + 1)
    ensures ChainExponent(top, skip, a) == 2 * e + if a in skip then 0 else 1
  {}

  /** Above every skipped index the exponent is all ones. */
  lemma {:induction false} AllOnes(top: nat, skip: set<int>, a: nat)
    requires a <= top && forall k :: k in skip ==> k < a
    ensures ChainExponent(top, skip, a) == Pow(2, top + 1 - a) - 1
    decreases top - a
  {
    if a == top {
      assert Pow(2, 1) == 2 * Pow(2, 0);
    } else {
      AllOnes(top, skip, a + 1);
      assert Pow(2, top + 1 - a) == 2 * Pow(2, top - a);
    }
  }

  lemma PowProduct(b: int, i: nat, j: nat, v: int, w: int)
    requires Pow(b, i) == v && Pow(b, j) == w
    ensures Pow(b, i + j) == v * w
  {
    PowAdd(b, i, j);
  }

  lemma TwoTo250()
    ensures Pow(2, 250) * 32 == P + 19
  {
    assert Pow(2, 5) == 32;
    PowProduct(2, 5, 5, 0x20, 0x20);
    PowProduct(2, 10, 10, 0x400, 0x400);
    PowProduct(2, 20, 5, 0x100000, 0x20);
    PowProduct(2, 25, 25, 0x2000000, 0x2000000);
    PowProduct(2, 50, 50, 0x4000000000000, 0x4000000000000);
    PowProduct(2, 100, 25, 0x10000000000000000000000000, 0x2000000);
    PowProduct(2, 125, 125, 0x20000000000000000000000000000000, 0x20000000000000000000000000000000);
  }

  lemma InverseExponent()
    ensures ChainExponent(254, {2, 4}, 0) == INVERSE_EXPONENT
  {
    var skip := {2, 4};
    AllOnes(254, skip, 5);
    TwoTo250();
    assert ChainExponent(254, skip, 4) == 2 * ChainExponent(254, skip, 5);
    assert ChainExponent(254, skip, 3) == 2 * ChainExponent(254, skip, 4) + 1;
    assert ChainExponent(254, skip, 2) == 2 * ChainExponent(254, skip, 3);
    assert ChainExponent(254, skip, 1) == 2 * ChainExponent(254, skip, 2) + 1;
    assert ChainExponent(254, skip, 0) == 2 * ChainExponent(254, skip, 1) + 1;
  }

  lemma RootExponent()
    ensures ChainExponent(251, {1}, 0) == ROOT_EXPONENT
  {
    var skip := {1};
    AllOnes(251, skip, 2);
    TwoTo250();
    assert ChainExponent(251, skip, 1) == 2 * ChainExponent(251, skip, 2);
    assert ChainExponent(251, skip, 0) == 2 * ChainExponent(251, skip, 1) + 1;
  }

  /** Squaring doubles the exponent. */
  lemma SquarePower(c: int, c': int, z: int, e: nat, m: int)
    requires m > 0 && Cong(c, Pow(z, e), m) && Cong(c', c * c, m)
    ensures Cong(c', Pow(z, 2 * e), m)
  {
    CongMul(c, Pow(z, e), c, Pow(z, e), m);
    PowAdd(z, e, e);
  }

  /** Multiplying by the base adds one to it. */
  lemma TimesBase(c: int, c': int, z: int, e: nat, m: int)
    requires m > 0 && Cong(c, Pow(z, e), m) && Cong(c', c * z, m)
    ensures Cong(c', Pow(z, e + 1), m)
  {
    CongMul(c, Pow(z, e), z, z, m);
    assert Pow(z, e) * z == Pow(z, e + 1);
  }

  /** The limbs `c` hold a power of the element `z`. */
  ghost predicate PowerOf(c: seq<int>, z: seq<int>, e: nat) {
    |c| == 16 && Below(c, NARROW) && Cong(Int(c), Pow(Int(z), e), P)
  }

  /** One step of either chain: square, then multiply unless the index is skipped. */
  method Step(c: array<int>, z: array<int>, multiply: bool, ghost e: nat)
    requires c.Length == 16 && z.Length == 16 && c != z && Below(z[..], NARROW)
    requires PowerOf(c[..], z[..], e)
    modifies c
    ensures Tight(c[..]) && PowerOf(c[..], z[..], 2 * e + if multiply then 1 else 0)
  {
    ghost var v, x := Int(c[..]), Int(z[..]);
    ghost var base := z[..];
    Mul(c, c, c);
    assert z[..] == base;
    SquarePower(v, Int(c[..]), x, e, P);
    TightIsNarrow(c[..]);
    if multiply {
      v := Int(c[..]);
      Mul(c, c, z);
      assert z[..] == base;
      TimesBase(v, Int(c[..]), x, 2 * e, P);
      TightIsNarrow(c[..]);
    }
  }

  /** The step at index `a` of a chain. */
  method Turn(c: array<int>, z: array<int>, multiply: bool, ghost top: nat, ghost skip: set<int>, ghost a: nat)
    requires c.Length == 16 && z.Length == 16 && c != z && Below(z[..], NARROW)
    requires a < top && multiply == (a !in skip) && PowerOf(c[..], z[..], ChainExponent(top, skip, a + 1))
    modifies c
    ensures Tight(c[..]) && PowerOf(c[..], z[..], ChainExponent(top, skip, a))
  {
    ghost var e := ChainExponent(top, skip, a + 1);
    ChainStep(top, skip, a, e);
    Step(c, z, multiply, e);
  }

  /** inv25519: the power 2^255 - 21, which is p - 2. */
  method Invert(o: array<int>, i: array<int>)
    requires o.Length == 16 && i.Length == 16 && Below(i[..], NARROW)
    modifies o
    ensures Tight(o[..]) && PowerOf(o[..], old(i[..]), INVERSE_EXPONENT)
  {
    ghost var z := i[..];
    var c := Copy(i);
    PowOfOne(Int(z));
    var a := 253;
    while a >= 0
      invariant -1 <= a <= 253 && fresh(c) && c.Length == 16
      invariant i[..] == z && (a < 253 ==> Tight(c[..]))
      invariant PowerOf(c[..], z, ChainExponent(254, {2, 4}, a + 1))
    {
      Turn(c, i, a != 2 && a != 4, 254, {2, 4}, a);
      assert i[..] == z;
      a := a - 1;
    }
    InverseExponent();
    CopyInto(o, c);
  }

  /** pow2523: the power 2^252 - 3. */
  method PowerForRoot(o: array<int>, i: array<int>)
    requires o.Length == 16 && i.Length == 16 && Below(i[..], NARROW)
    modifies o
    ensures Tight(o[..]) && PowerOf(o[..], old(i[..]), ROOT_EXPONENT)
  {
    ghost var z := i[..];
    var c := Copy(i);
    PowOfOne(Int(z));
    var a := 250;
    while a >= 0
      invariant -1 <= a <= 250 && fresh(c) && c.Length == 16
      invariant i[..] == z && (a < 250 ==> Tight(c[..]))
      invariant PowerOf(c[..], z, ChainExponent(251, {1}, a + 1))
    {
      Turn(c, i, a != 1, 251, {1}, a);
      assert i[..] == z;
      a := a - 1;
    }
    RootExponent();
    CopyInto(o, c);
  }

  lemma PowOfOne(z: int)
    ensures Pow(z, 1) == z
  {
    assert Pow(z, 1) == z * Pow(z, 0);
  }

  /** set25519 into new storage. */
  method Copy(a: array<int>) returns (c: array<int>)
    requires a.Length == 16
    ensures fresh(c) && c[..] == a[..]
  {
    c := new int[16];
    CopyInto(c, a);
  }

  /** set25519 */
  method CopyInto(o: array<int>, a: array<int>)
    requires o.Length == 16 && a.Length == 16
    modifies o
    ensures o[..] == old(a[..])
  {
    for k := 0 to 16
      invariant o[..k] == old(a[..k]) && forall j :: k <= j < 16 ==> a[j] == old(a[j])
    {
      o[k] := a[k];
    }
  }

  /** What inversion is for: where a power of an element is 1, the power one below it is the
      multiplicative inverse. By Fermat the power p - 1 is 1 for every element that is not
      divisible by p, and inv25519 gives the power p - 2. */
  lemma InverseTimesItself(z: int, y: int, e: nat, m: int)
    requires m > 0 && Cong(y, Pow(z, e), m) && Cong(Pow(z, e + 1), 1, m)
    ensures Cong(y * z, 1, m)
  {
    CongMul(y, Pow(z, e), z, z, m);
    assert Pow(z, e + 1) == Pow(z, e) * z;
  }
}
