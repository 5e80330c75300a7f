// Points of the curve in extended coordinates over the limb arithmetic: addition,
// conditional swap, the scalar multiplication ladder and packing.

module Edwards {
  import opened Radix
  import opened Field25519
  import Ladder

  // ---- the definition on residues ----

  /** A point in extended coordinates, each a residue modulo the field prime. */
  datatype Ext = Ext(x: int, y: int, z: int, t: int)

  const D2_LIMBS: seq<int> := [
    0xf159, 0x26b2, 0x9b94, 0xebd6, 0xb156, 0x8283, 0x149a, 0x00e0,
    0xd130, 0xeef3, 0x80f2, 0x198e, 0xfce7, 0x56df, 0xd9dc, 0x2406]

  const NEUTRAL := Ext(0, 1, 1, 0)

  function DiffProduct(p: Ext, q: Ext): int { (p.y - p.x) * (q.y - q.x) }
  function SumProduct(p: Ext, q: Ext): int { (p.x + p.y) * (q.x + q.y) }
  function TProduct(p: Ext, q: Ext): int { p.t * q.t * Int(D2_LIMBS) }
  function ZProduct(p: Ext, q: Ext): int { p.z * q.z + p.z * q.z }

  /** The unified addition formulas. */
  function Sum(p: Ext, q: Ext): Ext {
    var a, b, c, d := DiffProduct(p, q), SumProduct(p, q), TProduct(p, q), ZProduct(p, q);
    Combine(b - a, d - c, d + c, b + a, P)
  }

  /** The four products at the end of the formulas. */
  function Combine(e: int, f: int, g: int, h: int, m: int): Ext
    requires m > 0
  {
    Ext((e * f) % m, (h * g) % m, (g * f) % m, (e * h) % m)
  }

  /** The relation between the coordinates that the formulas rely on. */
  ghost predicate Extended(p: Ext) {
    ExtendedModulo(p, P)
  }

  ghost predicate ExtendedModulo(p: Ext, m: int)
    requires m > 0
  {
    Cong(p.x * p.y, p.z * p.t, m)
  }

  /** Every sum satisfies it, whatever was added and whatever the modulus. */
  lemma CombinedIsExtended(e: int, f: int, g: int, h: int, m: int)
    requires m > 0
    ensures ExtendedModulo(Combine(e, f, g, h, m), m)
  {
    CongMod(e * f, m);
    CongMod(h * g, m);
    CongMod(g * f, m);
    CongMod(e * h, m);
    CongMul((e * f) % m, e * f, (h * g) % m, h * g, m);
    CongMul((g * f) % m, g * f, (e * h) % m, e * h, m);
    Rearranged(e, f, g, h);
  }

  lemma Rearranged(e: int, f: int, g: int, h: int)
    ensures (e * f) * (h * g) == (g * f) * (e * h)
  {
    assert (e * f) * (h * g) == (e * h) * (f * g);
  }

  // ---- points in storage ----

  /** Limbs small enough that the sums and differences inside an addition stay narrow. */
  ghost predicate Small(s: seq<int>) {
    |s| == 16 && Below(s, 0x20000)
  }

  class Point {
    const x: array<int>
    const y: array<int>
    const z: array<int>
    const t: array<int>

    constructor ()
      ensures Separate() && fresh(x) && fresh(y) && fresh(z) && fresh(t)
      ensures Shape()
    {
      x := new int[16];
      y := new int[16];
      z := new int[16];
      t := new int[16];
    }

    ghost predicate Separate() {
      x != y && x != z && x != t && y != z && y != t && z != t
    }

    ghost predicate Shape() {
      x.Length == 16 && y.Length == 16 && z.Length == 16 && t.Length == 16
    }

    ghost function Arrays(): set<array<int>> {
      {x, y, z, t}
    }

    ghost predicate Valid()
      reads x, y, z, t
    {
      && Separate() && Shape()
      && Small(x[..]) && Small(y[..]) && Small(z[..]) && Small(t[..])
    }

    ghost function Coords(): Ext
      reads x, y, z, t
    {
      Ext(Fe(x[..]), Fe(y[..]), Fe(z[..]), Fe(t[..]))
    }
  }

  /** The two arguments are the same point or share no storage. */
  ghost predicate Disjoint(p: Point, q: Point) {
    p.Arrays() !! q.Arrays()
  }

  /** A table of limbs as an operand. */
  method Load(s: seq<int>) returns (o: array<int>)
    requires |s| == 16
    ensures fresh(o) && o.Length == 16 && o[..] == s
  {
    o := new int[16];
    for i := 0 to 16
      invariant o[..i] == s[..i]
    {
      o[i] := s[i];
    }
  }

  // ---- addition ----

  lemma ToResidue(s: seq<int>, v: int)
    requires v == Fe(s)
    ensures Cong(Int(s), v, P)
  {
    CongMod(Int(s), P);
  }

  /** Differences and sums may be taken on the residues. */
  lemma DiffProductOf(a: int, y1: int, u1: int, x1: int, v1: int, y2: int, u2: int, x2: int, v2: int, m: int)
    requires m > 0 && Cong(a, (y1 - x1) * (y2 - x2), m)
    requires Cong(y1, u1, m) && Cong(x1, v1, m) && Cong(y2, u2, m) && Cong(x2, v2, m)
    ensures Cong(a, (u1 - v1) * (u2 - v2), m)
  {
    CongAdd(y1, u1, x1, v1, m);
    CongAdd(y2, u2, x2, v2, m);
    CongMul(y1 - x1, u1 - v1, y2 - x2, u2 - v2, m);
  }

  lemma SumProductOf(b: int, x1: int, v1: int, y1: int, u1: int, x2: int, v2: int, y2: int, u2: int, m: int)
    requires m > 0 && Cong(b, (x1 + y1) * (x2 + y2), m)
    requires Cong(y1, u1, m) && Cong(x1, v1, m) && Cong(y2, u2, m) && Cong(x2, v2, m)
    ensures Cong(b, (v1 + u1) * (v2 + u2), m)
  {
    CongAdd(x1, v1, y1, u1, m);
    CongAdd(x2, v2, y2, u2, m);
    CongMul(x1 + y1, v1 + u1, x2 + y2, v2 + u2, m);
  }

  lemma ProductOf(c: int, u: int, v: int, m: int)
    requires m > 0 && Cong(c, u * v, m)
    ensures Cong(c, (u % m) * (v % m), m)
  {
    CongMod(u, m);
    CongMod(v, m);
    CongMul(u, u % m, v, v % m, m);
  }

  /** The product of the differences, in the first half of add. */
  method DifferencesProduct(x1: array<int>, y1: array<int>, x2: array<int>, y2: array<int>, ghost p: Ext, ghost q: Ext)
    returns (a: array<int>)
    requires x1.Length == y1.Length == x2.Length == y2.Length == 16
    requires Small(x1[..]) && Small(y1[..]) && Small(x2[..]) && Small(y2[..])
    requires p.x == Fe(x1[..]) && p.y == Fe(y1[..]) && q.x == Fe(x2[..]) && q.y == Fe(y2[..])
    ensures fresh(a) && a.Length == 16 && Below(a[..], 0x40000)
    ensures Cong(Int(a[..]), DiffProduct(p, q), P)
  {
    a := new int[16];
    var t := new int[16];
    Sub(a, y1, x1);
    Sub(t, y2, x2);
    Mul(a, a, t);
    ToResidue(y1[..], p.y);
    ToResidue(x1[..], p.x);
    ToResidue(y2[..], q.y);
    ToResidue(x2[..], q.x);
    DiffProductOf(Int(a[..]), Int(y1[..]), p.y, Int(x1[..]), p.x, Int(y2[..]), q.y, Int(x2[..]), q.x, P);
  }

  /** The product of the sums. */
  method SumsProduct(x1: array<int>, y1: array<int>, x2: array<int>, y2: array<int>, ghost p: Ext, ghost q: Ext)
    returns (b: array<int>)
    requires x1.Length == y1.Length == x2.Length == y2.Length == 16
    requires Small(x1[..]) && Small(y1[..]) && Small(x2[..]) && Small(y2[..])
    requires p.x == Fe(x1[..]) && p.y == Fe(y1[..]) && q.x == Fe(x2[..]) && q.y == Fe(y2[..])
    ensures fresh(b) && b.Length == 16 && Below(b[..], 0x40000)
    ensures Cong(Int(b[..]), SumProduct(p, q), P)
  {
    b := new int[16];
    var t := new int[16];
    Add(b, x1, y1);
    Add(t, x2, y2);
    Mul(b, b, t);
    ToResidue(y1[..], p.y);
    ToResidue(x1[..], p.x);
    ToResidue(y2[..], q.y);
    ToResidue(x2[..], q.x);
    SumProductOf(Int(b[..]), Int(x1[..]), p.x, Int(y1[..]), p.y, Int(x2[..]), q.x, Int(y2[..]), q.y, P);
  }

  lemma TProductOf(c: int, c': int, t1: int, t2: int, k: int, m: int)
    requires m > 0 && Cong(c', t1 * t2, m) && Cong(c, c' * k, m)
    ensures Cong(c, (t1 % m) * (t2 % m) * k, m)
  {
    ProductOf(c', t1, t2, m);
    CongMul(c', (t1 % m) * (t2 % m), k, k, m);
  }

  lemma DoubledProductOf(d: int, z1: int, z2: int, m: int)
    requires m > 0 && Cong(d, z1 * z2, m)
    ensures Cong(d + d, (z1 % m) * (z2 % m) + (z1 % m) * (z2 % m), m)
  {
    ProductOf(d, z1, z2, m);
    var v := (z1 % m) * (z2 % m);
    CongAdd(d, v, d, v, m);
  }

  /** The second half of add: the products with the curve constant and with two. */
  method HeightsProduct(t1: array<int>, t2: array<int>, z1: array<int>, z2: array<int>, ghost p: Ext, ghost q: Ext)
    returns (c: array<int>, d: array<int>)
    requires t1.Length == t2.Length == z1.Length == z2.Length == 16
    requires Small(t1[..]) && Small(t2[..]) && Small(z1[..]) && Small(z2[..])
    requires p.t == Fe(t1[..]) && q.t == Fe(t2[..]) && p.z == Fe(z1[..]) && q.z == Fe(z2[..])
    ensures fresh(c) && fresh(d) && c != d && c.Length == d.Length == 16
    ensures Below(c[..], 0x40000) && Below(d[..], 0x40000)
    ensures Cong(Int(c[..]), TProduct(p, q), P) && Cong(Int(d[..]), ZProduct(p, q), P)
  {
    c, d := new int[16], new int[16];
    var k := Load(D2_LIMBS);
    Mul(c, t1, t2);
    ghost var first := Int(c[..]);
    TightIsNarrow(c[..]);
    Mul(c, c, k);
    TProductOf(Int(c[..]), first, Int(t1[..]), Int(t2[..]), Int(D2_LIMBS), P);
    Mul(d, z1, z2);
    TightIsNarrow(d[..]);
    DoubledProductOf(Int(d[..]), Int(z1[..]), Int(z2[..]), P);
    Add(d, d, d);
  }

  lemma CoordinateOf(o: int, u: int, v: int, u': int, v': int, m: int)
    requires m > 0 && Cong(o, u * v, m) && Cong(u, u', m) && Cong(v, v', m)
    ensures o % m == (u' * v') % m
  {
    CongMul(u, u', v, v', m);
  }

  /** A difference and a sum of the same two elements. */
  method DifferenceAndSum(a: array<int>, b: array<int>, ghost a': int, ghost b': int)
    returns (e: array<int>, h: array<int>)
    requires a.Length == b.Length == 16 && Below(a[..], 0x40000) && Below(b[..], 0x40000)
    requires Cong(Int(a[..]), a', P) && Cong(Int(b[..]), b', P)
    ensures fresh(e) && fresh(h) && e.Length == h.Length == 16 && e != h
    ensures Below(e[..], NARROW) && Below(h[..], NARROW)
    ensures Cong(Int(e[..]), b' - a', P) && Cong(Int(h[..]), b' + a', P)
  {
    e, h := new int[16], new int[16];
    CongAdd(Int(b[..]), b', Int(a[..]), a', P);
    Sub(e, b, a);
    Add(h, b, a);
  }

  /** The four products that end add. */
  method FourProducts(p: Point, e: array<int>, f: array<int>, g: array<int>, h: array<int>,
                      ghost e': int, ghost f': int, ghost g': int, ghost h': int)
    requires p.Separate() && p.Shape()
    requires e.Length == f.Length == g.Length == h.Length == 16
    requires {e, f, g, h} !! p.Arrays()
    requires Below(e[..], NARROW) && Below(f[..], NARROW) && Below(g[..], NARROW) && Below(h[..], NARROW)
    requires Cong(Int(e[..]), e', P) && Cong(Int(f[..]), f', P)
    requires Cong(Int(g[..]), g', P) && Cong(Int(h[..]), h', P)
    modifies p.x, p.y, p.z, p.t
    ensures p.Valid()
    ensures p.Coords() == Ext((e' * f') % P, (h' * g') % P, (g' * f') % P, (e' * h') % P)
  {
    ghost var ei, fi, gi, hi := Int(e[..]), Int(f[..]), Int(g[..]), Int(h[..]);
    Mul(p.x, e, f);
    CoordinateOf(Int(p.x[..]), ei, fi, e', f', P);
    Mul(p.y, h, g);
    CoordinateOf(Int(p.y[..]), hi, gi, h', g', P);
    Mul(p.z, g, f);
    CoordinateOf(Int(p.z[..]), gi, fi, g', f', P);
    Mul(p.t, e, h);
    CoordinateOf(Int(p.t[..]), ei, hi, e', h', P);
  }

  /** The first half of add, up to e and h. */
  method Sides(p: Point, q: Point, ghost u: Ext, ghost v: Ext) returns (e: array<int>, h: array<int>)
    requires p.Valid() && q.Valid() && u == p.Coords() && v == q.Coords()
    ensures fresh(e) && fresh(h) && e.Length == h.Length == 16 && e != h
    ensures Below(e[..], NARROW) && Below(h[..], NARROW)
    ensures Cong(Int(e[..]), SumProduct(u, v) - DiffProduct(u, v), P)
    ensures Cong(Int(h[..]), SumProduct(u, v) + DiffProduct(u, v), P)
  {
    var a := DifferencesProduct(p.x, p.y, q.x, q.y, u, v);
    var b := SumsProduct(p.x, p.y, q.x, q.y, u, v);
    e, h := DifferenceAndSum(a, b, DiffProduct(u, v), SumProduct(u, v));
  }

  /** The second half, up to f and g. */
  method Heights(p: Point, q: Point, ghost u: Ext, ghost v: Ext) returns (f: array<int>, g: array<int>)
    requires p.Valid() && q.Valid() && u == p.Coords() && v == q.Coords()
    ensures fresh(f) && fresh(g) && f.Length == g.Length == 16 && f != g
    ensures Below(f[..], NARROW) && Below(g[..], NARROW)
    ensures Cong(Int(f[..]), ZProduct(u, v) - TProduct(u, v), P)
    ensures Cong(Int(g[..]), ZProduct(u, v) + TProduct(u, v), P)
  {
    var c, d := HeightsProduct(p.t, q.t, p.z, q.z, u, v);
    f, g := DifferenceAndSum(c, d, TProduct(u, v), ZProduct(u, v));
  }

  /** add: `p` becomes the sum; `q` may be `p` itself. */
  method AddPoint(p: Point, q: Point)
    requires p.Valid() && q.Valid() && (p == q || Disjoint(p, q))
    modifies p.x, p.y, p.z, p.t
    ensures p.Valid() && p.Coords() == old(Sum(p.Coords(), q.Coords())) && Extended(p.Coords())
  {
    ghost var u, v := p.Coords(), q.Coords();
    var e, h := Sides(p, q, u, v);
    var f, g := Heights(p, q, u, v);
    ghost var a, b, c, d := DiffProduct(u, v), SumProduct(u, v), TProduct(u, v), ZProduct(u, v);
    FourProducts(p, e, f, g, h, b - a, d - c, d + c, b + a);
    CombinedIsExtended(b - a, d - c, d + c, b + a, P);
  }

  // ---- the ladder ----

  /** cswap */
  method SwapPoints(p: Point, q: Point, b: int)
    requires p.Valid() && q.Valid() && Disjoint(p, q) && (b == 0 || b == 1)
    modifies p.x, p.y, p.z, p.t, q.x, q.y, q.z, q.t
    ensures p.Valid() && q.Valid()
    ensures b == 1 ==> p.Coords() == old(q.Coords()) && q.Coords() == old(p.Coords())
    ensures b == 0 ==> p.Coords() == old(p.Coords()) && q.Coords() == old(q.Coords())
  {
    Select(p.x, q.x, b);
    Select(p.y, q.y, b);
    Select(p.z, q.z, b);
    Select(p.t, q.t, b);
  }

  /** One iteration of scalarmult. */
  method LadderBody(p: Point, q: Point, b: int)
    requires p.Valid() && q.Valid() && Disjoint(p, q) && (b == 0 || b == 1)
    modifies p.x, p.y, p.z, p.t, q.x, q.y, q.z, q.t
    ensures p.Valid() && q.Valid()
    ensures (p.Coords(), q.Coords()) == old(Ladder.Step(Sum, p.Coords(), q.Coords(), b))
    ensures Extended(p.Coords()) && Extended(q.Coords())
  {
    SwapPoints(p, q, b);
    AddPoint(q, p);
    AddPoint(p, p);
    SwapPoints(p, q, b);
  }

  method SetNeutral(p: Point)
    requires p.Separate() && p.Shape()
    modifies p.x, p.y, p.z, p.t
    ensures p.Valid() && p.Coords() == NEUTRAL
  {
    SetSmall(p.x, 0);
    SetSmall(p.y, 1);
    SetSmall(p.z, 1);
    SetSmall(p.t, 0);
  }

  /** set25519 from gf0 or gf1. */
  method SetSmall(o: array<int>, d: int)
    requires o.Length == 16 && (d == 0 || d == 1)
    modifies o
    ensures Small(o[..]) && Fe(o[..]) == d
  {
    for i := 0 to 16
      invariant forall k :: 0 <= k < i ==> o[k] == if k == 0 then d else 0
    {
      o[i] := if i == 0 then d else 0;
    }
    ghost var s := o[..][0 := o[0] + -d];
    ValueZeros(s, LIMB);
    ValueAdd(o[..], 0, -d, LIMB, 1);
    FloorUnique(d, P, 0, d);
  }

  /** scalarmult: `p` becomes the ladder's first point; all coordinates stay small and
      proportional over all 256 iterations. */
  method ScalarMult(p: Point, q: Point, s: seq<int>)
    requires p.Separate() && p.Shape() && q.Valid() && Disjoint(p, q)
    requires |s| == 32 && Digits(s, 256) && Extended(q.Coords())
    modifies p.x, p.y, p.z, p.t, q.x, q.y, q.z, q.t
    ensures p.Valid() && q.Valid()
    ensures (p.Coords(), q.Coords()) == Ladder.Run(Sum, NEUTRAL, old(q.Coords()), s, 256)
    ensures Extended(p.Coords()) && Extended(q.Coords())
  {
    SetNeutral(p);
    ghost var start := q.Coords();
    var i := 255;
    while i >= 0
      invariant -1 <= i <= 255 && p.Valid() && q.Valid()
      invariant Ladder.Run(Sum, p.Coords(), q.Coords(), s, i + 1) == Ladder.Run(Sum, NEUTRAL, start, s, 256)
      invariant Extended(p.Coords()) && Extended(q.Coords())
    {
      LadderBody(p, q, Ladder.Bit(s, i));
      i := i - 1;
    }
  }

  // ---- the base point and packing ----

  const BASE_X: seq<int> := [
    0xd51a, 0x8f25, 0x2d60, 0xc956, 0xa7b2, 0x9525, 0xc760, 0x692c,
    0xdc5c, 0xfdd6, 0xe231, 0xc0a4, 0x53fe, 0xcd6e, 0x36d3, 0x2169]
  const BASE_Y: seq<int> := [
    0x6658, 0x6666, 0x6666, 0x6666, 0x6666, 0x6666, 0x6666, 0x6666,
    0x6666, 0x6666, 0x6666, 0x6666, 0x6666, 0x6666, 0x6666, 0x6666]

  function BasePoint(): Ext {
    Ext(Fe(BASE_X), Fe(BASE_Y), 1, (Int(BASE_X) * Int(BASE_Y)) % P)
  }

  lemma BaseIsExtended()
    ensures Extended(BasePoint())
  {
    ProductOf(Int(BASE_X) * Int(BASE_Y), Int(BASE_X), Int(BASE_Y), P);
    CongMod(Int(BASE_X) * Int(BASE_Y), P);
  }

  /** scalarbase */
  method ScalarBase(p: Point, s: seq<int>)
    requires p.Separate() && p.Shape() && |s| == 32 && Digits(s, 256)
    modifies p.x, p.y, p.z, p.t
    ensures p.Valid() && p.Coords() == Ladder.Run(Sum, NEUTRAL, BasePoint(), s, 256).0
    ensures Extended(p.Coords())
  {
    var q := new Point();
    SetBase(q);
    ScalarMult(p, q, s);
  }

  method SetBase(q: Point)
    requires q.Separate() && q.Shape()
    modifies q.x, q.y, q.z, q.t
    ensures q.Valid() && q.Coords() == BasePoint() && Extended(q.Coords())
  {
    SetLimbs(q.x, BASE_X);
    SetLimbs(q.y, BASE_Y);
    SetSmall(q.z, 1);
    Mul(q.t, q.x, q.y);
    BaseIsExtended();
  }

  method SetLimbs(o: array<int>, s: seq<int>)
    requires o.Length == 16 && |s| == 16
    modifies o
    ensures o[..] == s
  {
    for i := 0 to 16
      invariant o[..i] == s[..i]
    {
      o[i] := s[i];
    }
  }
}
