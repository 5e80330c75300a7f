// What the addition formulas compute: the addition of the twisted Edwards curve
// y^2 - x^2 = 1 + d x^2 y^2, which does not lead off the curve. The laws are proved for
// any modulus and any integers, and then for the field prime and the constants of the program.

module EdwardsLaw {
  import opened Wrappers
  import opened Radix
  import opened Field25519
  import opened Edwards
  import opened PointCodec
  import Ladder

  // ---- the law of the addition ----

  /** The four products, from halves of their factors. */
  lemma HalvesLaw(e: int, f: int, g: int, h: int, e': int, f': int, g': int, h': int, x: int, y: int, z: int, m: int)
    requires m > 0 && e == 2 * e' && h == 2 * h' && Cong(f, 2 * f', m) && Cong(g, 2 * g', m)
    requires Cong(x, e * f, m) && Cong(y, h * g, m) && Cong(z, g * f, m)
    ensures Cong(x * g', z * e', m) && Cong(y * f', z * h', m)
  {
    CrossLaw(e, f, g, e', g', x, z, m);
    assert g * f == f * g;
    CrossLaw(h, g, f, h', f', y, z, m);
  }

  lemma CrossLaw(e: int, f: int, g: int, e': int, g': int, x: int, z: int, m: int)
    requires m > 0 && e == 2 * e' && Cong(g, 2 * g', m) && Cong(x, e * f, m) && Cong(z, g * f, m)
    ensures Cong(x * g', z * e', m)
  {
    CongMul(x, e * f, g', g', m);
    CongMul(z, g * f, e', e', m);
    CongMul(g, 2 * g', f * e', f * e', m);
    assert (e * f) * g' == (2 * g') * (f * e');
    assert (g * f) * e' == g * (f * e');
  }

  /** The halves of the side factors, exactly. */
  lemma SideHalves(p: Ext, q: Ext)
    ensures SumProduct(p, q) - DiffProduct(p, q) == 2 * (p.x * q.y + q.x * p.y)
    ensures SumProduct(p, q) + DiffProduct(p, q) == 2 * (p.y * q.y + p.x * q.x)
  {
    Sides(p.x, p.y, q.x, q.y);
  }

  lemma Sides(x: int, y: int, u: int, v: int)
    ensures (x + y) * (u + v) - (y - x) * (v - u) == 2 * (x * v + u * y)
    ensures (x + y) * (u + v) + (y - x) * (v - u) == 2 * (y * v + x * u)
  {}

  /** The halves of the other two, modulo m: twice the curve constant is used for `k`. */
  lemma HeightHalves(zz: int, tt: int, k: int, d: int, m: int)
    requires m > 0 && Cong(k, 2 * d, m)
    ensures Cong(zz + zz - tt * k, 2 * (zz - d * tt), m) && Cong(zz + zz + tt * k, 2 * (zz + d * tt), m)
  {
    CongMul(tt, tt, k, 2 * d, m);
    assert tt * (2 * d) == 2 * (d * tt);
    CongAdd(zz + zz, zz + zz, tt * k, 2 * (d * tt), m);
  }

  lemma DoubledFactors(a: int, b: int)
    ensures (2 * a) * (2 * b) == 4 * (a * b)
  {}

  /** The sum of two points is what the curve prescribes, in terms of coordinates over z: its x is
      (x1 y2 + x2 y1) / (z1 z2 + d t1 t2) and its y is (y1 y2 + x1 x2) / (z1 z2 - d t1 t2). */
  lemma SumLaw(p: Ext, q: Ext, r: Ext, d: int, k: int, zz: int, tt: int, f: int, g: int, m: int)
    requires m > 0 && Cong(k, 2 * d, m) && zz == p.z * q.z && tt == p.t * q.t
    requires f == zz + zz - tt * k && g == zz + zz + tt * k
    requires r == Combine(SumProduct(p, q) - DiffProduct(p, q), f, g, SumProduct(p, q) + DiffProduct(p, q), m)
    ensures Cong(r.x * (zz + d * tt), r.z * (p.x * q.y + q.x * p.y), m)
    ensures Cong(r.y * (zz - d * tt), r.z * (p.y * q.y + p.x * q.x), m)
    ensures Cong(r.z, 4 * ((zz + d * tt) * (zz - d * tt)), m)
  {
    var e, h := SumProduct(p, q) - DiffProduct(p, q), SumProduct(p, q) + DiffProduct(p, q);
    SideHalves(p, q);
    HeightHalves(zz, tt, k, d, m);
    CongMod(e * f, m);
    CongMod(h * g, m);
    CongMod(g * f, m);
    CongMul(g, 2 * (zz + d * tt), f, 2 * (zz - d * tt), m);
    DoubledFactors(zz + d * tt, zz - d * tt);
    HalvesLaw(e, f, g, h, p.x * q.y + q.x * p.y, zz - d * tt, zz + d * tt, p.y * q.y + p.x * q.x, r.x, r.y, r.z, m);
  }

  // ---- the curve ----

  /** The curve equation for extended coordinates: y^2 - x^2 = z^2 + d t^2. */
  ghost predicate OnEdwards(p: Ext, d: int, m: int)
    requires m > 0
  {
    Cong(p.y * p.y - p.x * p.x, p.z * p.z + d * (p.t * p.t), m)
  }

  lemma Regroup(a: int, b: int, c: int, d: int)
    ensures (a * b) * (c * d) == (a * c) * (b * d)
  {}

  lemma Square(a: int, b: int)
    ensures (a + b) * (a + b) == a * a + b * b + 2 * (a * b)
  {}

  lemma Expand(a: int, b: int, c: int, d: int)
    ensures (a + b) * (c + d) == a * c + b * d + a * d + b * c
    ensures (a - b) * (c - d) == a * c + b * d - a * d - b * c
  {}

  /** The halves e' and h' of a sum, by q = x y, k = y^2 - x^2 and s = y^2 + x^2 of each point. */
  lemma HalfSquares(x: int, y: int, u: int, v: int, e: int, h: int)
    requires e == x * v + u * y && h == y * v + x * u
    ensures h * h - e * e == (y * y - x * x) * (v * v - u * u)
    ensures h * h + e * e == (y * y + x * x) * (v * v + u * u) + 4 * ((x * y) * (u * v))
  {
    Square(x * v, u * y);
    Square(y * v, x * u);
    Expand(y * y, x * x, v * v, u * u);
    Regroup(x, v, x, v);
    Regroup(u, y, u, y);
    Regroup(y, v, y, v);
    Regroup(x, u, x, u);
    Regroup(x, v, y, u);
    Regroup(y, v, x, u);
  }

  lemma HalfProduct(x: int, y: int, u: int, v: int, e: int, h: int)
    requires e == x * v + u * y && h == y * v + x * u
    ensures e * h == (x * y) * (v * v + u * u) + (u * v) * (y * y + x * x)
  {
    Expand(x * v, u * y, y * v, x * u);
    Regroup(x, v, y, v);
    Regroup(u, y, x, u);
    Regroup(x, v, x, u);
    Regroup(u, y, y, v);
  }

  /** s^2 = k^2 + 4 q^2 */
  lemma SumOfSquares(x: int, y: int)
    ensures var s, k, q := y * y + x * x, y * y - x * x, x * y; s * s == k * k + 4 * (q * q)
  {
    var a, b, q := y * y, x * x, x * y;
    assert a * b == q * q;
  }

  /** The curve equation of a sum up to the factor 16, without the sums of squares: n is
      m1^2 + m2^2 and l is m1 m2 for m1 = z1 z2 and m2 = d t1 t2. */
  function Defect(a: int, b: int, c: int, e: int, n: int, l: int, d: int): int {
    a * n + 8 * (l * b) - n * n + 4 * (l * l) - d * (c * c + e * e + 8 * (b * b))
  }

  /** The curve equation of a sum, as the defect and a multiple of l - d b. */
  lemma DefectOf(hh: int, ee: int, eh: int, n: int, l: int, d: int, a: int, b: int, c: int, e: int, s: int)
    requires hh - ee == a && hh + ee == s + 4 * b && eh == c * c + e * e + 8 * (b * b) + 2 * (b * s)
    ensures hh * (n + 2 * l) - ee * (n - 2 * l) - (n + 2 * l) * (n - 2 * l) - d * eh
         == Defect(a, b, c, e, n, l, d) + 2 * (s * (l - d * b))
  {
    var u := c * c + e * e + 8 * (b * b);
    DefectTerms(ee, a, b, n, l, d, u, b * (2 * ee + a - 4 * b));
    DefectRest(b, s, l, d);
  }

  lemma DefectTerms(ee: int, a: int, b: int, n: int, l: int, d: int, u: int, w: int)
    ensures (ee + a) * (n + 2 * l) - ee * (n - 2 * l) - (n + 2 * l) * (n - 2 * l) - d * (u + 2 * w)
         == a * n + 8 * (l * b) - n * n + 4 * (l * l) - d * u + 2 * ((2 * ee + a - 4 * b) * l - d * w)
  {}

  lemma DefectRest(b: int, s: int, l: int, d: int)
    ensures s * (l - d * b) == s * l - d * (b * s)
  {}

  lemma SquareTerms(u: int, v: int, k: int, l: int)
    ensures u * (l + 4 * v) + v * (k + 4 * u) == u * l + v * k + 8 * (u * v)
  {}

  /** The square of e' h' by the numbers q and s of the points. */
  lemma CrossSquare(q1: int, q2: int, s1: int, s2: int, k1: int, k2: int)
    requires s1 * s1 == k1 * k1 + 4 * (q1 * q1) && s2 * s2 == k2 * k2 + 4 * (q2 * q2)
    ensures (q1 * s2 + q2 * s1) * (q1 * s2 + q2 * s1)
         == (q1 * k2) * (q1 * k2) + (q2 * k1) * (q2 * k1) + 8 * ((q1 * q2) * (q1 * q2)) + 2 * ((q1 * q2) * (s1 * s2))
  {
    Square(q1 * s2, q2 * s1);
    Regroup(q1, s2, q2, s1);
    Regroup(q1, s2, q1, s2);
    Regroup(q2, s1, q2, s1);
    Regroup(q1, k2, q1, k2);
    Regroup(q2, k1, q2, k1);
    Regroup(q1, q2, q1, q2);
    SquareTerms(q1 * q1, q2 * q2, k1 * k1, k2 * k2);
  }

  /** The defect depends on its first arguments up to congruence. */
  lemma DefectCong(a: int, b: int, c: int, e: int, a': int, b': int, c': int, e': int, n: int, l: int, d: int, m: int)
    requires m > 0 && Cong(a, a', m) && Cong(b, b', m) && Cong(c, c', m) && Cong(e, e', m)
    ensures Cong(Defect(a, b, c, e, n, l, d), Defect(a', b', c', e', n, l, d), m)
  {
    CongMul(a, a', n, n, m);
    CongMul(8 * l, 8 * l, b, b', m);
    CongMul(c, c', c, c', m);
    CongMul(e, e', e, e', m);
    CongMul(b, b', b, b', m);
    CongMul(8, 8, b * b, b' * b', m);
    CongAdd(c * c, c' * c', e * e, e' * e', m);
    CongAdd(c * c + e * e, c' * c' + e' * e', 8 * (b * b), 8 * (b' * b'), m);
    CongMul(d, d, c * c + e * e + 8 * (b * b), c' * c' + e' * e' + 8 * (b' * b'), m);
    assert (8 * l) * b == 8 * (l * b) && (8 * l) * b' == 8 * (l * b');
    CongAdd(a * n, a' * n, 8 * (l * b), 8 * (l * b'), m);
    var w := n * n - 4 * (l * l);
    CongAdd(a * n + 8 * (l * b), a' * n + 8 * (l * b'), w, w, m);
    CongAdd(a * n + 8 * (l * b) - w, a' * n + 8 * (l * b') - w,
            d * (c * c + e * e + 8 * (b * b)), d * (c' * c' + e' * e' + 8 * (b' * b')), m);
  }

  /** Where k is z^2 + d t^2 and q is z t there is no defect: by x = z^2 and y = d t^2 of each point. */
  lemma NoDefect(x1: int, y1: int, x2: int, y2: int, d: int, b: int, c: int, e: int, l: int)
    requires l == d * b && l * l == (x1 * y1) * (x2 * y2)
    requires d * (c * c) == (x1 * y1) * ((x2 + y2) * (x2 + y2)) && d * (e * e) == (x2 * y2) * ((x1 + y1) * (x1 + y1))
    ensures Defect((x1 + y1) * (x2 + y2), b, c, e, x1 * x2 + y1 * y2, l, d) == 0
  {
    DefectVanishes(x1, y1, x2, y2);
    var cc, ee, bb := c * c, e * e, b * b;
    assert l * b == d * bb;
    assert d * (cc + ee + 8 * bb) == d * cc + d * ee + 8 * (d * bb);
  }

  lemma DefectVanishes(x1: int, y1: int, x2: int, y2: int)
    ensures (x1 + y1) * (x2 + y2) * (x1 * x2 + y1 * y2) - (x1 * x2 + y1 * y2) * (x1 * x2 + y1 * y2)
            + 4 * ((x1 * y1) * (x2 * y2))
         == (x1 * y1) * ((x2 + y2) * (x2 + y2)) + (x2 * y2) * ((x1 + y1) * (x1 + y1))
  {}

  /** The numbers of `NoDefect`, for two points that satisfy the equations exactly. */
  lemma HeightTerms(z1: int, t1: int, z2: int, t2: int, d: int, m1: int, m2: int)
    requires m1 == z1 * z2 && m2 == d * (t1 * t2)
    ensures m1 * m1 + m2 * m2 == (z1 * z1) * (z2 * z2) + (d * (t1 * t1)) * (d * (t2 * t2))
    ensures m1 * m2 == d * ((z1 * t1) * (z2 * t2))
    ensures (m1 * m2) * (m1 * m2) == ((z1 * z1) * (d * (t1 * t1))) * ((z2 * z2) * (d * (t2 * t2)))
  {
    Regroup(z1, z2, z1, z2);
    Regroup(d, t1 * t2, d, t1 * t2);
    Regroup(t1, t2, t1, t2);
    Regroup(d, t1 * t1, d, t2 * t2);
    Regroup(z1, z2, t1, t2);
    Regroup(m1, m2, m1, m2);
    Regroup(z1 * z1, z2 * z2, d * (t1 * t1), d * (t2 * t2));
  }

  lemma WeightedSquare(d: int, z: int, t: int, n: int)
    ensures d * (((z * t) * n) * ((z * t) * n)) == ((z * z) * (d * (t * t))) * (n * n)
  {
    Regroup(z * t, n, z * t, n);
    Regroup(z, t, z, t);
    var u, v, w := z * z, t * t, n * n;
    assert d * ((u * v) * w) == (u * (d * v)) * w;
  }

  /** The defect of two points on the curve vanishes modulo m. */
  lemma DefectGone(p: Ext, q: Ext, d: int, k1: int, k2: int, q1: int, q2: int, m1: int, m2: int, m: int)
    requires m > 0 && m1 == p.z * q.z && m2 == d * (p.t * q.t)
    requires Cong(k1, p.z * p.z + d * (p.t * p.t), m) && Cong(k2, q.z * q.z + d * (q.t * q.t), m)
    requires Cong(q1, p.z * p.t, m) && Cong(q2, q.z * q.t, m)
    ensures Cong(Defect(k1 * k2, q1 * q2, q1 * k2, q2 * k1, m1 * m1 + m2 * m2, m1 * m2, d), 0, m)
    ensures Cong(m1 * m2 - d * (q1 * q2), 0, m)
  {
    var n1, n2 := p.z * p.z + d * (p.t * p.t), q.z * q.z + d * (q.t * q.t);
    var w1, w2, l := p.z * p.t, q.z * q.t, m1 * m2;
    CongMul(k1, n1, k2, n2, m);
    CongMul(q1, w1, q2, w2, m);
    CongMul(q1, w1, k2, n2, m);
    CongMul(q2, w2, k1, n1, m);
    HeightTerms(p.z, p.t, q.z, q.t, d, m1, m2);
    DefectCong(k1 * k2, q1 * q2, q1 * k2, q2 * k1, n1 * n2, w1 * w2, w1 * n2, w2 * n1, m1 * m1 + m2 * m2, l, d, m);
    WeightedSquare(d, p.z, p.t, n2);
    WeightedSquare(d, q.z, q.t, n1);
    NoDefect(p.z * p.z, d * (p.t * p.t), q.z * q.z, d * (q.t * q.t), d, w1 * w2, w1 * n2, w2 * n1, l);
    CongMul(d, d, q1 * q2, w1 * w2, m);
    CongAdd(l, l, d * (q1 * q2), l, m);
  }

  /** The curve equation of a sum by the defect, for the halves of the factors. */
  lemma HalvesDefect(x: int, y: int, u: int, v: int, d: int, e: int, h: int, n: int, l: int,
                     k1: int, k2: int, q1: int, q2: int)
    returns (s: int)
    requires e == x * v + u * y && h == y * v + x * u && q1 == x * y && q2 == u * v
    requires k1 == y * y - x * x && k2 == v * v - u * u
    ensures (h * h) * (n + 2 * l) - (e * e) * (n - 2 * l) - (n + 2 * l) * (n - 2 * l) - d * ((e * h) * (e * h))
         == Defect(k1 * k2, q1 * q2, q1 * k2, q2 * k1, n, l, d) + 2 * (s * (l - d * (q1 * q2)))
  {
    var s1, s2 := y * y + x * x, v * v + u * u;
    s := s1 * s2;
    HalfSquares(x, y, u, v, e, h);
    HalfProduct(x, y, u, v, e, h);
    SumOfSquares(x, y);
    SumOfSquares(u, v);
    CrossSquare(q1, q2, s1, s2, k1, k2);
    DefectOf(h * h, e * e, (e * h) * (e * h), n, l, d, k1 * k2, q1 * q2, q1 * k2, q2 * k1, s);
  }

  /** The curve equation of a sum, for the halves of the factors. */
  lemma HalvesOnEdwards(p: Ext, q: Ext, d: int, e: int, h: int, m1: int, m2: int, m: int)
    requires m > 0 && ExtendedModulo(p, m) && ExtendedModulo(q, m) && OnEdwards(p, d, m) && OnEdwards(q, d, m)
    requires e == p.x * q.y + q.x * p.y && h == p.y * q.y + p.x * q.x && m1 == p.z * q.z && m2 == d * (p.t * q.t)
    ensures var g, f := m1 * m1 + m2 * m2 + 2 * (m1 * m2), m1 * m1 + m2 * m2 - 2 * (m1 * m2);
            Cong((h * h) * g - (e * e) * f - g * f - d * ((e * h) * (e * h)), 0, m)
  {
    var k1, k2 := p.y * p.y - p.x * p.x, q.y * q.y - q.x * q.x;
    var q1, q2, n, l := p.x * p.y, q.x * q.y, m1 * m1 + m2 * m2, m1 * m2;
    var s := HalvesDefect(p.x, p.y, q.x, q.y, d, e, h, n, l, k1, k2, q1, q2);
    DefectGone(p, q, d, k1, k2, q1, q2, m1, m2, m);
    VanishingSum(Defect(k1 * k2, q1 * q2, q1 * k2, q2 * k1, n, l, d), s, l - d * (q1 * q2), m);
  }

  lemma VanishingSum(a: int, s: int, b: int, m: int)
    requires m > 0 && Cong(a, 0, m) && Cong(b, 0, m)
    ensures Cong(a + 2 * (s * b), 0, m)
  {
    CongMul(2 * s, 2 * s, b, 0, m);
    assert (2 * s) * b == 2 * (s * b);
    CongAdd(a, 0, 2 * (s * b), 0, m);
  }

  /** Squares of the coordinates, whose factors have halves. */
  lemma CoordinateSquare(x: int, f: int, g: int, f': int, g': int, m: int)
    requires m > 0 && x == (f * g) % m && Cong(f, 2 * f', m) && Cong(g, 2 * g', m)
    ensures Cong(x * x, 16 * ((f' * f') * (g' * g')), m)
  {
    CongMod(f * g, m);
    CongMul(f, 2 * f', g, 2 * g', m);
    var w := (2 * f') * (2 * g');
    CongMul(x, w, x, w, m);
    Regroup(2 * f', 2 * g', 2 * f', 2 * g');
    Quadruple(f' * f', g' * g');
    assert (2 * f') * (2 * f') == 4 * (f' * f') && (2 * g') * (2 * g') == 4 * (g' * g');
  }

  lemma Quadruple(a: int, b: int)
    ensures (4 * a) * (4 * b) == 16 * (a * b)
  {}

  /** The curve equation of the result from that of the halves. */
  lemma SumEquation(xx: int, yy: int, zz: int, tt: int, a: int, b: int, c: int, e: int, d: int, m: int)
    requires m > 0 && Cong(xx, 16 * a, m) && Cong(yy, 16 * b, m) && Cong(zz, 16 * c, m) && Cong(tt, 16 * e, m)
    requires Cong(b - a - c - d * e, 0, m)
    ensures Cong(yy - xx, zz + d * tt, m)
  {
    var v := b - a - c - d * e;
    CongMul(16, 16, v, 0, m);
    CongAdd(yy, 16 * b, xx, 16 * a, m);
    CongMul(d, d, tt, 16 * e, m);
    assert d * (16 * e) == 16 * (d * e);
    CongAdd(zz, 16 * c, d * tt, 16 * (d * e), m);
    CongAdd(16 * c + 16 * (d * e), zz + d * tt, 16 * v, 0, m);
  }

  /** A sum of two points on the curve is on the curve, whatever the modulus. */
  lemma SumOnEdwards(p: Ext, q: Ext, r: Ext, d: int, k: int, zz: int, tt: int, f: int, g: int, m: int)
    requires m > 0 && Cong(k, 2 * d, m) && zz == p.z * q.z && tt == p.t * q.t
    requires f == zz + zz - tt * k && g == zz + zz + tt * k
    requires r == Combine(SumProduct(p, q) - DiffProduct(p, q), f, g, SumProduct(p, q) + DiffProduct(p, q), m)
    requires ExtendedModulo(p, m) && ExtendedModulo(q, m) && OnEdwards(p, d, m) && OnEdwards(q, d, m)
    ensures OnEdwards(r, d, m)
  {
    var e, h := SumProduct(p, q) - DiffProduct(p, q), SumProduct(p, q) + DiffProduct(p, q);
    var e', h', f', g' := p.x * q.y + q.x * p.y, p.y * q.y + p.x * q.x, zz - d * tt, zz + d * tt;
    SideHalves(p, q);
    HeightHalves(zz, tt, k, d, m);
    HalvesOnEdwards(p, q, d, e', h', zz, d * tt, m);
    Square(zz, d * tt);
    Expand(zz, d * tt, zz, d * tt);
    CoordinateSquare(r.x, e, f, e', f', m);
    CoordinateSquare(r.y, h, g, h', g', m);
    CoordinateSquare(r.z, g, f, g', f', m);
    CoordinateSquare(r.t, e, h, e', h', m);
    Regroup(e', h', e', h');
    SumEquation(r.x * r.x, r.y * r.y, r.z * r.z, r.t * r.t, (e' * e') * (f' * f'), (h' * h') * (g' * g'),
                (g' * g') * (f' * f'), (e' * e') * (h' * h'), d, m);
  }

  // ---- the constants ----

  lemma FourLimbs(s: seq<int>)
    requires |s| == 4
    ensures Int(s) == s[0] + 0x10000 * s[1] + 0x1_00000000 * s[2] + 0x1_0000_00000000 * s[3]
  {
    assert Pow(LIMB, 1) == LIMB * Pow(LIMB, 0) == LIMB;
    PowAdd(LIMB, 1, 1);
    PowAdd(LIMB, 2, 1);
    ValueOfOne(s[0], LIMB);
    assert s[..1] == [s[0]];
    ValuePrefix(s, 1, LIMB, LIMB);
    ValuePrefix(s, 2, LIMB, 0x1_00000000);
    ValuePrefix(s, 3, LIMB, 0x1_0000_00000000);
    assert s[..4] == s;
  }

  /** Sixteen limbs by four words of 64 bits. */
  lemma SixteenLimbs(s: seq<int>)
    requires |s| == 16
    ensures Int(s) == Int(s[..4]) + 0x1_0000000000000000 * Int(s[4..8])
                      + 0x1_00000000000000000000000000000000 * Int(s[8..12])
                      + 0x1_000000000000000000000000000000000000000000000000 * Int(s[12..])
  {
    assert Pow(LIMB, 1) == LIMB * Pow(LIMB, 0) == LIMB;
    PowAdd(LIMB, 1, 1);
    PowAdd(LIMB, 2, 2);
    ValueSplit(s, 4, LIMB, 0x1_0000000000000000);
    ValueSplit(s[4..], 4, LIMB, 0x1_0000000000000000);
    ValueSplit(s[8..], 4, LIMB, 0x1_0000000000000000);
    assert s[4..][..4] == s[4..8] && s[4..][4..] == s[8..];
    assert s[8..][..4] == s[8..12] && s[8..][4..] == s[12..];
  }

  lemma WordsOf(s: seq<int>, a: int, b: int, c: int, d: int)
    requires |s| == 16
    requires a == s[0] + 0x10000 * s[1] + 0x1_00000000 * s[2] + 0x1_0000_00000000 * s[3]
    requires b == s[4] + 0x10000 * s[5] + 0x1_00000000 * s[6] + 0x1_0000_00000000 * s[7]
    requires c == s[8] + 0x10000 * s[9] + 0x1_00000000 * s[10] + 0x1_0000_00000000 * s[11]
    requires d == s[12] + 0x10000 * s[13] + 0x1_00000000 * s[14] + 0x1_0000_00000000 * s[15]
    ensures Int(s) == a + 0x1_0000000000000000 * b + 0x1_00000000000000000000000000000000 * c
                      + 0x1_000000000000000000000000000000000000000000000000 * d
  {
    SixteenLimbs(s);
    FourLimbs(s[..4]);
    FourLimbs(s[4..8]);
    FourLimbs(s[8..12]);
    FourLimbs(s[12..]);
  }

  const D := 0x52036cee2b6ffe738cc740797779e89800700a4d4141d8ab75eb4dca135978a3
  const BASE_X_VALUE := 0x216936d3cd6e53fec0a4e231fdd6dc5c692cc7609525a7b2c9562d608f25d51a
  const BASE_Y_VALUE := 0x6666666666666666666666666666666666666666666666666666666666666658

  /** The curve constant is the number for which 121666 d = -121665, and the second table is twice it. */
  lemma CurveConstant()
    ensures Int(D_LIMBS) == D && Fe(D_LIMBS) == D
    ensures Int(D2_LIMBS) == 2 * D - P
    ensures 121666 * D + 121665 == 77955 * P
  {
    WordsOf(D_LIMBS, 0x75eb4dca135978a3, 0x00700a4d4141d8ab, 0x8cc740797779e898, 0x52036cee2b6ffe73);
    WordsOf(D2_LIMBS, 0xebd69b9426b2f159, 0x00e0149a8283b156, 0x198e80f2eef3d130, 0x2406d9dc56dffce7);
    FloorUnique(D, P, 0, D);
  }

  lemma SquareRootOfMinusOne()
    ensures Int(I_LIMBS) * Int(I_LIMBS) + 1 == 0xecaa2e2f6a2302ccedb31ac05720688238ced2078f3eb0ec9f22e8f621972e5 * P
  {
    WordsOf(I_LIMBS, 0xc4ee1b274a0ea0b0, 0x2f431806ad2fe478, 0x2b4d00993dfbd7a7, 0x2b8324804fc1df0b);
  }

  lemma BaseValues()
    ensures Fe(BASE_X) == Int(BASE_X) == BASE_X_VALUE && Fe(BASE_Y) == Int(BASE_Y) == BASE_Y_VALUE
  {
    WordsOf(BASE_X, 0xc9562d608f25d51a, 0x692cc7609525a7b2, 0xc0a4e231fdd6dc5c, 0x216936d3cd6e53fe);
    WordsOf(BASE_Y, 0x6666666666666658, 0x6666666666666666, 0x6666666666666666, 0x6666666666666666);
    FloorUnique(BASE_X_VALUE, P, 0, BASE_X_VALUE);
    FloorUnique(BASE_Y_VALUE, P, 0, BASE_Y_VALUE);
  }

  // ---- the addition of the program ----

  /** The constant of the addition is twice the curve constant. */
  lemma DoubledConstant()
    ensures Cong(Int(D2_LIMBS), 2 * Fe(D_LIMBS), P)
  {
    CurveConstant();
    CongShift(Int(D2_LIMBS), 2 * D, -1, P);
  }

  /** The sum of the program, with its parts named. */
  lemma SumParts(p: Ext, q: Ext, k: int, zz: int, tt: int, f: int, g: int)
    requires k == Int(D2_LIMBS) && zz == p.z * q.z && tt == p.t * q.t
    requires f == zz + zz - tt * k && g == zz + zz + tt * k
    ensures Sum(p, q) == Combine(SumProduct(p, q) - DiffProduct(p, q), f, g, SumProduct(p, q) + DiffProduct(p, q), P)
  {}

  /** add computes the addition of the curve: in coordinates over z, the x of the sum is
      (x1 y2 + x2 y1) / (z1 z2 + d t1 t2) and its y is (y1 y2 + x1 x2) / (z1 z2 - d t1 t2), and z is four
      times the product of the denominators. */
  lemma SumFollowsLaw(p: Ext, q: Ext, r: Ext, d: int)
    requires r == Sum(p, q) && d == Fe(D_LIMBS)
    ensures Cong(r.x * (p.z * q.z + d * (p.t * q.t)), r.z * (p.x * q.y + q.x * p.y), P)
    ensures Cong(r.y * (p.z * q.z - d * (p.t * q.t)), r.z * (p.y * q.y + p.x * q.x), P)
    ensures Cong(r.z, 4 * ((p.z * q.z + d * (p.t * q.t)) * (p.z * q.z - d * (p.t * q.t))), P)
  {
    var k, zz, tt := Int(D2_LIMBS), p.z * q.z, p.t * q.t;
    DoubledConstant();
    SumParts(p, q, k, zz, tt, zz + zz - tt * k, zz + zz + tt * k);
    SumLaw(p, q, r, d, k, zz, tt, zz + zz - tt * k, zz + zz + tt * k, P);
  }

  /** A point of the curve in extended coordinates. */
  ghost predicate CurvePoint(p: Ext) {
    Extended(p) && OnEdwards(p, Fe(D_LIMBS), P)
  }

  lemma SumOnCurve(p: Ext, q: Ext)
    requires CurvePoint(p) && CurvePoint(q)
    ensures CurvePoint(Sum(p, q))
  {
    var k, zz, tt := Int(D2_LIMBS), p.z * q.z, p.t * q.t;
    var e, f, g, h := SumProduct(p, q) - DiffProduct(p, q), zz + zz - tt * k, zz + zz + tt * k,
                      SumProduct(p, q) + DiffProduct(p, q);
    DoubledConstant();
    SumParts(p, q, k, zz, tt, f, g);
    CombinedIsExtended(e, f, g, h, P);
    SumOnEdwards(p, q, Combine(e, f, g, h, P), Fe(D_LIMBS), k, zz, tt, f, g, P);
  }

  lemma NeutralOnCurve()
    ensures CurvePoint(NEUTRAL)
  {}

  /** x y of the base point, modulo P. */
  const BASE_T_VALUE := 0x67875f0fd78b766566ea4e8e64abe37d20f09f80775152f56dde8ab3a5b7dda3

  /** The base point is the point of the curve with an even x and y = 4/5. */
  lemma BaseOnCurve()
    ensures CurvePoint(BasePoint())
    ensures BasePoint().x % 2 == 0 && 5 * BasePoint().y == 4 + 4 * P
  {
    CurveConstant();
    BaseValues();
    BaseIsExtended();
    assert (BASE_X_VALUE * BASE_Y_VALUE) % P == BASE_T_VALUE;
    assert Cong(BASE_Y_VALUE * BASE_Y_VALUE - BASE_X_VALUE * BASE_X_VALUE, 1 + D * (BASE_T_VALUE * BASE_T_VALUE), P);
  }

  /** Every point that the ladder computes from a point of the curve is on the curve. */
  lemma {:induction false} LadderOnCurve(p: Ext, q: Ext, s: seq<int>, i: nat)
    requires i <= 8 * |s| && CurvePoint(p) && CurvePoint(q)
    ensures CurvePoint(Ladder.Run(Sum, p, q, s, i).0) && CurvePoint(Ladder.Run(Sum, p, q, s, i).1)
    decreases i
  {
    if i > 0 {
      SumOnCurve(p, p);
      SumOnCurve(q, q);
      SumOnCurve(p, q);
      SumOnCurve(q, p);
      var next := Ladder.Step(Sum, p, q, Ladder.Bit(s, i - 1));
      LadderOnCurve(next.0, next.1, s, i - 1);
    }
  }

  /** The multiples of the base point are on the curve, and so is the negated key that is decoded. */
  lemma DecodedCurvePoint(n: seq<int>)
    requires |n| == 32 && UnpackNegated(n).Some?
    ensures CurvePoint(UnpackNegated(n).value)
  {
    var p, d := UnpackNegated(n).value, Fe(D_LIMBS);
    DecodedIsExtended(n);
    DecodedOnCurve(n);
    CongMod(p.x * p.y, P);
    AffineEquation(p.x, p.y, p.t, d, P);
  }

  /** The affine equation in extended coordinates with z = 1. */
  lemma AffineEquation(x: int, y: int, t: int, d: int, m: int)
    requires m > 0 && OnCurve(x, y, d, m) && Cong(t, x * y, m)
    ensures OnEdwards(Ext(x, y, 1, t), d, m)
  {
    CongMul(t, x * y, t, x * y, m);
    Regroup(x, y, x, y);
    CongMul(d, d, t * t, (x * x) * (y * y), m);
    CongAdd(1, 1, d * (t * t), d * ((x * x) * (y * y)), m);
  }
}
