// What unpackneg decodes: which byte strings it accepts, and which of the two points with the
// encoded y it gives. That the field modulus is a prime enters as Fermat's little theorem.

module Decompression {
  import opened Wrappers
  import opened Radix
  import opened Field25519
  import opened Exponent
  import opened Edwards
  import opened PointCodec
  import opened EdwardsLaw

  // ---- the sign ----

  /** Of x and m - x, for an odd m, one is odd. */
  lemma OtherParity(x: int, m: int)
    requires m % 2 == 1
    ensures (m - x) % 2 == 1 - x % 2
  {
    FloorUnique(m - x, 2, m / 2 - x / 2, 1 - x % 2);
  }

  lemma NegatedParity(x: int, b: int, m: int)
    requires 0 <= x < m && m % 2 == 1 && (b == 0 || b == 1)
    ensures var x' := if x % 2 == b then (-x) % m else x; 0 <= x' < m && (x' == 0 || x' % 2 != b)
  {
    OtherParity(x, m);
    if x == 0 {
      FloorUnique(-x, m, 0, 0);
    } else {
      FloorUnique(-x, m, -1, m - x);
    }
  }

  /** The decoded point has the encoded y, and the parity that is not in the top bit. */
  lemma DecodedSign(n: seq<int>)
    requires |n| == 32 && Digits(n, 256) && UnpackNegated(n).Some?
    ensures var p := UnpackNegated(n).value;
            && p.y == (Value(n, 256) % (P + 19)) % P && 0 <= p.x < P
            && (p.x == 0 || p.x % 2 != n[31] / 128)
  {
    var y := (Value(n, 256) % (P + 19)) % P;
    NegatedParity(ChosenRoot(Numerator(y), Denominator(y)), n[31] / 128, P);
  }

  // ---- packing what was decoded ----

  lemma {:induction false} PowersOfOne(n: nat)
    ensures Pow(1, n) == 1
  {
    if n > 0 {
      PowersOfOne(n - 1);
    }
  }

  lemma AffineIsItself(x: int, y: int, t: int)
    requires 0 <= x < P && 0 <= y < P
    ensures AffineX(Ext(x, y, 1, t)) == x && AffineY(Ext(x, y, 1, t)) == y
  {
    PowersOfOne(INVERSE_EXPONENT);
    FloorUnique(x, P, 0, x);
    FloorUnique(y, P, 0, y);
  }

  /** The number of 32 bytes by its low 255 bits and its top bit. */
  lemma TopBitSplit(n: seq<int>, low: int, bit: int)
    requires |n| == 32 && Digits(n, 256) && low == Value(n, 256) % (P + 19) && bit == n[31] / 128
    ensures Value(n, 256) == low + bit * (P + 19) && 0 <= low < P + 19 && (bit == 0 || bit == 1)
  {
    TopByte();
    ValueOfDigits(n[..31], 256);
    SplitAt(Value(n, 256), Value(n[..31], 256), n[31], Pow(256, 31), bit);
  }

  lemma TopTimes(top: int, bit: int, r: int, w: int)
    requires top == r + 128 * bit
    ensures top * w == bit * (128 * w) + r * w
  {}

  lemma SplitAt(v: int, under: int, top: int, w: int, bit: int)
    requires w > 0 && 0 <= under < w && 0 <= top < 256 && v == under + top * w && bit == top / 128
    ensures v % (128 * w) == v - bit * (128 * w) && 0 <= v - bit * (128 * w) < 128 * w
  {
    var r := top - 128 * bit;
    TopTimes(top, bit, r, w);
    DigitTimes(r, w, 128);
    FloorUnique(v, 128 * w, bit, under + r * w);
  }

  /** The parity that is packed for the negative of the decoded x. */
  lemma RestoredParity(x: int, bit: int, m: int)
    requires 0 <= x < m && m % 2 == 1 && (bit == 0 || bit == 1) && (x == 0 || x % 2 != bit)
    ensures var x' := (-x) % m; 0 <= x' < m && (x' % 2 == bit <==> x != 0 || bit == 0)
  {
    OtherParity(x, m);
    if x == 0 {
      FloorUnique(-x, m, 0, 0);
    } else {
      FloorUnique(-x, m, -1, m - x);
    }
  }

  /** Packing the negative of what is decoded gives the bytes back exactly when their low 255 bits are
      below the prime and they do not put a sign on x = 0. */
  lemma RepackedIff(n: seq<int>, p: Ext, t: int)
    requires |n| == 32 && Digits(n, 256) && UnpackNegated(n) == Some(p)
    ensures PackBytes(Ext((-p.x) % P, p.y, 1, t)) == n
       <==> Value(n, 256) % (P + 19) < P && (p.x != 0 || n[31] < 128)
  {
    var x', low, bit, r := (-p.x) % P, Value(n, 256) % (P + 19), n[31] / 128, PackBytes(Ext((-p.x) % P, p.y, 1, t));
    DecodedSign(n);
    RestoredParity(p.x, bit, P);
    AffineIsItself(x', p.y, t);
    PackBytesPacks(Ext(x', p.y, 1, t));
    TopBitSplit(n, low, bit);
    if low < P {
      FloorUnique(low, P, 0, low);
    }
    if r == n {
      TopDigitUnique(p.y, x' % 2, low, bit, P + 19);
    } else if p.y == low && x' % 2 == bit {
      DigitsUnique(r, n, 256);
    }
  }

  // ---- which byte strings are accepted ----

  /** Fermat's little theorem for one element. */
  ghost predicate Fermat(a: int, m: int)
    requires m > 1
  {
    Cong(a, 0, m) || Cong(Pow(a, m - 1), 1, m)
  }

  /** A product is zero only when a factor is. */
  lemma ZeroProduct(a: int, b: int, m: int)
    requires m > 1 && Fermat(a, m) && Cong(a * b, 0, m)
    ensures Cong(a, 0, m) || Cong(b, 0, m)
  {
    if !Cong(a, 0, m) {
      var u := Pow(a, m - 2);
      CongMul(u, u, a * b, 0, m);
      assert Pow(a, m - 1) == a * u;
      assert u * (a * b) == (a * u) * b;
      CongMul(a * u, 1, b, b, m);
    }
  }

  /** A square root of one is one or minus one. */
  lemma RootsOfOne(s: int, m: int)
    requires m > 1 && Cong(s * s, 1, m) && Fermat(s - 1, m)
    ensures Cong(s, 1, m) || Cong(s, -1, m)
  {
    assert (s - 1) * (s + 1) == s * s - 1;
    CongAdd(s * s, 1, 1, 1, m);
    ZeroProduct(s - 1, s + 1, m);
    if Cong(s - 1, 0, m) {
      CongAdd(s - 1, 0, 1, 1, m);
    } else {
      CongAdd(s + 1, 0, 1, 1, m);
    }
  }

  lemma ReducedProduct(u: int, v: int, u': int, v': int, m: int)
    requires m > 0 && Cong(u, u', m) && Cong(v, v', m)
    ensures Cong((u * v) % m, u' * v', m)
  {
    CongMod(u * v, m);
    CongMul(u, u', v, v', m);
  }

  /** The multiplications up to num * den^7. */
  lemma SeventhPowerIs(num: int, den: int, d2: int, d4: int, d6: int, t: int, w: int, cube: int, m: int)
    requires m > 0 && d2 == (den * den) % m && d4 == (d2 * d2) % m && d6 == (d4 * d2) % m
    requires t == (d6 * num) % m && w == (t * den) % m && cube == den * den * den
    ensures Cong(w, num * (cube * cube * den), m)
  {
    var a := den * den;
    ReducedProduct(den, den, den, den, m);
    ReducedProduct(d2, d2, a, a, m);
    ReducedProduct(d4, d2, a * a, a, m);
    ReducedProduct(d6, num, a * a * a, num, m);
    ReducedProduct(t, den, a * a * a * num, den, m);
    assert a * a * a * num * den == num * (cube * cube * den) by {
      SixFactors(den);
      assert a * a * a == cube * cube;
      Reorder(cube * cube, num, den);
    }
  }

  lemma SixFactors(den: int)
    ensures var a, cube := den * den, den * den * den; a * a * a == cube * cube
  {}

  lemma Reorder(a: int, num: int, den: int)
    ensures a * num * den == num * (a * den)
  {}

  /** The multiplications from the power to the candidate. */
  lemma CandidateIs(num: int, den: int, root: int, power: int, x1: int, x2: int, x3: int, x: int, cube: int, m: int)
    requires m > 0 && Cong(root, power, m) && x1 == (root * num) % m && x2 == (x1 * den) % m && x3 == (x2 * den) % m
    requires x == (x3 * den) % m && cube == den * den * den
    ensures Cong(x, power * (num * cube), m)
  {
    ReducedProduct(root, num, power, num, m);
    ReducedProduct(x1, den, power * num, den, m);
    ReducedProduct(x2, den, power * num * den, den, m);
    ReducedProduct(x3, den, power * num * den * den, den, m);
    assert power * num * den * den * den == power * (num * (den * den * den));
  }

  /** The square of the candidate times den is num times an even power and one of w. */
  lemma CandidateSquare(num: int, den: int, x: int, w: int, power: int, cube: int, m: int)
    requires m > 0 && Cong(x, power * (num * cube), m) && Cong(w, num * (cube * cube * den), m)
    ensures Cong(x * x * den, num * (power * power * w), m)
  {
    var y, v := power * (num * cube), num * (cube * cube * den);
    CongMul(x, y, x, y, m);
    CongMul(x * x, y * y, den, den, m);
    SquareTimes(power, num, cube, den);
    CongMul(num * (power * power), num * (power * power), w, v, m);
    assert num * (power * power) * w == num * (power * power * w);
  }

  lemma SquareTimes(power: int, num: int, cube: int, den: int)
    ensures power * (num * cube) * (power * (num * cube)) * den
         == num * (power * power) * (num * (cube * cube * den))
  {}

  /** The coordinates that pack encodes are x / z and y / z. */
  lemma AffineTimesZ(p: Ext)
    requires Fermat(p.z, P) && !Cong(p.z, 0, P)
    ensures Cong(AffineX(p) * p.z, p.x, P) && Cong(AffineY(p) * p.z, p.y, P)
  {
    var v := Pow(p.z, INVERSE_EXPONENT);
    InverseTimesItself(p.z, v, INVERSE_EXPONENT, P);
    DividedTimes(p.x, v, p.z, AffineX(p), P);
    DividedTimes(p.y, v, p.z, AffineY(p), P);
  }

  lemma DividedTimes(x: int, v: int, z: int, a: int, m: int)
    requires m > 0 && Cong(v * z, 1, m) && a == (x * v) % m
    ensures Cong(a * z, x, m)
  {
    CongMod(x * v, m);
    CongMul(a, x * v, z, z, m);
    CongMul(x, x, v * z, 1, m);
    assert x * v * z == x * (v * z);
  }

  /** What makes the modulus a prime, for the proofs below. */
  ghost predicate Prime(m: int) {
    m > 1 && forall a :: Fermat(a, m)
  }

  lemma {:induction false} PowOfSquare(a: int, n: nat)
    ensures Pow(a * a, n) == Pow(a, 2 * n)
  {
    if n > 0 {
      PowOfSquare(a, n - 1);
      var u := Pow(a, 2 * (n - 1));
      assert Pow(a, 2 * n) == a * Pow(a, 2 * n - 1) && Pow(a, 2 * n - 1) == a * u;
      assert a * (a * u) == (a * a) * u;
    }
  }

  /** Where w is the square of a, the power (m - 1) / 4 of w is one or minus one. */
  lemma QuarterPower(a: int, w: int, power: int, e: nat, m: int)
    requires m == 8 * e + 5 && Prime(m) && Cong(w, a * a, m) && Cong(power, Pow(w, e), m)
    ensures Cong(a, 0, m) || Cong(power * power * w, 1, m) || Cong(power * power * w, -1, m)
  {
    var s := Pow(a, 4 * e + 2);
    HalfPower(a, w, power, e, m);
    if !Cong(a, 0, m) {
      assert Fermat(a, m) && Fermat(s - 1, m);
      PowAdd(a, 4 * e + 2, 4 * e + 2);
      RootsOfOne(s, m);
    }
  }

  lemma HalfPower(a: int, w: int, power: int, e: nat, m: int)
    requires m > 0 && Cong(w, a * a, m) && Cong(power, Pow(w, e), m)
    ensures Cong(power * power * w, Pow(a, 4 * e + 2), m)
  {
    var u := Pow(w, e);
    CongMul(power, u, power, u, m);
    CongMul(power * power, u * u, w, w, m);
    PowAdd(w, e, e);
    assert Pow(w, 2 * e + 1) == w * Pow(w, 2 * e);
    CongPow(w, a * a, 2 * e + 1, m);
    PowOfSquare(a, 2 * e + 1);
  }

  /** If num is a square times den, the candidate or its multiple by the root of -1 is a root. */
  lemma RootFound(num: int, den: int, r: int, x: int, w: int, power: int, cube: int, i: int, e: nat, m: int)
    requires m == 8 * e + 5 && Prime(m) && Cong(num, r * r * den, m) && Cong(i * i, -1, m)
    requires cube == den * den * den && Cong(w, num * (cube * cube * den), m) && Cong(power, Pow(w, e), m)
    requires Cong(x * x * den, num * (power * power * w), m)
    ensures Cong(x * x * den, num, m) || Cong((x * i) * (x * i) * den, num, m)
  {
    var a, v := r * (cube * den), power * power * w;
    SquareOfRoot(num, den, r, w, cube, m);
    QuarterPower(a, w, power, e, m);
    if Cong(a, 0, m) {
      NothingToRoot(num, den, r, cube, m);
      CongMul(num, 0, v, v, m);
    } else if Cong(v, 1, m) {
      CongMul(num, num, v, 1, m);
    } else {
      CongMul(num, num, v, -1, m);
      TimesMinusOne(x, den, num, i, m);
    }
  }

  lemma SquareOfRoot(num: int, den: int, r: int, w: int, cube: int, m: int)
    requires m > 0 && Cong(num, r * r * den, m) && Cong(w, num * (cube * cube * den), m)
    ensures Cong(w, (r * (cube * den)) * (r * (cube * den)), m)
  {
    var v := cube * cube * den;
    CongMul(num, r * r * den, v, v, m);
    Regroup(r, cube * den, r, cube * den);
    Regroup(cube, den, cube, den);
    assert r * r * den * (cube * cube * den) == (r * r) * ((cube * cube) * (den * den));
  }

  lemma NothingToRoot(num: int, den: int, r: int, cube: int, m: int)
    requires Prime(m) && Cong(num, r * r * den, m) && cube == den * den * den && Cong(r * (cube * den), 0, m)
    ensures Cong(num, 0, m)
  {
    assert Fermat(r, m) && Fermat(den, m) && Fermat(den * den, m);
    ZeroProduct(r, cube * den, m);
    if !Cong(r, 0, m) {
      assert cube * den == (den * den) * (den * den);
      ZeroProduct(den * den, den * den, m);
      ZeroProduct(den, den, m);
    }
    if Cong(r, 0, m) {
      CongMul(r, 0, r * den, r * den, m);
      assert r * (r * den) == r * r * den;
    } else {
      CongMul(r * r, r * r, den, 0, m);
    }
  }

  lemma TimesMinusOne(x: int, den: int, num: int, i: int, m: int)
    requires m > 0 && Cong(x * x * den, -num, m) && Cong(i * i, -1, m)
    ensures Cong((x * i) * (x * i) * den, num, m)
  {
    CongMul(x * x * den, -num, i * i, -1, m);
    Regroup(x, i, x, i);
    Reorder(x * x, den, i * i);
    assert (x * x) * (i * i) * den == x * x * den * (i * i);
  }

  /** The candidate of the program. */
  lemma CandidateFound(num: int, den: int, x: int, cube: int) returns (w: int, power: int)
    requires x == Candidate(num, den) && cube == den * den * den
    ensures Cong(w, num * (cube * cube * den), P) && Cong(power, Pow(w, ROOT_EXPONENT), P)
    ensures Cong(x * x * den, num * (power * power * w), P)
  {
    var d2 := FMul(den, den);
    var d4 := FMul(d2, d2);
    var d6 := FMul(d4, d2);
    var t := FMul(d6, num);
    w := FMul(t, den);
    power := Pow(w, ROOT_EXPONENT) % P;
    CongMod(Pow(w, ROOT_EXPONENT), P);
    SeventhPowerIs(num, den, d2, d4, d6, t, w, cube, P);
    var x1 := FMul(power, num);
    var x2 := FMul(x1, den);
    var x3 := FMul(x2, den);
    CandidateIs(num, den, power, power, x1, x2, x3, x, cube, P);
    CandidateSquare(num, den, x, w, power, cube, P);
  }

  lemma RootIff(x: int, xx: int, y: int, num: int, den: int, m: int)
    requires m > 0 && xx == (x * x) % m && y == (xx * den) % m && 0 <= num < m
    ensures y == num <==> Cong(x * x * den, num, m)
  {
    CongMod(x * x, m);
    CongMul(xx, x * x, den, den, m);
    FloorUnique(num, m, 0, num);
  }

  lemma ReducedRoot(x: int, i: int, x': int, den: int, num: int, m: int)
    requires m > 0 && x' == (x * i) % m
    ensures Cong(x' * x' * den, num, m) <==> Cong((x * i) * (x * i) * den, num, m)
  {
    CongMod(x * i, m);
    CongMul(x', x * i, x', x * i, m);
    CongMul(x' * x', (x * i) * (x * i), den, den, m);
  }

  /** The program finds a root whenever there is one. */
  lemma RootChosen(num: int, den: int, r: int)
    requires Prime(P) && 0 <= num < P && Cong(num, r * r * den, P)
    ensures IsRoot(ChosenRoot(num, den), num, den)
  {
    var x, i := Candidate(num, den), Fe(I_LIMBS);
    var x' := FMul(x, i);
    var cube := den * den * den;
    var w, power := CandidateFound(num, den, x, cube);
    RootOfMinusOne();
    RootFound(num, den, r, x, w, power, cube, i, ROOT_EXPONENT, P);
    RootIff(x, FMul(x, x), FMul(FMul(x, x), den), num, den, P);
    RootIff(x', FMul(x', x'), FMul(FMul(x', x'), den), num, den, P);
    ReducedRoot(x, i, x', den, num, P);
  }

  lemma RootOfMinusOne()
    ensures Cong(Fe(I_LIMBS) * Fe(I_LIMBS), -1, P)
  {
    var i := Int(I_LIMBS);
    SquareRootOfMinusOne();
    CongShift(i * i, -1, 0xecaa2e2f6a2302ccedb31ac05720688238ced2078f3eb0ec9f22e8f621972e5, P);
    CongMod(i, P);
    CongMul(Fe(I_LIMBS), i, Fe(I_LIMBS), i, P);
  }

  /** The curve equation as a square times the denominator. */
  lemma CurveHasRoot(x: int, y: int, d: int, yy: int, dyy: int, num: int, den: int, m: int)
    requires m > 0 && Cong(yy, y * y, m) && Cong(dyy, yy * d, m) && Cong(num, yy - 1, m) && Cong(den, 1 + dyy, m)
    requires OnCurve(x, y, d, m)
    ensures Cong(num, x * x * den, m)
  {
    var u, v := x * x, y * y;
    DenominatorOf(v, d, yy, dyy, den, m);
    CongMul(u, u, den, 1 + v * d, m);
    CurveProduct(u, v, d);
    CongAdd(yy, v, 1, 1, m);
    CongAdd(v - u, 1 + d * (u * v), u - 1, u - 1, m);
  }

  /** Bytes are decoded when there is a point of the curve with the y that they encode. */
  lemma PointDecoded(n: seq<int>, x: int, y: int)
    requires Prime(P) && |n| == 32 && y == (Value(n, 256) % (P + 19)) % P && OnCurve(x, y, Fe(D_LIMBS), P)
    ensures UnpackNegated(n).Some?
  {
    var d, yy := Fe(D_LIMBS), FMul(y, y);
    CongMod(y * y, P);
    CongMod(yy * d, P);
    CongMod(yy - 1, P);
    CongMod(1 + FMul(yy, d), P);
    CurveHasRoot(x, y, d, yy, FMul(yy, d), Numerator(y), Denominator(y), P);
    RootChosen(Numerator(y), Denominator(y), x);
  }

  /** Under Fermat's little theorem, bytes are decoded exactly when there is a point of the curve with
      the y that they encode. */
  lemma DecodedIff(n: seq<int>, y: int)
    requires Prime(P) && |n| == 32 && y == (Value(n, 256) % (P + 19)) % P
    ensures UnpackNegated(n).Some? <==> exists x :: OnCurve(x, y, Fe(D_LIMBS), P)
  {
    if x :| OnCurve(x, y, Fe(D_LIMBS), P) {
      PointDecoded(n, x, y);
    }
    if UnpackNegated(n).Some? {
      DecodedOnCurve(n);
      assert OnCurve(UnpackNegated(n).value.x, y, Fe(D_LIMBS), P);
    }
  }
}
