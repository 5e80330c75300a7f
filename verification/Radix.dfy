// Radix-b values of limb sequences and the modular arithmetic they are reasoned in.
// A limb is an unbounded integer here: the C code keeps limbs that are not digits
// (signed, or wider than the radix) and only at the end turns them into digits.

module Radix {

  function Pow(b: int, n: nat): int {
    if n == 0 then 1 else b * Pow(b, n - 1)
  }

  /** Little-endian value of the limbs `s` in radix `b`. */
  function Value(s: seq<int>, b: int): int {
    if s == [] then 0 else Value(s[..|s| - 1], b) + s[|s| - 1] * Pow(b, |s| - 1)
  }

  /** Every limb is a digit of radix `b`. */
  ghost predicate Digits(s: seq<int>, b: int) {
    forall k :: 0 <= k < |s| ==> 0 <= s[k] < b
  }

  /** `a` and `b` are congruent modulo `m`. */
  ghost predicate Cong(a: int, b: int, m: int)
    requires m > 0
  {
    a % m == b % m
  }

  // ---- powers ----

  lemma {:induction false} PowAdd(b: int, i: nat, j: nat)
    ensures Pow(b, i + j) == Pow(b, i) * Pow(b, j)
  {
    if i > 0 {
      PowAdd(b, i - 1, j);
      assert i + j - 1 == i - 1 + j;
      var x, y := Pow(b, i - 1), Pow(b, j);
      assert b * (x * y) == (b * x) * y;
    }
  }

  lemma {:induction false} PowPositive(b: int, n: nat)
    requires b > 0
    ensures Pow(b, n) > 0
  {
    if n > 0 {
      PowPositive(b, n - 1);
      var x := Pow(b, n - 1);
      assert b * x > 0;
    }
  }

  // ---- values ----

  // The weight of a position is passed along as `w`, so that callers and lemmas
  // speak of the same product.

  lemma ValueSnoc(s: seq<int>, d: int, b: int, w: int)
    requires w == Pow(b, |s|)
    ensures Value(s + [d], b) == Value(s, b) + d * w
  {
    assert (s + [d])[..|s|] == s;
  }

  lemma ValuePrefix(s: seq<int>, i: nat, b: int, w: int)
    requires i < |s| && w == Pow(b, i)
    ensures Value(s[..i + 1], b) == Value(s[..i], b) + s[i] * w
  {
    assert s[..i + 1] == s[..i] + [s[i]];
    ValueSnoc(s[..i], s[i], b, w);
  }

  /** Adding `d` to limb `i` adds `d` times the weight of that limb. */
  lemma {:induction false} ValueAdd(s: seq<int>, i: nat, d: int, b: int, w: int)
    requires i < |s| && w == Pow(b, i)
    ensures Value(s[i := s[i] + d], b) == Value(s, b) + d * w
    decreases |s|
  {
    var n := |s| - 1;
    var t := s[i := s[i] + d];
    if i == n {
      assert t[..n] == s[..n];
      assert (s[n] + d) * w == s[n] * w + d * w;
    } else {
      ValueAdd(s[..n], i, d, b, w);
      assert t[..n] == s[..n][i := s[i] + d];
    }
  }

  /** Adding to the top limb and putting another above it. */
  lemma ValueTopTwo(s: seq<int>, x: int, y: int, b: int, v: int, w: int)
    requires |s| > 0 && v == Pow(b, |s| - 1) && w == Pow(b, |s|)
    ensures Value(s[|s| - 1 := s[|s| - 1] + x] + [y], b) == Value(s, b) + x * v + y * w
  {
    var t := s[|s| - 1 := s[|s| - 1] + x];
    ValueAdd(s, |s| - 1, x, b, v);
    ValueSnoc(t, y, b, w);
  }

  /** One step of a carry loop: limb `i`, the carry in and an addend become a new limb
      and the carry out, which weighs `b` times as much. */
  lemma ValueCarry(s: seq<int>, i: nat, carry: int, add: int, low: int, out: int, b: int, w: int)
    requires i < |s| && w == Pow(b, i) && s[i] + carry + add == low + b * out
    ensures Value(s[i := low], b) + out * (b * w) == Value(s, b) + carry * w + add * w
  {
    var d := low - s[i];
    assert s[i := s[i] + d] == s[i := low];
    ValueAdd(s, i, d, b, w);
    CarryArithmetic(d, carry, add, out, b, w);
  }

  lemma CarryArithmetic(d: int, carry: int, add: int, out: int, b: int, w: int)
    requires d == carry + add - b * out
    ensures d * w + out * (b * w) == carry * w + add * w
  {
    assert out * (b * w) == (b * out) * w;
  }

  lemma ValueOfOne(d: int, b: int)
    ensures Value([d], b) == d
  {
    ValueSnoc([], d, b, 1);
    assert [] + [d] == [d];
  }

  lemma {:induction false} ValueConcat(s: seq<int>, t: seq<int>, b: int, w: int)
    requires w == Pow(b, |s|)
    ensures Value(s + t, b) == Value(s, b) + w * Value(t, b)
    decreases |t|
  {
    if t == [] {
      assert s + t == s;
    } else {
      var n := |t| - 1;
      var u, v := t[..n], Pow(b, n);
      assert s + t == (s + u) + [t[n]];
      PowAdd(b, |s|, n);
      ValueSnoc(s + u, t[n], b, w * v);
      ValueConcat(s, u, b, w);
      Factor(w, v, Value(u, b), t[n]);
    }
  }

  lemma Factor(x: int, y: int, z: int, d: int)
    ensures x * z + d * (x * y) == x * (z + d * y)
  {
    assert d * (x * y) == x * (d * y);
  }

  lemma ValueSplit(s: seq<int>, i: nat, b: int, w: int)
    requires i <= |s| && w == Pow(b, i)
    ensures Value(s, b) == Value(s[..i], b) + w * Value(s[i..], b)
  {
    assert s == s[..i] + s[i..];
    ValueConcat(s[..i], s[i..], b, w);
  }

  lemma {:induction false} ValueZeros(s: seq<int>, b: int)
    requires forall k :: 0 <= k < |s| ==> s[k] == 0
    ensures Value(s, b) == 0
    decreases |s|
  {
    if s != [] {
      ValueZeros(s[..|s| - 1], b);
    }
  }

  /** Digits stay below the power of the radix. */
  lemma {:induction false} ValueOfDigits(s: seq<int>, b: int)
    requires b > 0 && Digits(s, b)
    ensures 0 <= Value(s, b) < Pow(b, |s|)
    decreases |s|
  {
    if s != [] {
      var n := |s| - 1;
      ValueOfDigits(s[..n], b);
      PowPositive(b, n);
      DigitTimes(s[n], Pow(b, n), b);
    }
  }

  lemma DigitTimes(d: int, w: int, b: int)
    requires 0 <= d < b && w > 0
    ensures 0 <= d * w <= b * w - w
  {
    assert (b - 1 - d) * w >= 0;
    assert (b - 1 - d) * w == b * w - w - d * w;
  }

  /** Limbs between 0 and `m` do not make a negative value. */
  lemma {:induction false} ValueNonNegative(s: seq<int>, b: int)
    requires b > 0 && forall k :: 0 <= k < |s| ==> s[k] >= 0
    ensures Value(s, b) >= 0
    decreases |s|
  {
    if s != [] {
      var n := |s| - 1;
      ValueNonNegative(s[..n], b);
      PowPositive(b, n);
      var w := Pow(b, n);
      assert s[n] * w >= 0;
    }
  }

  /** Limbs of magnitude at most `m` give a value below `m` times the all-ones number. */
  lemma {:induction false} ValueMagnitude(s: seq<int>, b: int, m: int)
    requires b > 0 && forall k :: 0 <= k < |s| ==> -m <= s[k] <= m
    ensures -m * (Pow(b, |s|) - 1) <= Value(s, b) * (b - 1) <= m * (Pow(b, |s|) - 1)
    decreases |s|
  {
    if s != [] {
      var n := |s| - 1;
      ValueMagnitude(s[..n], b, m);
      PowPositive(b, n);
      MagnitudeStep(Value(s[..n], b), s[n], Pow(b, n), b, m);
    }
  }

  lemma MagnitudeStep(v: int, d: int, w: int, b: int, m: int)
    requires b > 0 && w > 0 && -m <= d <= m
    requires -m * (w - 1) <= v * (b - 1) <= m * (w - 1)
    ensures -m * (b * w - 1) <= (v + d * w) * (b - 1) <= m * (b * w - 1)
  {
    var e := w * (b - 1);
    assert -m * e <= d * e <= m * e;
    assert (v + d * w) * (b - 1) == v * (b - 1) + d * e;
    assert m * (b * w - 1) == m * (w - 1) + m * e;
  }

  /** A digit sequence of given length is determined by its value. */
  lemma {:induction false} DigitsUnique(s: seq<int>, t: seq<int>, b: int)
    requires b > 0 && Digits(s, b) && Digits(t, b) && |s| == |t|
    requires Value(s, b) == Value(t, b)
    ensures s == t
    decreases |s|
  {
    if s != [] {
      var n := |s| - 1;
      ValueOfDigits(s[..n], b);
      ValueOfDigits(t[..n], b);
      TopDigitUnique(Value(s[..n], b), s[n], Value(t[..n], b), t[n], Pow(b, n));
      DigitsUnique(s[..n], t[..n], b);
      assert s == s[..n] + [s[n]] && t == t[..n] + [t[n]];
    }
  }

  lemma TopDigitUnique(v: int, d: int, u: int, e: int, w: int)
    requires 0 <= v < w && 0 <= u < w && v + d * w == u + e * w
    ensures d == e && v == u
  {
    assert (e - d) * w == e * w - d * w;
    if d != e {
      MultipleIsFar(e - d, w);
    }
  }

  lemma MultipleIsFar(k: int, w: int)
    requires w > 0 && k != 0
    ensures k * w >= w || k * w <= -w
  {
    if k > 0 {
      assert (k - 1) * w >= 0;
    } else {
      assert (-k - 1) * w >= 0;
    }
  }

  /** Value is linear: adding `c` times one limb sequence to another. */
  lemma {:induction false} ValueLinear(s: seq<int>, t: seq<int>, u: seq<int>, c: int, b: int)
    requires |s| == |t| == |u| && forall k :: 0 <= k < |s| ==> u[k] == s[k] + c * t[k]
    ensures Value(u, b) == Value(s, b) + c * Value(t, b)
    decreases |s|
  {
    if s != [] {
      var n := |s| - 1;
      ValueLinear(s[..n], t[..n], u[..n], c, b);
      LinearStep(s[n], t[n], u[n], c, Value(t[..n], b), Pow(b, n));
    }
  }

  lemma LinearStep(d: int, e: int, f: int, c: int, x: int, w: int)
    requires f == d + c * e
    ensures f * w + c * x == d * w + c * (x + e * w)
  {
    assert (c * e) * w == c * (e * w);
  }

  /** The `n` bytes of a number, low byte first. */
  function LittleEndian(v: int, n: nat): (s: seq<int>)
    ensures |s| == n
  {
    if n == 0 then [] else LittleEndian(v, n - 1) + [(v / Pow256(n - 1)) % 256]
  }

  function Pow256(n: nat): (w: int)
    ensures w == Pow(256, n) && w > 0
  {
    PowPositive(256, n);
    Pow(256, n)
  }

  lemma {:induction false} LittleEndianDigits(v: int, n: nat)
    ensures |LittleEndian(v, n)| == n && Digits(LittleEndian(v, n), 256)
    ensures Value(LittleEndian(v, n), 256) == v % Pow256(n)
  {
    if n > 0 {
      var w, s := Pow256(n - 1), LittleEndian(v, n - 1);
      LittleEndianDigits(v, n - 1);
      var d := NextDigit(v, w);
      DigitsSnoc(s, d, 256);
      ValueSnoc(s, d, 256, w);
    } else {
      assert v % 1 == 0;
    }
  }

  lemma DigitsSnoc(s: seq<int>, d: int, b: int)
    requires Digits(s, b) && 0 <= d < b
    ensures Digits(s + [d], b)
  {}

  lemma NextDigit(v: int, w: int) returns (d: int)
    requires w > 0
    ensures d == (v / w) % 256 && 0 <= d < 256 && v % (256 * w) == v % w + d * w
  {
    var q, r := v / w, v % w;
    var h := q / 256;
    d := q % 256;
    assert v == q * w + r;
    assert q * w == (256 * h) * w + d * w;
    assert (256 * h) * w == h * (256 * w);
    DigitTimes(d, w, 256);
    FloorUnique(v, 256 * w, h, d * w + r);
  }

  /** A number that fits is the value of its bytes. */
  lemma LittleEndianValue(v: int, n: nat)
    requires 0 <= v < Pow(256, n)
    ensures |LittleEndian(v, n)| == n && Digits(LittleEndian(v, n), 256)
    ensures Value(LittleEndian(v, n), 256) == v
  {
    LittleEndianDigits(v, n);
    FloorUnique(v, Pow256(n), 0, v);
  }

  // ---- division with floor ----

  /** The quotient and remainder are the only ones with the remainder in range. */
  lemma FloorUnique(x: int, m: int, q: int, r: int)
    requires m > 0 && 0 <= r < m && x == q * m + r
    ensures x / m == q && x % m == r
  {
    var q', r' := x / m, x % m;
    assert x == q' * m + r';
    TopDigitUnique(r, q, r', q', m);
  }

  // ---- congruence ----

  lemma CongShift(a: int, b: int, k: int, m: int)
    requires m > 0 && a == b + k * m
    ensures Cong(a, b, m)
  {
    var q, r := b / m, b % m;
    assert a == (q + k) * m + r;
    FloorUnique(a, m, q + k, r);
  }

  /** Congruent numbers differ by a multiple of the modulus. */
  lemma CongQuotient(a: int, b: int, m: int) returns (k: int)
    requires m > 0 && Cong(a, b, m)
    ensures a == b + k * m
  {
    k := a / m - b / m;
    assert a == (a / m) * m + a % m && b == (b / m) * m + b % m;
    assert (a / m - b / m) * m == (a / m) * m - (b / m) * m;
  }

  lemma CongAdd(a: int, a': int, b: int, b': int, m: int)
    requires m > 0 && Cong(a, a', m) && Cong(b, b', m)
    ensures Cong(a + b, a' + b', m) && Cong(a - b, a' - b', m)
  {
    var j := CongQuotient(a, a', m);
    var k := CongQuotient(b, b', m);
    assert (j + k) * m == j * m + k * m && (j - k) * m == j * m - k * m;
    CongShift(a + b, a' + b', j + k, m);
    CongShift(a - b, a' - b', j - k, m);
  }

  lemma ProductOfShifts(a: int, j: int, b: int, k: int, m: int)
    ensures (a + j * m) * (b + k * m) == a * b + (a * k + j * b + j * k * m) * m
  {
    var u := k * m;
    assert (a + j * m) * (b + u) == a * b + a * u + (j * m) * b + (j * m) * u;
    assert a * u == (a * k) * m;
    assert (j * m) * b == (j * b) * m;
    assert (j * m) * u == (j * k * m) * m;
    var x, y, z := a * k, j * b, j * k * m;
    assert (x + y + z) * m == x * m + y * m + z * m;
  }

  lemma CongMul(a: int, a': int, b: int, b': int, m: int)
    requires m > 0 && Cong(a, a', m) && Cong(b, b', m)
    ensures Cong(a * b, a' * b', m)
  {
    var j := CongQuotient(a, a', m);
    var k := CongQuotient(b, b', m);
    ProductOfShifts(a', j, b', k, m);
    CongShift(a * b, a' * b', a' * k + j * b' + j * k * m, m);
  }

  lemma CongMod(a: int, m: int)
    requires m > 0
    ensures Cong(a % m, a, m) && 0 <= a % m < m
  {
    FloorUnique(a % m, m, 0, a % m);
  }

  // ---- bytes and 16-bit limbs ----

  lemma {:induction false} PowOfPairs(k: nat)
    ensures Pow(256, 2 * k) == Pow(65536, k)
  {
    if k > 0 {
      PowOfPairs(k - 1);
      PowAdd(256, 2, 2 * (k - 1));
      assert Pow(256, 2) == 256 * (256 * Pow(256, 0));
    }
  }

  /** Splitting each 16-bit limb into two bytes keeps the value. */
  lemma {:induction false} BytesOfLimbs(s: seq<int>, r: seq<int>)
    requires |r| == 2 * |s|
    requires forall k :: 0 <= k < |s| ==> s[k] == r[2 * k] + 256 * r[2 * k + 1]
    ensures Value(r, 256) == Value(s, 65536)
    decreases |s|
  {
    if s != [] {
      var n := |s| - 1;
      var low := r[..2 * n];
      assert r == low + [r[2 * n]] + [r[2 * n + 1]];
      var w := Pow(65536, n);
      PowOfPairs(n);
      ValueSnoc(low + [r[2 * n]], r[2 * n + 1], 256, 256 * w);
      ValueSnoc(low, r[2 * n], 256, w);
      BytesOfLimbs(s[..n], low);
      TwoBytes(r[2 * n], r[2 * n + 1], w);
    }
  }

  lemma TwoBytes(x: int, y: int, w: int)
    ensures x * w + y * (256 * w) == (x + 256 * y) * w
  {}

  // ---- bitwise operations on non-negative integers, bit by bit ----

  function Xor(x: nat, y: nat): nat
    decreases x + y
  {
    if x == 0 && y == 0 then 0 else (x % 2 + y % 2) % 2 + 2 * Xor(x / 2, y / 2)
  }

  function Or(x: nat, y: nat): nat
    decreases x + y
  {
    if x == 0 && y == 0 then 0 else (if x % 2 + y % 2 > 0 then 1 else 0) + 2 * Or(x / 2, y / 2)
  }

  lemma {:induction false} XorZero(x: nat, y: nat)
    ensures Xor(x, y) == 0 <==> x == y
    decreases x + y
  {
    if x != 0 || y != 0 {
      XorZero(x / 2, y / 2);
    }
  }

  lemma {:induction false} OrZero(x: nat, y: nat)
    ensures Or(x, y) == 0 <==> x == 0 && y == 0
    decreases x + y
  {
    if x != 0 || y != 0 {
      OrZero(x / 2, y / 2);
    }
  }

  /** Neither operation reaches beyond the highest bit of its operands. */
  lemma {:induction false} BitwiseBound(x: nat, y: nat, n: nat)
    requires x < Pow(2, n) && y < Pow(2, n)
    ensures Xor(x, y) < Pow(2, n) && Or(x, y) < Pow(2, n)
    decreases x + y
  {
    if x != 0 || y != 0 {
      BitwiseBound(x / 2, y / 2, n - 1);
    }
  }

  /** Setting a bit above the highest one of `x`. */
  lemma {:induction false} XorAbove(x: nat, n: nat, b: nat)
    requires x < Pow(2, n) && b <= 1
    ensures Pow(2, n) > 0 && Xor(x, b * Pow(2, n)) == x + b * Pow(2, n)
    decreases n
  {
    PowPositive(2, n);
    if n > 0 {
      XorAbove(x / 2, n - 1, b);
      var w := Pow(2, n - 1);
      assert b * (2 * w) == 2 * (b * w);
      if x == 0 && b == 0 {
      } else {
        assert (b * (2 * w)) / 2 == b * w && (b * (2 * w)) % 2 == 0;
      }
    }
  }

  /** Congruent bases have congruent powers. */
  lemma {:induction false} CongPow(a: int, b: int, n: nat, m: int)
    requires m > 0 && Cong(a, b, m)
    ensures Cong(Pow(a, n), Pow(b, n), m)
  {
    if n > 0 {
      CongPow(a, b, n - 1, m);
      CongMul(a, b, Pow(a, n - 1), Pow(b, n - 1), m);
    }
  }
}
