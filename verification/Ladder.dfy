// The scalar multiplication ladder over an arbitrary addition, and what it computes
// in any group the points stand for.

module Ladder {
  import opened Radix

  /** Bit `i` of a little-endian byte string. */
  function Bit(s: seq<int>, i: nat): (b: int)
    requires i / 8 < |s|
    ensures b == 0 || b == 1
  {
    PowPositive(2, i % 8);
    (s[i / 8] / Pow(2, i % 8)) % 2
  }

  /** One iteration: swap on the bit, q := q + p, p := p + p, swap back. */
  function Step<T>(add: (T, T) -> T, p: T, q: T, b: int): (T, T) {
    if b == 1 then (add(p, q), add(q, q)) else (add(p, p), add(q, p))
  }

  /** The iterations for bits i - 1 down to 0. */
  function Run<T>(add: (T, T) -> T, p: T, q: T, s: seq<int>, i: nat): (T, T)
    requires i <= 8 * |s|
  {
    if i == 0 then (p, q)
    else
      var next := Step(add, p, q, Bit(s, i - 1));
      Run(add, next.0, next.1, s, i - 1)
  }

  // ---- bits and bytes ----

  /** The number made of bits 0 .. i - 1. */
  function LowBits(s: seq<int>, i: nat): int
    requires i <= 8 * |s|
  {
    if i == 0 then 0 else LowBits(s, i - 1) + Bit(s, i - 1) * Pow(2, i - 1)
  }

  /** The low `j` bits of one byte. */
  lemma {:induction false} LowBitsOfByte(s: seq<int>, k: nat, j: nat)
    requires k < |s| && j <= 8 && 0 <= s[k] < 256
    ensures Pow(2, j) > 0
    ensures LowBits(s, 8 * k + j) == LowBits(s, 8 * k) + (s[k] % Pow(2, j)) * Pow(2, 8 * k)
  {
    PowPositive(2, j);
    if j > 0 {
      LowBitsOfByte(s, k, j - 1);
      var i, w := 8 * k + j - 1, Pow(2, j - 1);
      assert i / 8 == k && i % 8 == j - 1;
      PowAdd(2, 8 * k, j - 1);
      NextLow(s[k], w, Pow(2, 8 * k));
    } else {
      assert s[k] % 1 == 0;
    }
  }

  lemma BitWeights(low: int, b: int, w: int, v: int)
    ensures low * v + b * (v * w) == (low + b * w) * v
  {
    assert b * (v * w) == (b * w) * v;
  }

  /** One more bit of a number, at a weight. */
  lemma NextLow(x: int, w: int, v: int)
    requires w > 0
    ensures (x % w) * v + ((x / w) % 2) * (v * w) == (x % (2 * w)) * v
  {
    NextBit(x, w);
    BitWeights(x % w, (x / w) % 2, w, v);
  }

  lemma NextBit(x: int, w: int)
    requires w > 0
    ensures x % (2 * w) == x % w + ((x / w) % 2) * w
  {
    var q, r := x / w, x % w;
    assert x == q * w + r;
    HalfQuotient(q, q / 2, q % 2, w);
    BitOrNot(q % 2, r, w);
    FloorUnique(x, 2 * w, q / 2, (q % 2) * w + r);
  }

  lemma HalfQuotient(q: int, h: int, b: int, w: int)
    requires q == 2 * h + b
    ensures q * w == h * (2 * w) + b * w
  {}

  lemma BitOrNot(b: int, r: int, w: int)
    requires (b == 0 || b == 1) && 0 <= r < w
    ensures 0 <= b * w + r < 2 * w
  {}

  lemma ByteItself(x: int)
    requires 0 <= x < 256
    ensures Pow(2, 8) == 256 && x % Pow(2, 8) == x
  {
    assert Pow(2, 4) == 16;
    PowAdd(2, 4, 4);
    FloorUnique(x, 256, 0, x);
  }

  /** All the bits together are the little-endian value. */
  lemma {:induction false} LowBitsOfBytes(s: seq<int>, k: nat)
    requires k <= |s| && Digits(s, 256)
    ensures LowBits(s, 8 * k) == Value(s[..k], 256) && Pow(2, 8 * k) == Pow(256, k)
  {
    if k > 0 {
      LowBitsOfBytes(s, k - 1);
      LowBitsOfByte(s, k - 1, 8);
      ByteItself(s[k - 1]);
      assert 8 * (k - 1) + 8 == 8 * k;
      ValuePrefix(s, k - 1, 256, Pow(256, k - 1));
      PowAdd(2, 8 * (k - 1), 8);
    }
  }

  /** `m` with the bits i - 1 down to 0 appended below it. */
  function Appended(m: nat, s: seq<int>, i: nat): nat
    requires i <= 8 * |s|
    decreases i
  {
    if i == 0 then m else Appended(2 * m + Bit(s, i - 1), s, i - 1)
  }

  lemma {:induction false} AppendedValue(m: nat, s: seq<int>, i: nat)
    requires i <= 8 * |s|
    ensures Appended(m, s, i) == m * Pow(2, i) + LowBits(s, i)
    decreases i
  {
    if i > 0 {
      AppendedValue(2 * m + Bit(s, i - 1), s, i - 1);
      AppendedBit(m, Bit(s, i - 1), Pow(2, i - 1));
    }
  }

  lemma AppendedBit(m: int, b: int, w: int)
    ensures (2 * m + b) * w == m * (2 * w) + b * w
  {}

  // ---- groups ----

  // Each law is a predicate of its own, so that it is used only where it is named.

  ghost predicate Associative<G>(op: (G, G) -> G, a: G, b: G, c: G) {
    op(op(a, b), c) == op(a, op(b, c))
  }

  ghost predicate Neutral<G>(op: (G, G) -> G, zero: G, a: G) {
    op(zero, a) == a && op(a, zero) == a
  }

  /** `op` is associative and `zero` is neutral. */
  ghost predicate Monoid<G(!new)>(op: (G, G) -> G, zero: G) {
    && (forall a, b, c :: Associative(op, a, b, c))
    && (forall a :: Neutral(op, zero, a))
  }

  /** `n` times `a`. */
  function Times<G>(op: (G, G) -> G, zero: G, n: nat, a: G): G {
    if n == 0 then zero else op(Times(op, zero, n - 1, a), a)
  }

  lemma {:induction false} TimesAdd<G(!new)>(op: (G, G) -> G, zero: G, m: nat, n: nat, a: G)
    requires Monoid(op, zero)
    ensures op(Times(op, zero, m, a), Times(op, zero, n, a)) == Times(op, zero, m + n, a)
  {
    if n > 0 {
      TimesAdd(op, zero, m, n - 1, a);
      assert Associative(op, Times(op, zero, m, a), Times(op, zero, n - 1, a), a);
    } else {
      assert Neutral(op, zero, Times(op, zero, m, a));
    }
  }

  /** On `good` representatives, `add` computes the group operation of what they stand for. */
  ghost predicate AddsAt<T, G>(abs: T -> G, good: T -> bool, add: (T, T) -> T, op: (G, G) -> G, p: T, q: T) {
    good(p) && good(q) ==> good(add(p, q)) && abs(add(p, q)) == op(abs(p), abs(q))
  }

  ghost predicate Represents<T(!new), G>(abs: T -> G, good: T -> bool, add: (T, T) -> T, op: (G, G) -> G) {
    forall p, q :: AddsAt(abs, good, add, op, p, q)
  }

  /** The state between iterations: p stands for m times the point, q for m + 1 times. */
  ghost predicate Between<T, G>(abs: T -> G, good: T -> bool, op: (G, G) -> G, zero: G,
                                p: T, q: T, m: nat, a: G) {
    && good(p) && good(q)
    && abs(p) == Times(op, zero, m, a) && abs(q) == Times(op, zero, m + 1, a)
  }

  /** One addition of two represented multiples. */
  lemma AddMultiples<T(!new), G(!new)>(abs: T -> G, good: T -> bool, add: (T, T) -> T,
                                 op: (G, G) -> G, zero: G, p: T, q: T, m: nat, n: nat, a: G)
    requires Monoid(op, zero) && Represents(abs, good, add, op)
    requires good(p) && good(q) && abs(p) == Times(op, zero, m, a) && abs(q) == Times(op, zero, n, a)
    ensures good(add(p, q)) && abs(add(p, q)) == Times(op, zero, m + n, a)
  {
    assert AddsAt(abs, good, add, op, p, q);
    TimesAdd(op, zero, m, n, a);
  }

  lemma StepDoubles<T(!new), G(!new)>(abs: T -> G, good: T -> bool, add: (T, T) -> T,
                                op: (G, G) -> G, zero: G, p: T, q: T, m: nat, a: G, b: int, m': nat)
    requires Monoid(op, zero) && Represents(abs, good, add, op)
    requires (b == 0 || b == 1) && m' == 2 * m + b
    requires Between(abs, good, op, zero, p, q, m, a)
    ensures Between(abs, good, op, zero, Step(add, p, q, b).0, Step(add, p, q, b).1, m', a)
  {
    if b == 1 {
      AddMultiples(abs, good, add, op, zero, p, q, m, m + 1, a);
      AddMultiples(abs, good, add, op, zero, q, q, m + 1, m + 1, a);
    } else {
      AddMultiples(abs, good, add, op, zero, p, p, m, m, a);
      AddMultiples(abs, good, add, op, zero, q, p, m + 1, m, a);
    }
  }

  /** The ladder's loop invariant, from any state: the bits below `i` are appended to m. */
  lemma {:induction false} RunAppends<T(!new), G(!new)>(abs: T -> G, good: T -> bool, add: (T, T) -> T,
                                op: (G, G) -> G, zero: G, p: T, q: T, m: nat, a: G,
                                s: seq<int>, i: nat)
    requires Monoid(op, zero) && Represents(abs, good, add, op) && i <= 8 * |s|
    requires Between(abs, good, op, zero, p, q, m, a)
    ensures Between(abs, good, op, zero, Run(add, p, q, s, i).0, Run(add, p, q, s, i).1,
                    Appended(m, s, i), a)
    decreases i
  {
    if i > 0 {
      var b := Bit(s, i - 1);
      var next := Step(add, p, q, b);
      StepDoubles(abs, good, add, op, zero, p, q, m, a, b, 2 * m + b);
      RunAppends(abs, good, add, op, zero, next.0, next.1, 2 * m + b, a, s, i - 1);
    }
  }

  /** The ladder leaves s times the point, and (s + 1) times the point, for every 32-byte s. */
  lemma LadderMultiplies<T(!new), G(!new)>(abs: T -> G, good: T -> bool, add: (T, T) -> T,
                                op: (G, G) -> G, zero: G, neutral: T, q: T, s: seq<int>, n: nat)
    requires Monoid(op, zero) && Represents(abs, good, add, op)
    requires good(neutral) && abs(neutral) == zero && good(q)
    requires |s| == 32 && Digits(s, 256) && n == Value(s, 256)
    ensures Between(abs, good, op, zero, Run(add, neutral, q, s, 256).0,
                    Run(add, neutral, q, s, 256).1, n, abs(q))
  {
    LowBitsOfBytes(s, 32);
    assert s[..32] == s;
    AppendedValue(0, s, 256);
    assert Neutral(op, zero, abs(q));
    assert Times(op, zero, 1, abs(q)) == op(Times(op, zero, 0, abs(q)), abs(q));
    RunAppends(abs, good, add, op, zero, neutral, q, 0, abs(q), s, 256);
  }
}
