// The one-time authenticator: Poly1305 in seventeen 8-bit limbs.

module Poly1305 {
  import opened Radix

  /** 2^130 - 5 */
  const P1305 := 0x3fffffffffffffffffffffffffffffffb
  const TWO128 := 0x1_00000000000000000000000000000000
  const TWO136 := 0x100_00000000000000000000000000000000
  /** 2^136 minus the prime. */
  const MINUS_P: seq<int> := [5, 0, 0, 0, 0, 0, 0, 0, 0, 0, 0, 0, 0, 0, 0, 0, 252]

  /** A word that fits 32 bits. */
  ghost predicate U32(x: int) {
    0 <= x < 0x1_0000_0000
  }

  lemma Weights()
    ensures Pow(256, 16) == TWO128 && Pow(256, 17) == TWO136
  {
    assert Pow(256, 2) == 256 * (256 * Pow(256, 0));
    PowAdd(256, 2, 2);
    PowAdd(256, 4, 4);
    PowAdd(256, 8, 8);
    assert Pow(256, 17) == 256 * Pow(256, 16);
  }

  // ---- the definition, section 2.5 of RFC 8439 ----

  /** Byte `i` of the key with the bits cleared that section 2.5 requires to be clear. */
  function ClampByte(i: int, x: int): int {
    if i == 3 || i == 7 || i == 11 || i == 15 then x % 16
    else if i == 4 || i == 8 || i == 12 then x - x % 4
    else x
  }

  /** r: the clamped first half of the key. */
  function Clamped(k: seq<int>): seq<int>
    requires |k| >= 16
  {
    seq(16, i requires 0 <= i < 16 => ClampByte(i, k[i]))
  }

  /** The four little-endian words of r: the top four bits of each are clear, and the low two of all
      but the first; the others are those of the key. */
  lemma ClampedWord(k: seq<int>, j: nat)
    requires |k| == 32 && Digits(k, 256) && j < 4
    ensures |Clamped(k)| == 16
    ensures var v := Value(k[4 * j..4 * j + 4], 256) % 0x1000_0000;
            Value(Clamped(k)[4 * j..4 * j + 4], 256) == if j == 0 then v else v - v % 4
  {
    var s, r := k[4 * j..4 * j + 4], Clamped(k)[4 * j..4 * j + 4];
    FourBytes(s);
    FourBytes(r);
    WordBits(s[0], s[1], s[2], s[3]);
  }

  lemma FourBytes(s: seq<int>)
    requires |s| == 4
    ensures Value(s, 256) == s[0] + 0x100 * s[1] + 0x10000 * s[2] + 0x1000000 * s[3]
  {
    assert Pow(256, 1) == 256 * Pow(256, 0) == 256;
    assert Pow(256, 2) == 256 * Pow(256, 1) && Pow(256, 3) == 256 * Pow(256, 2);
    ValueOfOne(s[0], 256);
    assert s[..1] == [s[0]];
    ValuePrefix(s, 1, 256, 0x100);
    ValuePrefix(s, 2, 256, 0x10000);
    ValuePrefix(s, 3, 256, 0x1000000);
    assert s[..4] == s;
  }

  lemma WordBits(a: int, b: int, c: int, d: int)
    requires 0 <= a < 256 && 0 <= b < 256 && 0 <= c < 256 && 0 <= d < 256
    ensures var v := (a + 0x100 * b + 0x10000 * c + 0x1000000 * d) % 0x1000_0000;
            v == a + 0x100 * b + 0x10000 * c + 0x1000000 * (d % 16) && v % 4 == a % 4
  {
    var low := a + 0x100 * b + 0x10000 * c + 0x1000000 * (d % 16);
    FloorUnique(low + 0x1000_0000 * (d / 16), 0x1000_0000, d / 16, low);
    FloorUnique(low, 4, a / 4 + 0x40 * b + 0x4000 * c + 0x400000 * (d % 16), a % 4);
  }

  function BlockLength(m: seq<int>): (n: nat)
    ensures n <= 16 && n <= |m|
  {
    if |m| < 16 then |m| else 16
  }

  /** A block as a number, with one bit set above its last byte. */
  function BlockNumber(m: seq<int>): int {
    Value(m[..BlockLength(m)] + [1], 256)
  }

  /** The accumulator after the rest of the message, from the value `a`. */
  function Accumulate(a: int, m: seq<int>, r: int): int
    decreases |m|
  {
    if m == [] then a
    else Accumulate(((a + BlockNumber(m)) * r) % P1305, m[BlockLength(m)..], r)
  }

  /** Number of blocks. */
  function BlockCount(m: seq<int>): nat
    decreases |m|
  {
    if m == [] then 0 else 1 + BlockCount(m[BlockLength(m)..])
  }

  /** The polynomial c1 r^q + c2 r^(q-1) + ... + cq r over the q blocks of the message. */
  function Polynomial(m: seq<int>, r: int): int
    decreases |m|
  {
    if m == [] then 0
    else BlockNumber(m) * Pow(r, BlockCount(m)) + Polynomial(m[BlockLength(m)..], r)
  }

  /** The loop evaluates the polynomial: block i is multiplied by r to the power q - i + 1. */
  lemma {:induction false} AccumulateIsPolynomial(a: int, m: seq<int>, r: int)
    ensures Cong(Accumulate(a, m, r), a * Pow(r, BlockCount(m)) + Polynomial(m, r), P1305)
    decreases |m|
  {
    if m != [] {
      var rest, c := m[BlockLength(m)..], BlockNumber(m);
      var q := BlockCount(rest);
      var b := ((a + c) * r) % P1305;
      AccumulateIsPolynomial(b, rest, r);
      CongMod((a + c) * r, P1305);
      HornerResidue(Accumulate(b, rest, r), b, a, c, r, Pow(r, q), Polynomial(rest, r), P1305);
    }
  }

  /** One step of the evaluation, on residues. */
  lemma HornerResidue(acc: int, b: int, a: int, c: int, r: int, w: int, poly: int, m: int)
    requires m > 0 && Cong(acc, b * w + poly, m) && Cong(b, (a + c) * r, m)
    ensures Cong(acc, a * (r * w) + (c * (r * w) + poly), m)
  {
    CongMul(b, (a + c) * r, w, w, m);
    CongAdd(b * w, (a + c) * r * w, poly, poly, m);
    HornerStep(a, c, r, w);
  }

  /** The tag as a number: the polynomial of the message at r, reduced, plus the second half of the
      key, modulo 2^128. */
  function Tag(m: seq<int>, k: seq<int>): int
    requires |k| == 32
  {
    (Polynomial(m, Value(Clamped(k), 256)) % P1305 + Value(k[16..], 256)) % TWO128
  }

  /** From nothing, the accumulator ends as the polynomial, reduced. */
  lemma AccumulateFromZero(m: seq<int>, r: int)
    ensures Accumulate(0, m, r) == Polynomial(m, r) % P1305
  {
    AccumulateIsPolynomial(0, m, r);
    AccumulateReduced(0, m, r);
    FloorUnique(Accumulate(0, m, r), P1305, 0, Accumulate(0, m, r));
  }

  lemma {:induction false} AccumulateReduced(a: int, m: seq<int>, r: int)
    requires 0 <= a < P1305
    ensures 0 <= Accumulate(a, m, r) < P1305
    decreases |m|
  {
    if m != [] {
      AccumulateReduced(((a + BlockNumber(m)) * r) % P1305, m[BlockLength(m)..], r);
    }
  }

  lemma HornerStep(a: int, c: int, r: int, w: int)
    ensures (a + c) * r * w == a * (r * w) + c * (r * w)
  {
    assert (a + c) * r * w == (a + c) * (r * w);
  }

  // ---- addition with carries ----

  /** add1305 before limb `j`. */
  ghost predicate Adding(h: seq<int>, s: seq<int>, c: seq<int>, j: nat, u: int) {
    && |h| == |s| == |c| == 17 && j <= 17 && 0 <= u <= 1
    && Digits(s, 256) && Digits(c, 256) && Digits(h, 256)
    && (forall k :: j <= k < 17 ==> h[k] == s[k])
    && Value(h, 256) + u * Pow(256, j) == Value(s, 256) + Value(c[..j], 256)
  }

  lemma AddingStep(h: seq<int>, s: seq<int>, c: seq<int>, j: nat, u: int, v: int)
    requires j < 17 && Adding(h, s, c, j, u) && v == u + (h[j] + c[j])
    ensures U32(v) && Adding(h[j := v % 256], s, c, j + 1, v / 256)
  {
    var w := Pow(256, j);
    ValueCarry(h, j, u, c[j], v % 256, v / 256, 256, w);
    ValuePrefix(c, j, 256, w);
  }

  /** add1305: `h` plus `c` modulo 2^136, in place. */
  method Add1305(h: array<int>, c: seq<int>)
    requires h.Length == 17 && |c| == 17 && Digits(h[..], 256) && Digits(c, 256)
    modifies h
    ensures Digits(h[..], 256)
    ensures Value(h[..], 256) == (old(Value(h[..], 256)) + Value(c, 256)) % TWO136
  {
    ghost var s := h[..];
    var u := 0;
    assert c[..0] == [];
    for j := 0 to 17
      invariant Adding(h[..], s, c, j, u)
    {
      ghost var before := h[..];
      var v := u + (h[j] + c[j]);
      AddingStep(before, s, c, j, u, v);
      u := v;
      h[j] := u % 256;
      u := u / 256;
      assert h[..] == before[j := v % 256];
    }
    Weights();
    assert c[..17] == c;
    ValueOfDigits(h[..], 256);
    FloorUnique(Value(s, 256) + Value(c, 256), TWO136, u, Value(h[..], 256));
  }

  // ---- multiplication ----

  /** The limbs of r times 256^j, those past limb 16 returned with weight 320. */
  function Wrapped(r: seq<int>, j: nat): seq<int>
    requires |r| == 17 && j <= 17
  {
    seq(17, i requires 0 <= i < 17 => if j <= i then r[i - j] else 320 * r[i + 17 - j])
  }

  lemma WrappedParts(r: seq<int>, j: nat, w: int)
    requires |r| == 17 && j <= 17 && w == Pow(256, j)
    ensures Value(Wrapped(r, j), 256) == 320 * Value(r[17 - j..], 256) + w * Value(r[..17 - j], 256)
  {
    var low, high := r[..17 - j], r[17 - j..];
    var x, zeros := seq(j, i requires 0 <= i < j => 320 * high[i]), seq(j, _ => 0);
    assert Wrapped(r, j) == x + low;
    ValueConcat(x, low, 256, w);
    ValueZeros(zeros, 256);
    ValueLinear(zeros, high, x, 320, 256);
  }

  lemma WrappedValue(r: seq<int>, j: nat, w: int)
    requires |r| == 17 && j <= 17 && w == Pow(256, j)
    ensures Cong(Value(Wrapped(r, j), 256), w * Value(r, 256), P1305)
  {
    var v, low, high := Pow(256, 17 - j), Value(r[..17 - j], 256), Value(r[17 - j..], 256);
    WrappedParts(r, j, w);
    ValueSplit(r, 17 - j, 256, v);
    PowAdd(256, j, 17 - j);
    Weights();
    WrappedArithmetic(w, v, low, high, Value(Wrapped(r, j), 256), Value(r, 256), P1305);
  }

  /** A limb with the weight of the number of limbs counts 320, as 2^136 is 320 modulo the prime. */
  lemma WrappedArithmetic(w: int, v: int, low: int, high: int, wrapped: int, whole: int, m: int)
    requires m > 0 && w * v == 64 * m + 320 && wrapped == 320 * high + w * low && whole == low + v * high
    ensures Cong(wrapped, w * whole, m)
  {
    assert w * (v * high) == (w * v) * high;
    assert w * whole == w * low + w * (v * high);
    assert (64 * m + 320) * high == 320 * high + (64 * high) * m;
    CongShift(wrapped, w * whole, -64 * high, m);
  }

  /** Limb `i` of the product with the first `n` limbs of h. */
  function ProductLimb(h: seq<int>, r: seq<int>, i: nat, n: nat): int
    requires |h| == |r| == 17 && i < 17 && n <= 17
  {
    if n == 0 then 0 else ProductLimb(h, r, i, n - 1) + h[n - 1] * Wrapped(r, n - 1)[i]
  }

  function ProductLimbs(h: seq<int>, r: seq<int>, n: nat): seq<int>
    requires |h| == |r| == 17 && n <= 17
  {
    seq(17, i requires 0 <= i < 17 => ProductLimb(h, r, i, n))
  }

  lemma {:induction false} ProductValue(h: seq<int>, r: seq<int>, n: nat)
    requires |h| == |r| == 17 && n <= 17
    ensures Cong(Value(ProductLimbs(h, r, n), 256), Value(h[..n], 256) * Value(r, 256), P1305)
  {
    if n == 0 {
      ValueZeros(ProductLimbs(h, r, n), 256);
    } else {
      var w := Pow(256, n - 1);
      ProductValue(h, r, n - 1);
      NextProduct(h, r, n);
      WrappedValue(r, n - 1, w);
      ValuePrefix(h, n - 1, 256, w);
      ProductStep(Value(ProductLimbs(h, r, n - 1), 256), Value(Wrapped(r, n - 1), 256), h[n - 1],
                  Value(h[..n - 1], 256), w, Value(r, 256), Value(h[..n], 256),
                  Value(ProductLimbs(h, r, n), 256), P1305);
    }
  }

  lemma NextProduct(h: seq<int>, r: seq<int>, n: nat)
    requires |h| == |r| == 17 && 0 < n <= 17
    ensures Value(ProductLimbs(h, r, n), 256)
         == Value(ProductLimbs(h, r, n - 1), 256) + h[n - 1] * Value(Wrapped(r, n - 1), 256)
  {
    ValueLinear(ProductLimbs(h, r, n - 1), Wrapped(r, n - 1), ProductLimbs(h, r, n), h[n - 1], 256);
  }

  lemma ProductStep(y: int, t: int, d: int, x: int, w: int, v: int, x': int, y': int, m: int)
    requires m > 0 && Cong(y, x * v, m) && Cong(t, w * v, m)
    requires x' == x + d * w && y' == y + d * t
    ensures Cong(y', x' * v, m)
  {
    CongMul(d, d, t, w * v, m);
    CongAdd(y, x * v, d * t, d * (w * v), m);
    assert d * (w * v) == (d * w) * v;
    assert x' * v == x * v + (d * w) * v;
  }

  /** The double loop of crypto_onetimeauth: the seventeen sums, all within 32 bits. */
  method Multiply(h: array<int>, r: seq<int>) returns (x: array<int>)
    requires h.Length == 17 && |r| == 17 && Digits(h[..], 256) && Digits(r, 256)
    ensures fresh(x) && x[..] == ProductLimbs(h[..], r, 17)
    ensures forall k :: 0 <= k < 17 ==> 0 <= x[k] <= 17 * 20808000
  {
    x := new int[17];
    for i := 0 to 17
      invariant forall k :: 0 <= k < i ==> x[k] == ProductLimb(h[..], r, k, 17) && 0 <= x[k] <= 17 * 20808000
    {
      x[i] := 0;
      for j := 0 to 17
        invariant forall k :: 0 <= k < i ==> x[k] == ProductLimb(h[..], r, k, 17) && 0 <= x[k] <= 17 * 20808000
        invariant x[i] == ProductLimb(h[..], r, i, j) && 0 <= x[i] <= j * 20808000
      {
        TermBound(h[j], if j <= i then r[i - j] else 320 * r[i + 17 - j]);
        x[i] := x[i] + h[j] * if j <= i then r[i - j] else 320 * r[i + 17 - j];
      }
      assert U32(x[i]);
    }
  }

  lemma TermBound(x: int, y: int)
    requires 0 <= x <= 255 && 0 <= y <= 81600
    ensures 0 <= x * y <= 20808000
  {
    assert 0 <= x * y;
    assert (255 - x) * y >= 0;
  }

  // ---- carrying after a multiplication ----

  /** A carry loop over limbs 0..15 before limb `j`, which started with carry `first`. */
  ghost predicate Carrying(h: seq<int>, s: seq<int>, first: int, j: nat, u: int, limb: int, cap: int) {
    && |h| == |s| == 17 && j <= 16 && 0 <= u <= cap && 0 <= limb
    && limb + cap <= 256 * cap && U32(limb + cap)
    && (forall k :: 0 <= k < 17 ==> 0 <= s[k] <= limb)
    && (forall k :: 0 <= k < j ==> 0 <= h[k] < 256)
    && (forall k :: j <= k < 17 ==> h[k] == s[k])
    && Value(h, 256) + u * Pow(256, j) == Value(s, 256) + first
  }

  lemma CarryingStep(h: seq<int>, s: seq<int>, first: int, j: nat, u: int, limb: int, cap: int, v: int)
    requires j < 16 && Carrying(h, s, first, j, u, limb, cap) && v == u + h[j]
    ensures U32(v) && Carrying(h[j := v % 256], s, first, j + 1, v / 256, limb, cap)
  {
    ValueCarry(h, j, u, 0, v % 256, v / 256, 256, Pow(256, j));
  }

  /** One of the two carry loops: returns the carry out of limb 15. */
  method CarryLow(h: array<int>, first: int, ghost limb: int, ghost cap: int) returns (u: int)
    requires h.Length == 17 && Carrying(h[..], h[..], first, 0, first, limb, cap)
    modifies h
    ensures Carrying(h[..], old(h[..]), first, 16, u, limb, cap)
  {
    ghost var s := h[..];
    u := first;
    for j := 0 to 16
      invariant Carrying(h[..], s, first, j, u, limb, cap)
    {
      ghost var before := h[..];
      var v := u + h[j];
      CarryingStep(before, s, first, j, u, limb, cap, v);
      u := v;
      h[j] := u % 256;
      u := u / 256;
      assert h[..] == before[j := v % 256];
    }
  }

  /** The value of limbs whose low sixteen are digits. */
  lemma TopLimb(h: seq<int>)
    requires |h| == 17 && Digits(h[..16], 256)
    ensures Value(h, 256) == Value(h[..16], 256) + h[16] * TWO128
    ensures 0 <= Value(h[..16], 256) < TWO128
  {
    Weights();
    ValueOfDigits(h[..16], 256);
  }

  /** Taking everything above bit 130 off and putting five times it back keeps the residue. */
  lemma TopReturned(low: int, top: int)
    requires 0 <= low < TWO128 && top >= 0
    ensures Cong(low + (top % 4) * TWO128 + 5 * (top / 4), low + top * TWO128, P1305)
    ensures 0 <= low + (top % 4) * TWO128 < 4 * TWO128
  {
    CongShift(low + (top % 4) * TWO128 + 5 * (top / 4), low + top * TWO128, -(top / 4), P1305);
  }

  /** What the accumulator satisfies between blocks. */
  ghost predicate Accumulator(h: seq<int>) {
    |h| == 17 && Digits(h, 256) && h[16] <= 4 && 0 <= Value(h, 256) < 2 * P1305
  }

  lemma SmallTop(h: seq<int>)
    requires |h| == 17 && Digits(h[..16], 256) && 0 <= Value(h, 256) < 4 * TWO128 + 0x20000000
    ensures Accumulator(h)
  {
    TopLimb(h);
  }

  /** Bits above 130 are taken off the top limb: five times them is the next carry. */
  method TakeTop(h: array<int>, carry: int, ghost start: int) returns (u: int)
    requires h.Length == 17 && Digits(h[..16], 256) && 0 <= h[16] <= 17 * 20808000 && 0 <= carry <= 1390000
    requires Value(h[..], 256) + carry * TWO128 == start
    modifies h
    ensures Digits(h[..], 256) && 0 <= u <= 0x20000000
    ensures Cong(Value(h[..], 256) + u, start, P1305) && 0 <= Value(h[..], 256) < 4 * TWO128
  {
    ghost var s := h[..];
    assert s[..16] == h[..16];
    TopLimb(s);
    u := carry + h[16];
    assert U32(u);
    ghost var low := Value(s[..16], 256);
    TopReturned(low, u);
    TopDistributes(low, s[16], carry, start);
    h[16] := u % 4;
    u := 5 * (u / 4);
    assert U32(u);
    assert h[..][..16] == s[..16];
    TopLimb(h[..]);
  }

  /** The last carry goes into the top limb. */
  method PutTop(h: array<int>, carry: int, ghost v: int)
    requires h.Length == 17 && Digits(h[..16], 256) && 0 <= h[16] < 256 && 0 <= carry <= 0x20000000
    requires Value(h[..], 256) + carry * TWO128 == v && 0 <= v < 4 * TWO128 + 0x20000000
    modifies h
    ensures Accumulator(h[..]) && Value(h[..], 256) == v
  {
    ghost var s := h[..];
    Weights();
    ValueAdd(s, 16, carry, 256, TWO128);
    h[16] := carry + h[16];
    assert U32(h[16]);
    assert h[..] == s[16 := s[16] + carry];
    assert h[..][..16] == s[..16] == h[..16];
    SmallTop(h[..]);
  }

  /** The carry loops after the multiplication. */
  method PartialReduce(h: array<int>)
    requires h.Length == 17 && forall k :: 0 <= k < 17 ==> 0 <= h[k] <= 17 * 20808000
    modifies h
    ensures Accumulator(h[..]) && Cong(Value(h[..], 256), old(Value(h[..], 256)), P1305)
  {
    ghost var start := Value(h[..], 256);
    Weights();
    var u := CarryLow(h, 0, 17 * 20808000, 1390000);
    assert h[16] == h[..][16];
    u := TakeTop(h, u, start);
    ghost var v := Value(h[..], 256) + u;
    u := CarryLow(h, u, 255, 0x20000000);
    assert h[16] == h[..][16];
    PutTop(h, u, v);
  }

  lemma TopDistributes(low: int, top: int, carry: int, start: int)
    requires low + top * TWO128 + carry * TWO128 == start
    ensures low + (carry + top) * TWO128 == start
  {}

  // ---- one block ----

  /** The block copied into seventeen limbs, the marking bit above its last byte. */
  method LoadBlock(m: seq<int>) returns (c: array<int>, n: nat)
    requires Digits(m, 256)
    ensures fresh(c) && c.Length == 17 && n == BlockLength(m)
    ensures Digits(c[..], 256) && Value(c[..], 256) == BlockNumber(m)
    ensures 0 <= BlockNumber(m) < 2 * TWO128
  {
    c := new int[17](_ => 0);
    n := 0;
    while n < 16 && n < |m|
      invariant 0 <= n <= 16 && n <= |m|
      invariant c[..n] == m[..n] && forall k :: n <= k < 17 ==> c[k] == 0
    {
      c[n] := m[n];
      n := n + 1;
    }
    c[n] := 1;
    PaddedBlock(c[..], m, n);
  }

  lemma PaddedBlock(c: seq<int>, m: seq<int>, n: nat)
    requires |c| == 17 && n <= 16 && n <= |m| && Digits(m, 256)
    requires c[..n] == m[..n] && c[n] == 1 && forall k :: n < k < 17 ==> c[k] == 0
    ensures Digits(c, 256) && Value(c, 256) == Value(m[..n] + [1], 256)
    ensures 0 <= Value(c, 256) < 2 * TWO128
  {
    PaddedDigits(c, m, n);
    PaddedValue(c, m, n);
    assert c[16] <= 1;
    TopLimb(c);
  }

  lemma PaddedDigits(c: seq<int>, m: seq<int>, n: nat)
    requires |c| == 17 && n <= 16 && n <= |m| && Digits(m, 256)
    requires c[..n] == m[..n] && c[n] == 1 && forall k :: n < k < 17 ==> c[k] == 0
    ensures Digits(c, 256)
  {
    forall k | 0 <= k < n ensures 0 <= c[k] < 256 {
      assert c[k] == c[..n][k] == m[k];
    }
  }

  lemma PaddedValue(c: seq<int>, m: seq<int>, n: nat)
    requires |c| == 17 && n <= 16 && n <= |m|
    requires c[..n] == m[..n] && c[n] == 1 && forall k :: n < k < 17 ==> c[k] == 0
    ensures Value(c, 256) == Value(m[..n] + [1], 256)
  {
    var zeros := c[n + 1..];
    ValueZeros(zeros, 256);
    assert c == (m[..n] + [1]) + zeros;
    ValueConcat(m[..n] + [1], zeros, 256, Pow(256, n + 1));
  }

  /** One pass of the main loop: (h + c) * r modulo the prime, with carries done. */
  method Block(h: array<int>, r: seq<int>, m: seq<int>) returns (n: nat)
    requires h.Length == 17 && |r| == 17 && Digits(r, 256) && Digits(m, 256) && Accumulator(h[..])
    modifies h
    ensures n == BlockLength(m) && Accumulator(h[..])
    ensures Cong(Value(h[..], 256), (old(Value(h[..], 256)) + BlockNumber(m)) * Value(r, 256), P1305)
  {
    var c;
    c, n := LoadBlock(m);
    ghost var a := Value(h[..], 256);
    Add1305(h, c[..]);
    FloorUnique(a + BlockNumber(m), TWO136, 0, a + BlockNumber(m));
    MultiplyInto(h, r);
    PartialReduce(h);
  }

  /** The product, copied back over h. */
  method MultiplyInto(h: array<int>, r: seq<int>)
    requires h.Length == 17 && |r| == 17 && Digits(h[..], 256) && Digits(r, 256)
    modifies h
    ensures forall k :: 0 <= k < 17 ==> 0 <= h[k] <= 17 * 20808000
    ensures Cong(Value(h[..], 256), old(Value(h[..], 256)) * Value(r, 256), P1305)
  {
    ghost var s := h[..];
    var x := Multiply(h, r);
    ProductValue(s, r, 17);
    assert s[..17] == s;
    ghost var product := x[..];
    for i := 0 to 17
      invariant h[..i] == x[..i] && x[..] == product
    {
      h[i] := x[i];
    }
    assert h[..] == x[..];
  }

  // ---- the final reduction ----

  lemma MinusPrime()
    ensures Digits(MINUS_P, 256) && Value(MINUS_P, 256) == TWO136 - P1305
  {
    var zeros := MINUS_P[1..16];
    assert MINUS_P == [5] + zeros + [252];
    ValueZeros(zeros, 256);
    ValueOfOne(5, 256);
    Weights();
    ValueConcat([5], zeros, 256, 256);
    ValueSnoc([5] + zeros, 252, 256, TWO128);
  }

  /** The top bit after adding -p tells whether the sum wrapped. */
  lemma FreezeChoice(a: int, d: int, top: int, low: int)
    requires 0 <= a < 2 * P1305 && d == (a + (TWO136 - P1305)) % TWO136
    requires d == low + top * TWO128 && 0 <= low < TWO128 && 0 <= top < 256
    ensures (if top / 128 == 1 then a else d) == a % P1305
    ensures top / 128 == 0 || top / 128 == 1
  {
    if a < P1305 {
      FloorUnique(a + (TWO136 - P1305), TWO136, 0, a + (TWO136 - P1305));
      FloorUnique(a, P1305, 0, a);
    } else {
      FloorUnique(a + (TWO136 - P1305), TWO136, 1, a - P1305);
      FloorUnique(a, P1305, 1, a - P1305);
    }
  }

  /** The freezing step: the accumulator reduced below the prime. */
  method Freeze(h: array<int>)
    requires h.Length == 17 && Accumulator(h[..])
    modifies h
    ensures Digits(h[..], 256) && Value(h[..], 256) == old(Value(h[..], 256)) % P1305
  {
    var g := new int[17];
    for j := 0 to 17
      invariant g[..j] == h[..j] && h[..] == old(h[..])
    {
      g[j] := h[j];
    }
    assert g[..] == h[..];
    ghost var a := h[..];
    MinusPrime();
    Add1305(h, MINUS_P);
    ghost var d := h[..];
    TopLimb(d);
    FreezeChoice(Value(a, 256), Value(d, 256), d[16], Value(d[..16], 256));
    Choose(h, g, h[16] / 128);
  }

  /** h ^ (s & (g ^ h)), which is g when s is all ones and h when it is zero. */
  method Choose(h: array<int>, g: array<int>, s: int)
    requires h.Length == g.Length == 17 && h != g
    modifies h
    ensures h[..] == if s == 1 then g[..] else old(h[..])
  {
    for j := 0 to 17
      invariant forall k :: 0 <= k < j ==> h[k] == if s == 1 then g[k] else old(h[k])
      invariant forall k :: j <= k < 17 ==> h[k] == old(h[k])
    {
      if s == 1 {
        h[j] := g[j];
      }
    }
  }

  // ---- the authenticator ----

  /** The main loop. */
  method Absorb(h: array<int>, r: seq<int>, m: seq<int>)
    requires h.Length == 17 && |r| == 17 && Digits(r, 256) && Digits(m, 256)
    requires Accumulator(h[..])
    modifies h
    ensures Accumulator(h[..])
    ensures Value(h[..], 256) % P1305 == Accumulate(old(Value(h[..], 256)) % P1305, m, Value(r, 256))
  {
    ghost var start, rn := Value(h[..], 256) % P1305, Value(r, 256);
    var pos := 0;
    assert m[0..] == m;
    while pos < |m|
      invariant 0 <= pos <= |m| && Accumulator(h[..])
      invariant Accumulate(Value(h[..], 256) % P1305, m[pos..], rn) == Accumulate(start, m, rn)
      decreases |m| - pos
    {
      ghost var a, rest := Value(h[..], 256), m[pos..];
      var n := Block(h, r, m[pos..]);
      NextResidue(a, Value(h[..], 256), BlockNumber(rest), rn, P1305);
      assert rest[n..] == m[pos + n..];
      pos := pos + n;
    }
  }

  /** The steps after the main loop: freeze, add the second half of the key, keep sixteen bytes. */
  method Finish(h: array<int>, k: seq<int>) returns (out: array<int>)
    requires h.Length == 17 && |k| == 32 && Digits(k, 256) && Accumulator(h[..])
    modifies h
    ensures fresh(out) && out.Length == 16 && Digits(out[..], 256)
    ensures Value(out[..], 256) == (old(Value(h[..], 256)) % P1305 + Value(k[16..], 256)) % TWO128
  {
    Freeze(h);
    ghost var acc, s := Value(h[..], 256), k[16..];
    var c := k[16..] + [0];
    Weights();
    ValueSnoc(s, 0, 256, TWO128);
    Add1305(h, c);
    SixteenBytes(h[..], acc, s);
    out := new int[16];
    ghost var sum := h[..];
    for j := 0 to 16
      invariant out[..j] == h[..j] && h[..] == sum
    {
      out[j] := h[j];
    }
    assert out[..] == h[..][..16];
  }

  lemma SixteenBytes(h: seq<int>, acc: int, s: seq<int>)
    requires |h| == 17 && Digits(h, 256) && |s| == 16 && Digits(s, 256) && 0 <= acc < P1305
    requires Value(h, 256) == (acc + Value(s, 256)) % TWO136
    ensures Value(h[..16], 256) == (acc + Value(s, 256)) % TWO128
  {
    Weights();
    ValueOfDigits(s, 256);
    FloorUnique(acc + Value(s, 256), TWO136, 0, acc + Value(s, 256));
    TopLimb(h);
    FloorUnique(acc + Value(s, 256), TWO128, h[16], Value(h[..16], 256));
  }

  /** crypto_onetimeauth: the 16-byte tag of RFC 8439. */
  method OneTimeAuth(m: seq<int>, k: seq<int>) returns (out: array<int>)
    requires |k| == 32 && Digits(k, 256) && Digits(m, 256)
    ensures fresh(out) && out.Length == 16 && Digits(out[..], 256)
    ensures Value(out[..], 256) == Tag(m, k)
  {
    var r := ClampedLimbs(k);
    var h := new int[17](_ => 0);
    ValueZeros(h[..], 256);
    Absorb(h, r[..], m);
    AccumulateFromZero(m, Value(Clamped(k), 256));
    out := Finish(h, k);
  }

  /** A step may be taken on the residue. */
  lemma NextResidue(a: int, a': int, c: int, r: int, p: int)
    requires p > 0 && Cong(a', (a + c) * r, p)
    ensures ((a % p + c) * r) % p == a' % p
  {
    CongMod(a, p);
    CongAdd(a % p, a, c, c, p);
    CongMul(a % p + c, a + c, r, r, p);
  }

  /** The key loading at the start of crypto_onetimeauth: r in seventeen limbs, clamped. */
  method ClampedLimbs(k: seq<int>) returns (r: array<int>)
    requires |k| == 32 && Digits(k, 256)
    ensures fresh(r) && r.Length == 17 && Digits(r[..], 256)
    ensures Value(r[..], 256) == Value(Clamped(k), 256)
  {
    r := new int[17](_ => 0);
    for j := 0 to 16
      invariant forall i :: 0 <= i < 17 ==> r[i] == if i < j then k[i] else 0
    {
      r[j] := k[j];
    }
    Clamp(r);
    ghost var c := Clamped(k);
    assert r[..] == c + [0] by {
      assert forall j :: 0 <= j < 16 ==> r[j] == c[j];
    }
    ValueSnoc(c, 0, 256, Pow(256, 16));
  }

  /** The bytes before place `n` are clamped, the others as they were. */
  ghost predicate ClampedTo(r: seq<int>, k: seq<int>, n: nat) {
    && |r| == |k| == 17 && n <= 16 && Digits(r, 256)
    && forall j :: 0 <= j < 17 ==> r[j] == if j < n then ClampByte(j, k[j]) else k[j]
  }

  /** The places from `from` up to `i` are not clamped. */
  ghost predicate NextClamped(from: nat, i: nat) {
    from <= i < 16 && forall j, x :: from <= j < i ==> ClampByte(j, x) == x
  }

  lemma ClampedStep(r: seq<int>, k: seq<int>, from: nat, i: nat)
    requires ClampedTo(r, k, from) && NextClamped(from, i)
    ensures ClampedTo(r[i := ClampByte(i, r[i])], k, i + 1)
  {}

  /** r[i] &= 15 */
  method ClearHigh(r: array<int>, i: nat, ghost k: seq<int>, ghost from: nat)
    requires ClampedTo(r[..], k, from) && NextClamped(from, i) && (i == 3 || i == 7 || i == 11 || i == 15)
    modifies r
    ensures ClampedTo(r[..], k, i + 1)
  {
    ClampedStep(r[..], k, from, i);
    r[i] := r[i] % 16;
  }

  /** r[i] &= 252 */
  method ClearLow(r: array<int>, i: nat, ghost k: seq<int>, ghost from: nat)
    requires ClampedTo(r[..], k, from) && NextClamped(from, i) && (i == 4 || i == 8 || i == 12)
    modifies r
    ensures ClampedTo(r[..], k, i + 1)
  {
    ClampedStep(r[..], k, from, i);
    r[i] := r[i] - r[i] % 4;
  }

  /** Clearing the bits of r, in place. */
  method Clamp(r: array<int>)
    requires r.Length == 17 && Digits(r[..], 256)
    modifies r
    ensures ClampedTo(r[..], old(r[..]), 16)
  {
    ghost var k := r[..];
    ClearHigh(r, 3, k, 0);
    ClearLow(r, 4, k, 4);
    ClearHigh(r, 7, k, 5);
    ClearLow(r, 8, k, 8);
    ClearHigh(r, 11, k, 9);
    ClearLow(r, 12, k, 12);
    ClearHigh(r, 15, k, 13);
  }
}
