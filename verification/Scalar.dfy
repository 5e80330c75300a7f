// Reduction of scalars modulo the order of the base point.

module Scalar {
  import opened Radix
  import opened Field25519

  /** The order of the base point, 2^252 + 27742317777372353535851937790883648493. */
  const ORDER := 0x1000000000000000000000000000000014def9dea2f79cd65812631a5cf5d3ed
  /** The part of the order below 2^252. */
  const ORDER_LOW := 0x14def9dea2f79cd65812631a5cf5d3ed
  const ORDER_GAP: seq<int> := [0, 0, 0, 0, 0, 0, 0, 0, 0, 0, 0, 0, 0, 0, 0]
  const ORDER_BYTES: seq<int> := [
    0xed, 0xd3, 0xf5, 0x5c, 0x1a, 0x63, 0x12, 0x58, 0xd6, 0x9c, 0xf7, 0xa2, 0xde, 0xf9, 0xde, 0x14]
    + ORDER_GAP + [0x10]
  /** 2^248, the weight of byte 31. */
  const TOP := 0x100000000000000000000000000000000000000000000000000000000000000

  // ---- the bytes of the order ----

  /** The first `i` bytes of the order have value `v`, and the next has weight `w`. */
  ghost predicate OrderPrefix(i: nat, v: int, w: int) {
    i < 32 && Value(ORDER_BYTES[..i], 256) == v && Pow(256, i) == w
  }

  lemma OrderStep(i: nat, d: int, v: int, w: int, v': int)
    requires i < 31 && OrderPrefix(i, v, w) && ORDER_BYTES[i] == d && v' == v + d * w
    ensures OrderPrefix(i + 1, v', 256 * w)
  {
    ValuePrefix(ORDER_BYTES, i, 256, w);
  }

  lemma OrderPrefix4()
    ensures OrderPrefix(4, 0x5cf5d3ed, 0x100000000)
  {
    OrderStep(0, 0xed, 0, 0x1, 0xed);
    OrderStep(1, 0xd3, 0xed, 0x100, 0xd3ed);
    OrderStep(2, 0xf5, 0xd3ed, 0x10000, 0xf5d3ed);
    OrderStep(3, 0x5c, 0xf5d3ed, 0x1000000, 0x5cf5d3ed);
  }

  lemma OrderPrefix8()
    ensures OrderPrefix(8, 0x5812631a5cf5d3ed, 0x10000000000000000)
  {
    OrderPrefix4();
    OrderStep(4, 0x1a, 0x5cf5d3ed, 0x100000000, 0x1a5cf5d3ed);
    OrderStep(5, 0x63, 0x1a5cf5d3ed, 0x10000000000, 0x631a5cf5d3ed);
    OrderStep(6, 0x12, 0x631a5cf5d3ed, 0x1000000000000, 0x12631a5cf5d3ed);
    OrderStep(7, 0x58, 0x12631a5cf5d3ed, 0x100000000000000, 0x5812631a5cf5d3ed);
  }

  lemma OrderPrefix12()
    ensures OrderPrefix(12, 0xa2f79cd65812631a5cf5d3ed, 0x1000000000000000000000000)
  {
    OrderPrefix8();
    OrderStep(8, 0xd6, 0x5812631a5cf5d3ed, 0x10000000000000000, 0xd65812631a5cf5d3ed);
    OrderStep(9, 0x9c, 0xd65812631a5cf5d3ed, 0x1000000000000000000, 0x9cd65812631a5cf5d3ed);
    OrderStep(10, 0xf7, 0x9cd65812631a5cf5d3ed, 0x100000000000000000000, 0xf79cd65812631a5cf5d3ed);
    OrderStep(11, 0xa2, 0xf79cd65812631a5cf5d3ed, 0x10000000000000000000000, 0xa2f79cd65812631a5cf5d3ed);
  }

  lemma OrderPrefix16()
    ensures OrderPrefix(16, 0x14def9dea2f79cd65812631a5cf5d3ed, 0x100000000000000000000000000000000)
  {
    OrderPrefix12();
    OrderStep(12, 0xde, 0xa2f79cd65812631a5cf5d3ed, 0x1000000000000000000000000, 0xdea2f79cd65812631a5cf5d3ed);
    OrderStep(13, 0xf9, 0xdea2f79cd65812631a5cf5d3ed, 0x100000000000000000000000000, 0xf9dea2f79cd65812631a5cf5d3ed);
    OrderStep(14, 0xde, 0xf9dea2f79cd65812631a5cf5d3ed, 0x10000000000000000000000000000, 0xdef9dea2f79cd65812631a5cf5d3ed);
    OrderStep(15, 0x14, 0xdef9dea2f79cd65812631a5cf5d3ed, 0x1000000000000000000000000000000, 0x14def9dea2f79cd65812631a5cf5d3ed);
  }

  lemma TopWeight()
    ensures Pow(256, 31) == TOP && Pow(256, 32) == TWO256
  {
    OrderPrefix16();
    PowAdd(256, 16, 16);
    assert Pow(256, 32) == 256 * Pow(256, 31);
  }

  lemma OrderByte(k: nat)
    requires k < 32
    ensures 0 <= ORDER_BYTES[k] <= 255
  {}

  /** The first 16, 20 and 31 bytes stand for the low part, all 32 for the order. */
  lemma OrderPrefixes()
    ensures Value(ORDER_BYTES[..20], 256) == ORDER_LOW
    ensures Value(ORDER_BYTES, 256) == ORDER
  {
    OrderPrefix16();
    TopWeight();
    var p, z := Pow(256, 16), ORDER_BYTES[16..31];
    assert z == ORDER_GAP;
    ValueZeros(z, 256);
    ValueZeros(z[..4], 256);
    assert ORDER_BYTES[..20] == ORDER_BYTES[..16] + z[..4];
    ValueConcat(ORDER_BYTES[..16], z[..4], 256, p);
    assert ORDER_BYTES[..31] == ORDER_BYTES[..16] + z;
    ValueConcat(ORDER_BYTES[..16], z, 256, p);
    assert ORDER_BYTES == ORDER_BYTES[..31] + [0x10];
    ValueSnoc(ORDER_BYTES[..31], 0x10, 256, TOP);
  }

  // ---- one step of the long division ----

  /** Limb bounds: what the callers pass in, and what the first loop works with. */
  const FRESH := 0x200000
  const TOUCHED := 0x204000

  /** The limbs when the loop has come down to index `i`: nothing above, signed bytes
      where earlier rounds have carried, limbs as given below that. */
  ghost predicate Dividing(x: seq<int>, i: int) {
    && |x| == 64 && 31 <= i <= 63
    && (forall k :: i < k < 64 ==> x[k] == 0)
    && (forall k :: 0 <= k <= i ==> -TOUCHED <= x[k] <= TOUCHED)
    && (i == 63 ==> forall k :: 0 <= k <= 63 ==> -FRESH <= x[k] <= FRESH)
    && (i < 63 ==> forall k :: i - 31 <= k <= i - 12 ==> -128 <= x[k] <= 127)
    && (i < 63 ==> forall k :: i - 11 <= k <= i && k <= 50 ==> -129 <= x[k] <= 128)
  }

  /** Bound on the carry into inner step `t`; it dies out over the zero bytes of the order. */
  function CarryBound(t: nat, first: bool): int {
    if t <= 16 then 17 * TOUCHED
    else if t == 17 then if first then 148609 else 140354
    else if t == 18 then if first then 8838 else 551
    else if t == 19 then if first then 8292 else 3
    else if first then 8291 else 1
  }

  /** The limbs within round `i`, inner step `t`, where `s` are the limbs before the round. */
  ghost predicate Round(x: seq<int>, s: seq<int>, i: int, t: nat, carry: int) {
    && |x| == |s| == 64 && 32 <= i <= 63 && t <= 20
    && (forall k :: 0 <= k < i - 32 || i - 32 + t <= k < 64 ==> x[k] == s[k])
    && (forall k :: i - 32 <= k < i - 32 + t ==> -128 <= x[k] <= 127)
    && -CarryBound(t, i == 63) <= carry <= CarryBound(t, i == 63)
  }

  lemma CarryShrinks(t: nat, first: bool, x: int, carry: int, y: int)
    requires t < 20 && -CarryBound(t, first) <= carry <= CarryBound(t, first)
    requires if t < 16 then -4080 * TOUCHED <= y <= 4080 * TOUCHED else y == 0
    requires t < 16 ==> -TOUCHED <= x <= TOUCHED
    requires t >= 16 ==> if first then -FRESH <= x <= FRESH else -129 <= x <= 128
    ensures -CarryBound(t + 1, first) <= (x + (carry - y) + 128) / 256 <= CarryBound(t + 1, first)
    ensures I64(x + (carry - y))
  {}

  /** Sixteen times a limb times a byte of the order. */
  lemma SubtrahendBound(top: int, t: nat)
    requires -TOUCHED <= top <= TOUCHED && t < 20
    ensures if t < 16 then -4080 * TOUCHED <= 16 * top * ORDER_BYTES[t] <= 4080 * TOUCHED
            else 16 * top * ORDER_BYTES[t] == 0
  {
    var d := ORDER_BYTES[t];
    if t < 16 {
      assert 0 <= d <= 255;
      ProductMagnitude(top, d, TOUCHED, 255);
      assert 16 * top * d == 16 * (top * d);
    } else {
      assert d == 0;
    }
  }

  lemma RoundStep(x: seq<int>, s: seq<int>, i: int, t: nat, carry: int, v: int, out: int)
    requires t < 20 && Dividing(s, i) && Round(x, s, i, t, carry)
    requires v == x[i - 32 + t] + (carry - 16 * s[i] * ORDER_BYTES[t]) && out == (v + 128) / 256
    ensures Round(x[i - 32 + t := v - 256 * out], s, i, t + 1, out)
    ensures I64(v)
  {
    SubtrahendBound(s[i], t);
    CarryShrinks(t, i == 63, x[i - 32 + t], carry, 16 * s[i] * ORDER_BYTES[t]);
  }

  /** The value within a round: the part of 16 * x[i] * ORDER already subtracted, and the
      carry still in hand. */
  lemma RoundValue(x: seq<int>, i: int, t: nat, carry: int, v: int, out: int, y: int, start: int,
                   base: int, wt: int, wj: int)
    requires |x| == 64 && 32 <= i <= 63 && t < 20
    requires base == Pow(256, i - 32) && wt == Pow(256, t) && wj == Pow(256, i - 32 + t)
    requires v == x[i - 32 + t] + (carry - y * ORDER_BYTES[t])
    requires Value(x, 256) + carry * wj == start - y * base * Value(ORDER_BYTES[..t], 256)
    ensures Value(x[i - 32 + t := v - 256 * out], 256) + out * (256 * wj)
         == start - y * base * Value(ORDER_BYTES[..t + 1], 256)
  {
    var j, part := i - 32 + t, Value(ORDER_BYTES[..t], 256);
    var d := v - 256 * out - x[j];
    assert x[j := x[j] + d] == x[j := v - 256 * out];
    ValueAdd(x, j, d, 256, wj);
    ValuePrefix(ORDER_BYTES, t, 256, wt);
    PowAdd(256, i - 32, t);
    RoundArithmetic(carry, out, y, ORDER_BYTES[t], base, wt, wj, part, d);
  }

  lemma RoundArithmetic(carry: int, out: int, y: int, d: int, base: int, wt: int, wj: int, part: int, delta: int)
    requires wj == base * wt && delta == carry - y * d - 256 * out
    ensures delta * wj + out * (256 * wj) - carry * wj == y * base * part - y * base * (part + d * wt)
  {
    var q := y * d;
    assert delta * wj == carry * wj - q * wj - (256 * out) * wj;
    assert y * base * (part + d * wt) == y * base * part + y * base * (d * wt);
    assert q * wj == y * base * (d * wt);
  }

  /** Closing a round: the last carry goes into limb `i - 12` and limb `i` is cleared. */
  lemma RoundEnd(x: seq<int>, s: seq<int>, i: int, carry: int)
    requires Dividing(s, i) && Round(x, s, i, 20, carry)
    ensures Dividing(x[i - 12 := x[i - 12] + carry][i := 0], i - 1)
  {}

  lemma RoundEndValue(x: seq<int>, s: seq<int>, i: int, carry: int, start: int)
    requires 32 <= i && Progress(x, s, i, 20, carry, start)
    ensures Cong(Value(x[i - 12 := x[i - 12] + carry][i := 0], 256), start, ORDER)
  {
    var base, top := Pow(256, i - 32), x[i];
    var y := x[i - 12 := x[i - 12] + carry];
    OrderPrefixes();
    TopWeight();
    ValueAdd(x, i - 12, carry, 256, Pow(256, i - 12));
    PowAdd(256, i - 32, 32);
    ValueAdd(y, i, -top, 256, base * TWO256);
    assert y[i := y[i] + -top] == y[i := 0];
    assert Value(y, 256) == start - 16 * top * base * ORDER_LOW;
    EliminatedMultiple(top, base, start, Value(y, 256), Value(y[i := 0], 256));
    CongShift(Value(y[i := 0], 256), start, -16 * top * base, ORDER);
  }

  lemma EliminatedMultiple(top: int, base: int, start: int, v: int, u: int)
    requires v == start - 16 * top * base * ORDER_LOW && u == v + -top * (base * TWO256)
    ensures u == start + -16 * top * base * ORDER
  {
    var y := top * base;
    assert top * (base * TWO256) == y * TWO256;
    assert 16 * top * base == 16 * y;
  }

  /** Within round `i`: bounds and value after `t` inner steps. */
  ghost predicate Progress(x: seq<int>, s: seq<int>, i: int, t: nat, carry: int, start: int) {
    && Dividing(s, i) && Round(x, s, i, t, carry)
    && Value(x, 256) + carry * Pow(256, i - 32 + t)
       == start - 16 * s[i] * Pow(256, i - 32) * Value(ORDER_BYTES[..t], 256)
  }

  lemma ProgressStep(x: seq<int>, s: seq<int>, i: int, t: nat, carry: int, start: int, v: int, out: int)
    requires t < 20 && Progress(x, s, i, t, carry, start)
    requires v == x[i - 32 + t] + (carry - 16 * s[i] * ORDER_BYTES[t]) && out == (v + 128) / 256
    ensures I64(v) && Progress(x[i - 32 + t := v - 256 * out], s, i, t + 1, out, start)
  {
    RoundStep(x, s, i, t, carry, v, out);
    RoundValue(x, i, t, carry, v, out, 16 * s[i], start, Pow(256, i - 32), Pow(256, t), Pow(256, i - 32 + t));
  }

  /** The inner loop body of modL at x[j], with the carry in and out. */
  method InnerStep(x: array<int>, i: int, j: nat, carry: int, ghost t: nat, ghost s: seq<int>, ghost start: int)
    returns (out: int)
    requires x.Length == 64 && 32 <= i <= 63 && j == i - 32 + t && t < 20
    requires Progress(x[..], s, i, t, carry, start)
    modifies x
    ensures Progress(x[..], s, i, t + 1, out, start)
  {
    assert x[..][i] == s[i];
    var v := x[j] + (carry - 16 * x[i] * ORDER_BYTES[j - (i - 32)]);
    out := (v + 128) / 256;
    ProgressStep(x[..], s, i, t, carry, start, v, out);
    SetLimb(x, j, v, out);
  }

  /** x[j] before its carry is taken off, and after. */
  method SetLimb(x: array<int>, j: nat, v: int, out: int)
    requires j < x.Length && I64(v)
    modifies x
    ensures x[..] == old(x[..])[j := v - 256 * out]
  {
    x[j] := v;
    x[j] := x[j] - out * 256;
  }

  /** One round of the first loop of modL: 16 * x[i] times the order, shifted, is subtracted
      so that limb `i` vanishes. */
  method Eliminate(x: array<int>, i: int)
    requires x.Length == 64 && 32 <= i <= 63 && Dividing(x[..], i)
    modifies x
    ensures Dividing(x[..], i - 1)
    ensures Cong(Value(x[..], 256), old(Value(x[..], 256)), ORDER)
  {
    ghost var s, start := x[..], Value(x[..], 256);
    var carry, j := 0, i - 32;
    ProgressStart(s, i);
    while j < i - 12
      invariant i - 32 <= j <= i - 12
      invariant Progress(x[..], s, i, j - (i - 32), carry, start)
    {
      carry := InnerStep(x, i, j, carry, j - (i - 32), s, start);
      j := j + 1;
    }
    ghost var y := x[..];
    RoundEnd(y, s, i, carry);
    RoundEndValue(y, s, i, carry, start);
    x[j] := x[j] + carry;
    x[i] := 0;
    assert x[..] == y[i - 12 := y[i - 12] + carry][i := 0];
  }

  lemma ProgressStart(s: seq<int>, i: int)
    requires 32 <= i && Dividing(s, i)
    ensures Progress(s, s, i, 0, 0, Value(s, 256))
  {
    assert ORDER_BYTES[..0] == [];
  }

  // ---- the last multiple of the order ----

  /** The second loop of modL before index `j`: `q` times the order is being subtracted
      from the 32 limbs `s`, the result written as bytes. */
  ghost predicate Subtracting(x: seq<int>, s: seq<int>, q: int, j: nat, carry: int) {
    && |x| == |s| == 32 && j <= 32 && -9 <= q <= 8 && -10 <= carry <= 10
    && (forall k :: 0 <= k < 32 ==> -129 <= s[k] <= 128)
    && (forall k :: 0 <= k < j ==> 0 <= x[k] < 256)
    && (forall k :: j <= k < 32 ==> x[k] == s[k])
    && Value(x, 256) + carry * Pow(256, j) == Value(s, 256) - q * Value(ORDER_BYTES[..j], 256)
  }

  lemma SubtractingStart(s: seq<int>, q: int)
    requires |s| == 32 && q == s[31] / 16 && forall k :: 0 <= k < 32 ==> -129 <= s[k] <= 128
    ensures Subtracting(s, s, q, 0, 0)
  {
    assert ORDER_BYTES[..0] == [];
  }

  lemma SubtractingStep(x: seq<int>, s: seq<int>, q: int, j: nat, carry: int, v: int)
    requires j < 32 && Subtracting(x, s, q, j, carry)
    requires v == x[j] + (carry - q * ORDER_BYTES[j])
    ensures Subtracting(x[j := v % 256], s, q, j + 1, v / 256) && I64(v)
  {
    SubtractedValue(x, q, j, carry, v, v % 256, v / 256, Value(s, 256), Pow(256, j));
    OrderByte(j);
    ProductMagnitude(q, ORDER_BYTES[j], 9, 255);
  }

  lemma SubtractedValue(x: seq<int>, q: int, j: nat, carry: int, v: int, low: int, out: int, start: int, w: int)
    requires |x| == 32 && j < 32 && w == Pow(256, j)
    requires v == x[j] + (carry - q * ORDER_BYTES[j]) && v == low + 256 * out
    requires Value(x, 256) + carry * w == start - q * Value(ORDER_BYTES[..j], 256)
    ensures Value(x[j := low], 256) + out * (256 * w) == start - q * Value(ORDER_BYTES[..j + 1], 256)
  {
    var delta := low - x[j];
    assert x[j := x[j] + delta] == x[j := low];
    ValueAdd(x, j, delta, 256, w);
    ValuePrefix(ORDER_BYTES, j, 256, w);
    RoundArithmetic(carry, out, q, ORDER_BYTES[j], 1, w, w, Value(ORDER_BYTES[..j], 256), delta);
  }

  /** The second loop of modL. */
  method SubtractQuotient(x: array<int>) returns (carry: int)
    requires x.Length == 64 && Dividing(x[..], 31)
    modifies x
    ensures Subtracting(x[..32], old(x[..32]), old(x[31]) / 16, 32, carry)
    ensures x[32] == 0
  {
    ghost var s, q := x[..32], x[31] / 16;
    carry := 0;
    SubtractingStart(s, q);
    for j := 0 to 32
      invariant Subtracting(x[..32], s, q, j, carry) && x[32] == 0
    {
      ghost var y := x[..32];
      assert x[31] == y[31] == s[31];
      var v := x[j] + (carry - (x[31] / 16) * ORDER_BYTES[j]);
      SubtractingStep(y, s, q, j, carry, v);
      x[j] := v;
      carry := x[j] / 256;
      x[j] := x[j] % 256;
      assert x[..32] == y[j := v % 256];
    }
  }

  /** The third loop of modL: adds the order back when the subtraction went below zero. */
  method AddBack(x: array<int>, carry: int)
    requires x.Length == 64 && Digits(x[..32], 256) && -10 <= carry <= 10 && x[32] == 0
    modifies x
    ensures x[32] == 0 && forall k :: 0 <= k < 32 ==> -3000 <= x[k] <= 3000
    ensures Value(x[..32], 256) == old(Value(x[..32], 256)) - carry * ORDER
  {
    ghost var s := x[..32];
    for j := 0 to 32
      invariant forall k :: 0 <= k < j ==> x[k] == s[k] + -carry * ORDER_BYTES[k] && -3000 <= x[k] <= 3000
      invariant forall k :: j <= k < 32 ==> x[k] == s[k]
      invariant x[32] == 0
    {
      AddBackBound(carry, j);
      assert s[j] == x[j];
      x[j] := x[j] - carry * ORDER_BYTES[j];
    }
    OrderPrefixes();
    ValueLinear(s, ORDER_BYTES, x[..32], -carry, 256);
  }

  lemma AddBackBound(carry: int, j: nat)
    requires -10 <= carry <= 10 && j < 32
    ensures -2550 <= carry * ORDER_BYTES[j] <= 2550
    ensures -carry * ORDER_BYTES[j] == -(carry * ORDER_BYTES[j])
  {
    OrderByte(j);
    ProductMagnitude(carry, ORDER_BYTES[j], 10, 255);
  }

  // ---- writing the bytes out ----

  /** Bytes written below `i`, limbs still to be written from `i` on. */
  ghost predicate Writing(u: seq<int>, i: nat, v: int) {
    && |u| == 33 && i <= 32 && Value(u, 256) == v
    && (forall k :: 0 <= k < i ==> 0 <= u[k] < 256)
    && -3020 <= u[i] <= 3020
    && (forall k :: i < k < 33 ==> -3000 <= u[k] <= 3000)
  }

  lemma WritingStep(u: seq<int>, i: nat, v: int)
    requires i < 32 && Writing(u, i, v)
    ensures Writing(u[i := u[i] % 256][i + 1 := u[i + 1] + u[i] / 256], i + 1, v)
  {
    var c, w := u[i] / 256, Pow(256, i);
    var out := -(256 * c);
    var t := u[i := u[i] + out];
    assert u[i] % 256 == u[i] + out;
    ValueAdd(u, i, out, 256, w);
    ValueAdd(t, i + 1, c, 256, 256 * w);
    ByteWeights(c, out, w);
  }

  lemma ByteWeights(c: int, out: int, w: int)
    requires out == -(256 * c)
    ensures out * w + c * (256 * w) == 0
  {
    assert c * (256 * w) == (256 * c) * w;
  }

  lemma WritingEnd(u: seq<int>, v: int)
    requires Writing(u, 32, v)
    ensures Digits(u[..32], 256) && Value(u[..32], 256) == v % TWO256
  {
    TopWeight();
    assert u == u[..32] + [u[32]];
    ValueSnoc(u[..32], u[32], 256, TWO256);
    ValueOfDigits(u[..32], 256);
    FloorUnique(v, TWO256, u[32], Value(u[..32], 256));
  }

  /** One byte written, and the rest of the limb carried up. */
  method WriteByte(r: array<int>, at: nat, x: array<int>, i: nat, ghost u: seq<int>, ghost v: int) returns (ghost next: seq<int>)
    requires at + 32 <= r.Length && x.Length == 64 && r != x && i < 32
    requires Writing(u, i, v) && u[..i] == r[at..at + i] && u[i..] == x[i..33]
    modifies r, x
    ensures Writing(next, i + 1, v) && next[..i + 1] == r[at..at + (i + 1)] && next[i + 1..] == x[i + 1..33]
    ensures forall k :: 0 <= k < r.Length && !(at <= k < at + 32) ==> r[k] == old(r[k])
  {
    assert u[i] == u[i..][0] == x[i] && u[i + 1] == u[i..][1] == x[i + 1];
    WritingStep(u, i, v);
    next := u[i := u[i] % 256][i + 1 := u[i + 1] + u[i] / 256];
    x[i + 1] := x[i + 1] + x[i] / 256;
    r[at + i] := x[i] % 256;
    assert next[..i + 1] == u[..i] + [u[i] % 256];
    assert r[at..at + (i + 1)] == r[at..at + i] + [r[at + i]];
    assert next[i + 1..] == [u[i + 1] + u[i] / 256] + u[i + 2..];
    assert u[i + 2..] == u[i..][2..] == x[i + 2..33];
  }

  /** The output loop of modL. */
  method WriteScalar(r: array<int>, at: nat, x: array<int>)
    requires at + 32 <= r.Length && x.Length == 64 && r != x
    requires x[32] == 0 && forall k :: 0 <= k < 32 ==> -3000 <= x[k] <= 3000
    modifies r, x
    ensures Digits(r[at..at + 32], 256)
    ensures Value(r[at..at + 32], 256) == old(Value(x[..32], 256)) % TWO256
    ensures forall k :: 0 <= k < r.Length && !(at <= k < at + 32) ==> r[k] == old(r[k])
  {
    ghost var v := Value(x[..32], 256);
    ghost var u := x[..33];
    assert u == x[..32] + [0];
    ValueSnoc(x[..32], 0, 256, Pow(256, 32));
    for i := 0 to 32
      invariant Writing(u, i, v)
      invariant u[..i] == r[at..at + i] && u[i..] == x[i..33]
      invariant forall k :: 0 <= k < r.Length && !(at <= k < at + 32) ==> r[k] == old(r[k])
    {
      u := WriteByte(r, at, x, i, u, v);
    }
    WritingEnd(u, v);
  }

  // ---- the whole reduction ----

  /** `r` is the 32-byte encoding of `v` modulo the order. */
  ghost predicate ReducedScalar(r: seq<int>, v: int) {
    |r| == 32 && Digits(r, 256) && Value(r, 256) == v % ORDER
  }

  /** Subtracting x[31] / 16 times the order leaves a number between -ORDER and ORDER. */
  lemma QuotientIsClose(s: seq<int>, q: int)
    requires |s| == 32 && q == s[31] / 16 && forall k :: 0 <= k < 32 ==> -129 <= s[k] <= 128
    ensures -ORDER < Value(s, 256) - q * ORDER < ORDER
  {
    TopWeight();
    ValueMagnitude(s[..31], 256, 129);
    assert s[31] == 16 * q + s[31] % 16;
  }

  /** What the carry out of the second loop tells, and what adding back leaves. */
  lemma FinalValue(v: int, low: int, carry: int, r: int)
    requires -ORDER < v < ORDER && 0 <= low < TWO256 && v == low + carry * TWO256
    requires r == (low - carry * ORDER) % TWO256
    ensures r == v % ORDER && carry == if v < 0 then -1 else 0
  {
    FloorUnique(v, TWO256, carry, low);
    if v < 0 {
      FloorUnique(v, TWO256, -1, v + TWO256);
      FloorUnique(low + ORDER, TWO256, 1, v + ORDER);
      FloorUnique(v, ORDER, -1, v + ORDER);
    } else {
      FloorUnique(v, TWO256, 0, v);
      FloorUnique(v, ORDER, 0, v);
    }
  }

  /** The first loop of modL. */
  method DivideDown(x: array<int>)
    requires x.Length == 64 && forall k :: 0 <= k < 64 ==> -FRESH <= x[k] <= FRESH
    modifies x
    ensures Dividing(x[..], 31)
    ensures Cong(Value(x[..], 256), old(Value(x[..], 256)), ORDER)
  {
    ghost var start := Value(x[..], 256);
    var i := 63;
    while i >= 32
      invariant 31 <= i <= 63 && Dividing(x[..], i)
      invariant Cong(Value(x[..], 256), start, ORDER)
    {
      Eliminate(x, i);
      i := i - 1;
    }
  }

  /** modL: the canonical scalar congruent to the limbs. */
  method ModL(r: array<int>, at: nat, x: array<int>)
    requires at + 32 <= r.Length && x.Length == 64 && r != x
    requires forall k :: 0 <= k < 64 ==> -FRESH <= x[k] <= FRESH
    modifies r, x
    ensures ReducedScalar(r[at..at + 32], old(Value(x[..], 256)))
    ensures forall k :: 0 <= k < r.Length && !(at <= k < at + 32) ==> r[k] == old(r[k])
  {
    DivideDown(x);
    DividedValue(x[..]);
    ghost var s, q := x[..32], x[31] / 16;
    var carry := SubtractQuotient(x);
    ghost var low := Value(x[..32], 256);
    SubtractedDigits(x[..32], s, q, carry);
    WholeOrder();
    SubtractedOrder(x[..32], s, q, carry, TWO256, ORDER);
    QuotientIsClose(s, q);
    AddBack(x, carry);
    WriteScalar(r, at, x);
    FinalValue(Value(s, 256) - q * ORDER, low, carry, Value(r[at..at + 32], 256));
    CongShift(Value(s, 256) - q * ORDER, Value(s, 256), -q, ORDER);
  }

  lemma WholeOrder()
    ensures Pow(256, 32) == TWO256 && Value(ORDER_BYTES[..32], 256) == ORDER
  {
    OrderPrefixes();
    TopWeight();
    assert ORDER_BYTES[..32] == ORDER_BYTES;
  }

  lemma SubtractedDigits(x: seq<int>, s: seq<int>, q: int, carry: int)
    requires Subtracting(x, s, q, 32, carry)
    ensures 0 <= Value(x, 256) < TWO256
  {
    TopWeight();
    ValueOfDigits(x, 256);
  }

  lemma SubtractedOrder(x: seq<int>, s: seq<int>, q: int, carry: int, top: int, order: int)
    requires Subtracting(x, s, q, 32, carry) && top == Pow(256, 32) && order == Value(ORDER_BYTES[..32], 256)
    ensures Value(x, 256) + carry * top == Value(s, 256) - q * order
  {}

  lemma DividedValue(x: seq<int>)
    requires Dividing(x, 31)
    ensures Value(x, 256) == Value(x[..32], 256)
    ensures forall k :: 0 <= k < 32 ==> -129 <= x[k] <= 128
  {
    ValueSplit(x, 32, 256, Pow(256, 32));
    ValueZeros(x[32..], 256);
  }

  /** reduce: a 64-byte hash to a scalar, in place; the upper half becomes zero. */
  method Reduce(r: array<int>)
    requires r.Length == 64 && Digits(r[..], 256)
    modifies r
    ensures ReducedScalar(r[..32], old(Value(r[..], 256)))
    ensures forall k :: 32 <= k < 64 ==> r[k] == 0
  {
    var x := new int[64];
    for i := 0 to 64
      invariant x[..i] == r[..i] && r[..] == old(r[..])
    {
      x[i] := r[i];
    }
    assert x[..] == r[..];
    for i := 0 to 64
      invariant forall k :: 0 <= k < i ==> r[k] == 0
      invariant x[..] == old(r[..])
    {
      r[i] := 0;
    }
    ModL(r, 0, x);
    assert r[0..0 + 32] == r[..32];
  }
}
