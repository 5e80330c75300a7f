// Canonical packing of field elements into 32 bytes, unpacking, and the comparisons
// that are made on packed elements.

module Packing {
  import opened Radix
  import opened Field25519

  // ---- subtracting the prime ----

  /** One limb of the subtraction of p: the borrow out of limb `i - 1` is made good there
      and charged to limb `i`. */
  lemma BorrowStep(s: seq<int>, masked: int, borrow: int, d: int, e: int, w: int)
    requires |s| > 0 && masked == s[|s| - 1] + LIMB * borrow && w == Pow(LIMB, |s|)
    ensures Int(s[|s| - 1 := masked] + [d - e - borrow]) == Int(s) + d * w - e * w
  {
    var back, v, top := LIMB * borrow, Pow(LIMB, |s| - 1), d - e - borrow;
    ValueTopTwo(s, back, top, LIMB, v, w);
    BorrowWeights(borrow, back, top, d, e, v, w);
  }

  lemma BorrowWeights(borrow: int, back: int, top: int, d: int, e: int, v: int, w: int)
    requires back == LIMB * borrow && w == LIMB * v && top == d - e - borrow
    ensures back * v + top * w == d * w - e * w
  {
    assert back * v == borrow * w;
  }

  /** The top limb of the difference tells whether p could be subtracted. */
  lemma DifferenceSign(m: seq<int>)
    requires |m| == 16 && Digits(m[..15], LIMB)
    ensures m[15] < 0 <==> Int(m) < 0
    ensures m[15] >= 0 && m[15] < LIMB ==> Digits(m, LIMB)
  {
    ValueOfDigits(m[..15], LIMB);
    var w, top := Pow(LIMB, 15), m[15];
    assert Int(m) == Value(m[..15], LIMB) + top * w;
    if top < 0 {
      assert (-1 - top) * w >= 0;
    } else {
      assert top * w >= 0;
    }
  }

  /** The low `|s|` limbs of `t` less those of p, the last of them not yet masked. */
  ghost predicate Borrowing(s: seq<int>, t: seq<int>) {
    && 1 <= |s| <= |t| == 16
    && Digits(t, LIMB) && Digits(s[..|s| - 1], LIMB) && -LIMB <= s[|s| - 1] < LIMB
    && Int(s) == Int(t[..|s|]) - (Pow(LIMB, |s|) - 19)
  }

  /** The sequence after one more limb, with subtrahend limb `e`. */
  function Borrowed(s: seq<int>, d: int, e: int): seq<int>
    requires |s| > 0
  {
    s[|s| - 1 := s[|s| - 1] % LIMB] + [d - e - (s[|s| - 1] / LIMB) % 2]
  }

  lemma BorrowedValue(s: seq<int>, t: seq<int>, e: int)
    requires Borrowing(s, t) && |s| < 16
    ensures Int(Borrowed(s, t[|s|], e)) == Int(t[..|s| + 1]) - e * Pow(LIMB, |s|) - (Pow(LIMB, |s|) - 19)
  {
    var i, x := |s|, s[|s| - 1];
    var w := Pow(LIMB, i);
    MaskIsBorrow(x);
    BorrowStep(s, x % LIMB, (x / LIMB) % 2, t[i], e, w);
    ValuePrefix(t, i, LIMB, w);
  }

  lemma MaskIsBorrow(x: int)
    requires -LIMB <= x < LIMB
    ensures x % LIMB == x + LIMB * ((x / LIMB) % 2)
    ensures (x / LIMB) % 2 == if x < 0 then 1 else 0
  {
    FloorUnique(x, LIMB, if x < 0 then -1 else 0, if x < 0 then x + LIMB else x);
  }

  lemma BorrowedDigits(s: seq<int>, t: seq<int>, e: int)
    requires Borrowing(s, t) && |s| < 16 && 0x7fff <= e <= 0xffff
    ensures Digits(Borrowed(s, t[|s|], e)[..|s|], LIMB)
    ensures -e - 1 <= Borrowed(s, t[|s|], e)[|s|] < LIMB - e
  {}

  lemma BorrowingStep(s: seq<int>, t: seq<int>)
    requires Borrowing(s, t) && |s| < 15
    ensures Borrowing(Borrowed(s, t[|s|], 0xffff), t)
  {
    BorrowedValue(s, t, 0xffff);
    BorrowedDigits(s, t, 0xffff);
  }

  lemma BorrowingStart(t: seq<int>)
    requires |t| == 16 && Digits(t, LIMB)
    ensures Borrowing([t[0] - 0xffed], t)
  {
    assert Pow(LIMB, 1) == LIMB * Pow(LIMB, 0) == LIMB;
    assert t[..1] == [t[0]];
    assert [t[0]][..0] == [] && [t[0] - 0xffed][..0] == [];
    ValueOfOne(t[0], LIMB);
    ValueOfOne(t[0] - 0xffed, LIMB);
  }

  lemma BorrowingEnd(s: seq<int>, t: seq<int>)
    requires Borrowing(s, t) && |s| == 15
    ensures Int(Borrowed(s, t[15], 0x7fff)) == Int(t) - P
    ensures Digits(Borrowed(s, t[15], 0x7fff)[..15], LIMB)
    ensures -0x8000 <= Borrowed(s, t[15], 0x7fff)[15] < 0x8001
  {
    BorrowedValue(s, t, 0x7fff);
    BorrowedDigits(s, t, 0x7fff);
    assert t[..16] == t;
    TwoTo256();
  }

  /** The subtraction loop of pack25519: `m` becomes `t` minus p, borrows carried into the top limb. */
  method SubtractPrime(m: array<int>, t: array<int>)
    requires m.Length == 16 && t.Length == 16 && m != t && Digits(t[..], LIMB)
    modifies m
    ensures Int(m[..]) == Int(t[..]) - P
    ensures Digits(m[..15], LIMB) && -0x8000 <= m[15] < 0x8001
  {
    m[0] := t[0] - 0xffed;
    var i := 1;
    BorrowingStart(t[..]);
    assert m[..1] == [t[0] - 0xffed];
    while i < 15
      invariant 1 <= i <= 15
      invariant Borrowing(m[..i], t[..])
    {
      ghost var s := m[..i];
      m[i] := t[i] - 0xffff - (m[i - 1] / LIMB) % 2;
      m[i - 1] := m[i - 1] % LIMB;
      BorrowingStep(s, t[..]);
      assert m[..i + 1] == Borrowed(s, t[i], 0xffff);
      i := i + 1;
    }
    ghost var s := m[..15];
    m[15] := t[15] - 0x7fff - (m[14] / LIMB) % 2;
    m[14] := m[14] % LIMB;
    BorrowingEnd(s, t[..]);
    assert m[..] == Borrowed(s, t[15], 0x7fff);
    assert m[..15] == m[..][..15];
  }

  /** What one round of the freezing loop does to a number. */
  function OnceReduced(v: int): int {
    if v >= P then v - P else v
  }

  /** One round of the freezing loop of pack25519. */
  method ReduceOnce(t: array<int>, m: array<int>)
    requires m.Length == 16 && t.Length == 16 && m != t && Digits(t[..], LIMB)
    modifies m, t
    ensures Digits(t[..], LIMB) && Int(t[..]) == OnceReduced(old(Int(t[..])))
  {
    SubtractPrime(m, t);
    ghost var d := m[..];
    assert d[..15] == m[..15];
    DifferenceSign(d);
    ValueOfDigits(t[..], LIMB);
    var b := (m[15] / LIMB) % 2;
    MaskIsBorrow(m[15]);
    Select(t, m, 1 - b);
  }

  /** Two conditional subtractions reduce any 256-bit number fully. */
  lemma TwiceReduced(v: int)
    requires 0 <= v < TWO256
    ensures OnceReduced(OnceReduced(v)) == v % P
  {
    var r := OnceReduced(OnceReduced(v));
    var k := if v < P then 0 else if v - P < P then 1 else 2;
    assert v == k * P + r;
    FloorUnique(v, P, k, r);
  }

  /** Three carry passes: sixteen digits of a number with the same residue. */
  method Normalize(t: array<int>)
    requires t.Length == 16 && Below(t[..], WIDE)
    modifies t
    ensures Digits(t[..], LIMB) && Fe(t[..]) == old(Fe(t[..]))
  {
    ghost var s := t[..];
    Car25519(t);
    ghost var first := t[..];
    FirstPassIsWide(s, first);
    Car25519(t);
    ghost var second := t[..];
    TwoPasses(s, first, second);
    TightIsNarrow(second);
    Car25519(t);
    ThirdPass(second, t[..]);
  }

  /** The bytes written for the limbs `t`, low byte first. */
  ghost predicate BytesOf(r: seq<int>, t: seq<int>) {
    && |r| == 2 * |t|
    && forall k :: 0 <= k < |t| ==> r[2 * k] == t[k] % 256 && r[2 * k + 1] == t[k] / 256
  }

  lemma BytesOfDigits(r: seq<int>, t: seq<int>)
    requires BytesOf(r, t) && Digits(t, LIMB)
    ensures Digits(r, 256) && Value(r, 256) == Int(t)
  {
    forall k | 0 <= k < |r| ensures 0 <= r[k] < 256 {
      assert k == 2 * (k / 2) + k % 2;
      assert 0 <= t[k / 2] < LIMB;
    }
    BytesOfLimbs(t, r);
  }

  /** `r` is the encoding of the reduced field element `v`: 32 bytes, low byte first. */
  ghost predicate Packed(r: seq<int>, v: int) {
    |r| == 32 && Digits(r, 256) && Value(r, 256) == v
  }

  /** `o` holds the low 255 bits of the bytes `n`. */
  ghost predicate Unpacked(o: seq<int>, n: seq<int>) {
    && |o| == 16 && Digits(o, LIMB) && |n| == 32 && Digits(n, 256)
    && Int(o) == Value(n, 256) % (P + 19)
  }

  /** Two elements have the same encoding exactly when they are congruent. */
  lemma EncodingIsCanonical(r: seq<int>, s: seq<int>, a: seq<int>, b: seq<int>)
    requires Packed(r, Fe(a)) && Packed(s, Fe(b))
    ensures r == s <==> Cong(Int(a), Int(b), P)
  {
    if Fe(a) == Fe(b) {
      DigitsUnique(r, s, 256);
    }
  }

  /** Unpacking and packing again gives the same bytes exactly when they encode a number below p. */
  lemma RepackedSame(n: seq<int>, o: seq<int>, r: seq<int>)
    requires Unpacked(o, n) && Packed(r, Fe(o))
    ensures r == n <==> Value(n, 256) < P
  {
    CongMod(Int(o), P);
    ValueOfDigits(n, 256);
    if Value(n, 256) < P {
      FloorUnique(Value(n, 256), P + 19, 0, Value(n, 256));
      FloorUnique(Int(o), P, 0, Int(o));
      DigitsUnique(r, n, 256);
    }
  }

  /** pack25519: the canonical 32 bytes of the element, written at `at`. */
  method Pack25519(o: array<int>, at: nat, n: array<int>)
    requires at + 32 <= o.Length && n.Length == 16 && o != n && Below(n[..], WIDE)
    modifies o
    ensures Packed(o[at..at + 32], Fe(n[..]))
    ensures forall k :: 0 <= k < o.Length && !(at <= k < at + 32) ==> o[k] == old(o[k])
  {
    var t, m := new int[16], new int[16];
    for i := 0 to 16
      invariant t[..i] == n[..i] && o[..] == old(o[..])
    {
      t[i] := n[i];
    }
    assert t[..] == n[..];
    Normalize(t);
    ghost var v := Int(t[..]);
    TwoTo256();
    ValueOfDigits(t[..], LIMB);
    TwiceReduced(v);
    ReduceOnce(t, m);
    ReduceOnce(t, m);
    ghost var limbs := t[..];
    assert o[..] == old(o[..]);
    WriteBytes(o, at, t);
    BytesOfDigits(o[at..at + 32], limbs);
  }

  /** The output loop of pack25519. */
  method WriteBytes(o: array<int>, at: nat, t: array<int>)
    requires at + 32 <= o.Length && t.Length == 16 && o != t
    modifies o
    ensures BytesOf(o[at..at + 32], t[..])
    ensures forall k :: 0 <= k < o.Length && !(at <= k < at + 32) ==> o[k] == old(o[k])
  {
    for i := 0 to 16
      invariant forall k :: 0 <= k < i ==> o[at + 2 * k] == t[k] % 256 && o[at + 2 * k + 1] == t[k] / 256
      invariant forall k :: 0 <= k < o.Length && !(at <= k < at + 32) ==> o[k] == old(o[k])
    {
      o[at + 2 * i] := t[i] % 256;
      o[at + 2 * i + 1] := t[i] / 256;
    }
  }

  /** unpack25519: the limbs of the low 255 bits. */
  method Unpack25519(o: array<int>, n: seq<int>)
    requires o.Length == 16 && |n| == 32 && Digits(n, 256)
    modifies o
    ensures Unpacked(o[..], n)
  {
    for i := 0 to 16
      invariant forall k :: 0 <= k < i ==> o[k] == n[2 * k] + 256 * n[2 * k + 1]
    {
      o[i] := n[2 * i] + n[2 * i + 1] * 256;
    }
    ghost var s := o[..];
    BytesOfLimbs(s, n);
    o[15] := o[15] % 0x8000;
    DropTopBit(s);
    assert o[..] == s[15 := s[15] % 0x8000];
  }

  lemma DropTopBit(s: seq<int>)
    requires |s| == 16 && Digits(s, LIMB)
    ensures Int(s[15 := s[15] % 0x8000]) == Int(s) % (P + 19)
  {
    var q, w := s[15] / 0x8000, Pow(LIMB, 15);
    var t := s[15 := s[15] % 0x8000];
    TwoTo256();
    assert t == s[15 := s[15] + -0x8000 * q];
    ValueAdd(s, 15, -0x8000 * q, LIMB, w);
    assert Int(t) == Int(s) - q * (P + 19);
    ValueOfDigits(t[..15], LIMB);
    DigitTimes(t[15], w, 0x8000);
    FloorUnique(Int(s), P + 19, q, Int(t));
  }

  // ---- comparison ----

  /** vn: 0 when the first `n` bytes agree, -1 otherwise; every byte is looked at. */
  method Verify(x: seq<int>, y: seq<int>, n: nat) returns (r: int)
    requires n <= |x| && n <= |y| && Digits(x[..n], 256) && Digits(y[..n], 256)
    ensures r == if x[..n] == y[..n] then 0 else -1
  {
    var d: int := 0;
    for i := 0 to n
      invariant 0 <= d < 256
      invariant d == 0 <==> x[..i] == y[..i]
    {
      assert x[..n][i] == x[i] && y[..n][i] == y[i];
      AccumulateDifference(d, x[i], y[i]);
      assert x[..i + 1] == x[..i] + [x[i]] && y[..i + 1] == y[..i] + [y[i]];
      d := Or(d, Xor(x[i], y[i]));
    }
    // (1 & ((d - 1) >> 8)) - 1 in 64-bit unsigned arithmetic
    r := (((d - 1) % 0x1_0000_0000_0000_0000) / 256) % 2 - 1;
  }

  lemma AccumulateDifference(d: nat, x: nat, y: nat)
    requires d < 256 && x < 256 && y < 256
    ensures Or(d, Xor(x, y)) < 256
    ensures Or(d, Xor(x, y)) == 0 <==> d == 0 && x == y
  {
    assert Pow(2, 4) == 2 * Pow(2, 3);
    PowAdd(2, 4, 4);
    BitwiseBound(x, y, 8);
    BitwiseBound(d, Xor(x, y), 8);
    XorZero(x, y);
    OrZero(d, Xor(x, y));
  }

  /** neq25519: 0 exactly when the two elements are congruent. */
  method Neq25519(a: array<int>, b: array<int>) returns (r: int)
    requires a.Length == 16 && b.Length == 16 && Below(a[..], WIDE) && Below(b[..], WIDE)
    ensures r == 0 <==> Cong(Int(a[..]), Int(b[..]), P)
  {
    var c, d := new int[32], new int[32];
    Pack25519(c, 0, a);
    Pack25519(d, 0, b);
    assert c[0..32] == c[..][..32] && d[0..32] == d[..][..32];
    EncodingIsCanonical(c[0..32], d[0..32], a[..], b[..]);
    r := Verify(c[..], d[..], 32);
  }

  /** par25519: the low bit of the canonical representative. */
  method Par25519(a: array<int>) returns (r: int)
    requires a.Length == 16 && Below(a[..], WIDE)
    ensures r == Fe(a[..]) % 2
  {
    var d := new int[32];
    Pack25519(d, 0, a);
    LowBit(d[0..32]);
    r := d[0] % 2;
  }

  lemma LowBit(s: seq<int>)
    requires |s| > 0
    ensures Value(s, 256) % 2 == s[0] % 2
  {
    assert s[..1] == [s[0]];
    ValueOfOne(s[0], 256);
    ValueSplit(s, 1, 256, 256);
    var h := Value(s[1..], 256);
    CongShift(Value(s, 256), s[0], 128 * h, 2);
  }
}
