// Field arithmetic of TweetNaCl: elements of GF(2^255-19) in sixteen signed
// 16-bit limbs with lazy carries.

module Field25519 {
  import opened Radix

  const LIMB := 65536
  /** The field prime, 2^255 - 19. */
  const P := 0x7fffffffffffffffffffffffffffffffffffffffffffffffffffffffffffffed
  const TWO256 := 0x1_0000000000000000000000000000000000000000000000000000000000000000
  /** 2^62, the magnitude a limb must stay below for the carry pass. */
  const WIDE := 0x4000000000000000
  /** 2^26, the magnitude a limb must stay below for multiplication. */
  const NARROW := 0x4000000

  /** The range of the C type i64. */
  ghost predicate I64(x: int) {
    -0x8000000000000000 <= x < 0x8000000000000000
  }

  ghost predicate Below(s: seq<int>, bound: int) {
    forall k :: 0 <= k < |s| ==> -bound < s[k] < bound
  }

  /** The integer a limb sequence stands for. */
  function Int(s: seq<int>): int {
    Value(s, LIMB)
  }

  /** The field element a limb sequence stands for. */
  function Fe(s: seq<int>): int {
    Int(s) % P
  }

  lemma TwoTo256()
    ensures Pow(LIMB, 16) == TWO256
    ensures Pow(LIMB, 15) * LIMB == TWO256
  {
    assert Pow(LIMB, 1) == LIMB * Pow(LIMB, 0) == LIMB;
    PowAdd(LIMB, 1, 1);
    PowAdd(LIMB, 2, 2);
    PowAdd(LIMB, 4, 4);
    PowAdd(LIMB, 8, 8);
  }

  // ---- one carry pass ----

  /** `t` is what one carry pass makes of a number `v`: the low 256 bits as digits,
      with the overflow past them returned to limb 0 with weight 38. */
  ghost predicate Carried(t: seq<int>, v: int) {
    && |t| == 16
    && (forall k :: 1 <= k < 16 ==> 0 <= t[k] < LIMB)
    && 0 <= t[0] - 38 * (v / TWO256) < LIMB
    && Int(t) == v - (v / TWO256) * (TWO256 - 38)
  }

  /** Emptying limb `i` into limb `i + 1` keeps the value. */
  lemma CarryKeepsValue(s: seq<int>, i: nat, c: int)
    requires |s| == 16 && i < 15
    ensures Int(s[i := s[i] - LIMB * c][i + 1 := s[i + 1] + c]) == Int(s)
  {
    var w, out := Pow(LIMB, i), -(LIMB * c);
    var t := s[i := s[i] + out];
    ValueAdd(s, i, out, LIMB, w);
    ValueAdd(t, i + 1, c, LIMB, LIMB * w);
    CarryWeights(c, out, w);
  }

  lemma CarryWeights(c: int, out: int, w: int)
    requires out == -(LIMB * c)
    ensures out * w + c * (LIMB * w) == 0
  {
    assert c * (LIMB * w) == (LIMB * c) * w;
  }

  /** Emptying the top limb into limb 0 subtracts a multiple of 2p = 2^256 - 38. */
  lemma TopCarry(s: seq<int>, r: int, c: int)
    requires |s| == 16 && s[15] == LIMB * c + r && 0 <= r < LIMB
    requires forall k :: 0 <= k < 15 ==> 0 <= s[k] < LIMB
    ensures Carried(s[15 := r][0 := s[0] + 38 * c], Int(s))
  {
    TwoTo256();
    var w, out := Pow(LIMB, 15), -(LIMB * c);
    var d := s[15 := s[15] + out];
    assert d == s[15 := r];
    ValueAdd(s, 15, out, LIMB, w);
    ValueAdd(d, 0, 38 * c, LIMB, 1);
    CarryWeights(c, out, w);
    ValueOfDigits(d, LIMB);
    FloorUnique(Int(s), TWO256, c, Int(d));
  }

  /** car25519: one pass of carries, in place. */
  method Car25519(o: array<int>)
    requires o.Length == 16 && Below(o[..], WIDE)
    modifies o
    ensures Carried(o[..], old(Int(o[..])))
  {
    ghost var v := Int(o[..]);
    var i := 0;
    while i < 16
      invariant 0 <= i <= 16
      invariant i < 16 ==> Int(o[..]) == v
      invariant i < 16 ==> forall k :: 0 <= k < i ==> 0 <= o[k] < LIMB
      invariant forall k :: i < k < 16 ==> -WIDE < o[k] < WIDE
      invariant i < 16 ==> -WIDE - 0x800000000000 < o[i] < WIDE + 0x800000000000
      invariant i == 16 ==> Carried(o[..], v)
    {
      ghost var s := o[..];
      o[i] := o[i] + LIMB;
      var c := o[i] / LIMB;
      var next := if i < 15 then i + 1 else 0;
      assert I64(o[i]) && I64(c * LIMB) && I64(37 * (c - 1));
      o[next] := o[next] + (c - 1) + if i == 15 then 37 * (c - 1) else 0;
      assert I64(o[next]);
      o[i] := o[i] - c * LIMB;
      if i < 15 {
        CarryKeepsValue(s, i, c - 1);
        assert o[..] == s[i := s[i] - LIMB * (c - 1)][i + 1 := s[i + 1] + (c - 1)];
      } else {
        TopCarry(s, o[15], c - 1);
        assert o[..] == s[15 := o[15]][0 := s[0] + 38 * (c - 1)];
      }
      i := i + 1;
    }
  }

  // ---- what repeated passes achieve ----

  /** Multiplying out leaves limb 0 within 38 of a digit and the others digits. */
  ghost predicate Tight(s: seq<int>) {
    && |s| == 16
    && -38 <= s[0] < LIMB + 38
    && forall k :: 1 <= k < 16 ==> 0 <= s[k] < LIMB
  }

  lemma TightIsNarrow(s: seq<int>)
    requires Tight(s)
    ensures Below(s, 0x20000) && Below(s, NARROW) && Below(s, WIDE)
  {}

  lemma WideQuotient(s: seq<int>)
    requires |s| == 16 && Below(s, WIDE)
    ensures -0x800000000000 <= Int(s) / TWO256 <= 0x800000000000
  {
    TwoTo256();
    ValueMagnitude(s, LIMB, WIDE);
  }

  /** The value after a pass, seen as 256 bits of digits plus the returned overflow. */
  lemma CarriedRange(t: seq<int>, v: int)
    requires Carried(t, v)
    ensures 0 <= Int(t) - 38 * (v / TWO256) < TWO256
    ensures Cong(Int(t), v, P)
  {
    var q := v / TWO256;
    var d := t[0 := t[0] - 38 * q];
    TwoTo256();
    ValueAdd(t, 0, -38 * q, LIMB, 1);
    ValueOfDigits(d, LIMB);
    assert q * (TWO256 - 38) == 2 * q * P;
    CongShift(Int(t), v, -2 * q, P);
  }

  /** Two passes bring wide limbs back to tight ones. */
  lemma TwoPasses(s: seq<int>, t: seq<int>, u: seq<int>)
    requires |s| == 16 && Below(s, WIDE) && Carried(t, Int(s)) && Carried(u, Int(t))
    ensures Tight(u) && Cong(Int(u), Int(s), P)
    ensures -1 <= Int(t) / TWO256 <= 1
    ensures 0 <= Int(u) < TWO256
  {
    WideQuotient(s);
    CarriedRange(t, Int(s));
    CarriedRange(u, Int(t));
  }

  lemma FirstPassIsWide(s: seq<int>, t: seq<int>)
    requires |s| == 16 && Below(s, WIDE) && Carried(t, Int(s))
    ensures Below(t, WIDE)
  {
    WideQuotient(s);
  }

  /** Three passes leave sixteen digits. */
  lemma ThirdPass(u: seq<int>, w: seq<int>)
    requires 0 <= Int(u) < TWO256 && Carried(w, Int(u))
    ensures Digits(w, LIMB) && Int(w) == Int(u)
  {
    FloorUnique(Int(u), TWO256, 0, Int(u));
  }

  // ---- addition and subtraction ----

  /** A */
  method Add(o: array<int>, a: array<int>, b: array<int>)
    requires o.Length == 16 && a.Length == 16 && b.Length == 16
    requires Below(a[..], NARROW) && Below(b[..], NARROW)
    modifies o
    ensures forall k :: 0 <= k < 16 ==> o[k] == old(a[k]) + old(b[k])
    ensures Int(o[..]) == old(Int(a[..])) + old(Int(b[..]))
  {
    ghost var s, t := a[..], b[..];
    for i := 0 to 16
      invariant forall k :: 0 <= k < i ==> o[k] == s[k] + t[k]
      invariant forall k :: i <= k < 16 ==> a[k] == s[k] && b[k] == t[k]
    {
      o[i] := a[i] + b[i];
    }
    ValueLinear(s, t, o[..], 1, LIMB);
  }

  /** Z */
  method Sub(o: array<int>, a: array<int>, b: array<int>)
    requires o.Length == 16 && a.Length == 16 && b.Length == 16
    requires Below(a[..], NARROW) && Below(b[..], NARROW)
    modifies o
    ensures forall k :: 0 <= k < 16 ==> o[k] == old(a[k]) - old(b[k])
    ensures Int(o[..]) == old(Int(a[..])) - old(Int(b[..]))
  {
    ghost var s, t := a[..], b[..];
    for i := 0 to 16
      invariant forall k :: 0 <= k < i ==> o[k] == s[k] - t[k]
      invariant forall k :: i <= k < 16 ==> a[k] == s[k] && b[k] == t[k]
    {
      o[i] := a[i] - b[i];
    }
    ValueLinear(s, t, o[..], -1, LIMB);
  }

  // ---- multiplication ----

  /** Adding one product of limbs moves the accumulated value by one term of the
      product of the two numbers. */
  lemma ConvolutionStep(t: seq<int>, x: int, y: int, i: nat, j: nat, done: int, part: int)
    requires i + j < |t|
    requires Value(t, LIMB) == done + x * Pow(LIMB, i) * part
    ensures Value(t[i + j := t[i + j] + x * y], LIMB) == done + x * Pow(LIMB, i) * (part + y * Pow(LIMB, j))
  {
    var v, w := Pow(LIMB, i), Pow(LIMB, j);
    PowAdd(LIMB, i, j);
    ValueAdd(t, i + j, x * y, LIMB, v * w);
    ProductOfTerms(x, y, v, w, part);
  }

  lemma ProductOfTerms(x: int, y: int, v: int, w: int, part: int)
    ensures (x * y) * (v * w) + x * v * part == x * v * (part + y * w)
  {
    assert (x * y) * (v * w) == (x * v) * (y * w);
  }

  lemma ProductMagnitude(x: int, y: int, m: int, n: int)
    requires -m <= x <= m && -n <= y <= n
    ensures -(m * n) <= x * y <= m * n
  {
    assert (m - x) * (n + y) >= 0 && (m + x) * (n - y) >= 0;
    assert (m - x) * (n + y) == m * n + m * y - x * n - x * y;
    assert (m + x) * (n - y) == m * n - m * y + x * n - x * y;
    assert (m - x) * (n - y) >= 0 && (m + x) * (n + y) >= 0;
    assert (m - x) * (n - y) == m * n - m * y - x * n + x * y;
    assert (m + x) * (n + y) == m * n + m * y + x * n + x * y;
  }

  /** Limb magnitudes when rows before `i` are done and row `i` is done up to `j`. */
  ghost predicate RowBound(t: seq<int>, i: nat, j: nat) {
    && |t| == 31
    && (forall k :: 0 <= k < 31 ==> -0x10000000000000 * (i + 1) <= t[k] <= 0x10000000000000 * (i + 1))
    && (forall k :: i + j <= k < 31 ==> -0x10000000000000 * i <= t[k] <= 0x10000000000000 * i)
  }

  lemma RowBoundStep(t: seq<int>, i: nat, j: nat, x: int, y: int)
    requires i < 16 && j < 16 && RowBound(t, i, j)
    requires -NARROW < x < NARROW && -NARROW < y < NARROW
    ensures I64(x * y) && I64(t[i + j] + x * y)
    ensures RowBound(t[i + j := t[i + j] + x * y], i, j + 1)
  {
    ProductMagnitude(x, y, NARROW, NARROW);
  }

  /** Folding limbs 16..30 onto limbs 0..14 with weight 38 keeps the residue. */
  lemma FoldKeepsResidue(t: seq<int>, o: seq<int>)
    requires RowBound(t, 16, 0) && |o| == 16
    requires forall k :: 0 <= k < 15 ==> o[k] == t[k] + 38 * t[k + 16]
    requires o[15] == t[15]
    ensures Cong(Int(o), Value(t, LIMB), P) && Below(o, WIDE)
  {
    assert Below(o, WIDE) by {
      forall k | 0 <= k < 16 ensures -WIDE < o[k] < WIDE {
        assert -0x110000000000000 <= t[k] <= 0x110000000000000;
        if k < 15 {
          assert -0x110000000000000 <= t[k + 16] <= 0x110000000000000;
        }
      }
    }
    var low, high := t[..16], t[16..];
    TwoTo256();
    ValueSplit(t, 16, LIMB, TWO256);
    ValueLinear(low, high + [0], o, 38, LIMB);
    ValueSnoc(high, 0, LIMB, Pow(LIMB, 15));
    var h := Value(high, LIMB);
    assert TWO256 * h == 38 * h + 2 * h * P;
    CongShift(Int(o), Value(t, LIMB), -2 * h, P);
  }

  /** One row of the double loop of M: limb `i` of the first factor, `x`, times all of `b`. */
  method AddRow(t: array<int>, x: int, i: nat, b: array<int>)
    requires i < 16 && b.Length == 16 && t != b
    requires -NARROW < x < NARROW && Below(b[..], NARROW) && RowBound(t[..], i, 0)
    modifies t
    ensures RowBound(t[..], i + 1, 0)
    ensures Value(t[..], LIMB) == old(Value(t[..], LIMB)) + x * Pow(LIMB, i) * Int(b[..])
  {
    ghost var done := Value(t[..], LIMB);
    for j := 0 to 16
      invariant Value(t[..], LIMB) == done + x * Pow(LIMB, i) * Value(b[..j], LIMB)
      invariant RowBound(t[..], i, j)
    {
      ghost var s := t[..];
      RowBoundStep(s, i, j, x, b[j]);
      ConvolutionStep(s, x, b[j], i, j, done, Value(b[..j], LIMB));
      TakeValue(b, j);
      t[i + j] := t[i + j] + x * b[j];
      assert t[..] == s[i + j := s[i + j] + x * b[j]];
    }
    assert b[..16] == b[..];
  }

  /** The double loop of M: the 31 limbs of the product. */
  method Convolve(a: array<int>, b: array<int>) returns (t: array<int>)
    requires a.Length == 16 && b.Length == 16 && Below(a[..], NARROW) && Below(b[..], NARROW)
    ensures fresh(t) && RowBound(t[..], 16, 0)
    ensures Value(t[..], LIMB) == Int(a[..]) * Int(b[..])
  {
    t := new int[31](_ => 0);
    ValueZeros(t[..], LIMB);
    ghost var n := Int(b[..]);
    for i := 0 to 16
      invariant fresh(t)
      invariant Value(t[..], LIMB) == Value(a[..i], LIMB) * n
      invariant RowBound(t[..], i, 0)
    {
      AddRow(t, a[i], i, b);
      TakeValue(a, i);
      RowDone(Value(a[..i], LIMB), a[i] * Pow(LIMB, i), n);
    }
    assert a[..16] == a[..];
  }

  lemma RowDone(v: int, w: int, n: int)
    ensures v * n + w * n == (v + w) * n
  {}

  lemma TakeValue(a: array<int>, i: nat)
    requires i < a.Length
    ensures Value(a[..i + 1], LIMB) == Value(a[..i], LIMB) + a[i] * Pow(LIMB, i)
  {
    ValuePrefix(a[..], i, LIMB, Pow(LIMB, i));
    assert a[..][..i] == a[..i] && a[..][..i + 1] == a[..i + 1];
  }

  /** M: the product in the field, for narrow limbs. The output may be one of the inputs. */
  method Mul(o: array<int>, a: array<int>, b: array<int>)
    requires o.Length == 16 && a.Length == 16 && b.Length == 16
    requires Below(a[..], NARROW) && Below(b[..], NARROW)
    modifies o
    ensures Tight(o[..])
    ensures Cong(Int(o[..]), old(Int(a[..])) * old(Int(b[..])), P)
  {
    var t := Convolve(a, b);
    ghost var product := Value(t[..], LIMB);
    Fold(o, t);
    ghost var first := o[..];
    Car25519(o);
    ghost var second := o[..];
    FirstPassIsWide(first, second);
    Car25519(o);
    TwoPasses(first, second, o[..]);
  }

  /** The folding and copying loops of M. */
  method Fold(o: array<int>, t: array<int>)
    requires o.Length == 16 && o != t
    requires RowBound(t[..], 16, 0)
    modifies o, t
    ensures Below(o[..], WIDE) && Cong(Int(o[..]), old(Value(t[..], LIMB)), P)
  {
    ghost var full := t[..];
    for i := 0 to 15
      invariant forall k :: 0 <= k < i ==> t[k] == full[k] + 38 * full[k + 16]
      invariant forall k :: i <= k < 31 ==> t[k] == full[k]
    {
      assert full[i] == t[i] && full[i + 16] == t[i + 16];
      assert I64(38 * t[i + 16]) && I64(t[i] + 38 * t[i + 16]);
      t[i] := t[i] + 38 * t[i + 16];
    }
    for i := 0 to 16
      invariant forall k :: 0 <= k < i ==> o[k] == t[k]
      invariant forall k :: 0 <= k < 15 ==> t[k] == full[k] + 38 * full[k + 16]
      invariant t[15] == full[15]
    {
      o[i] := t[i];
    }
    FoldKeepsResidue(full, o[..]);
  }

  // ---- selection ----

  /** The masked exchange of two 64-bit words, as sel25519 computes it: with the mask of one they
      change places, with the mask of zero they stay. */
  lemma MaskExchanges(p: bv64, q: bv64)
    ensures p ^ (!(1 as bv64 - 1) & (p ^ q)) == q && q ^ (!(1 as bv64 - 1) & (p ^ q)) == p
    ensures p ^ (!(0 as bv64 - 1) & (p ^ q)) == p && q ^ (!(0 as bv64 - 1) & (p ^ q)) == q
  {}

  /** sel25519: exchange the two arrays when `b` is 1. */
  method Select(p: array<int>, q: array<int>, b: int)
    requires p.Length == 16 && q.Length == 16 && p != q && (b == 0 || b == 1)
    modifies p, q
    ensures b == 1 ==> p[..] == old(q[..]) && q[..] == old(p[..])
    ensures b == 0 ==> p[..] == old(p[..]) && q[..] == old(q[..])
  {
    for i := 0 to 16
      invariant forall k :: 0 <= k < i ==> p[k] == old(if b == 1 then q[k] else p[k])
      invariant forall k :: 0 <= k < i ==> q[k] == old(if b == 1 then p[k] else q[k])
      invariant forall k :: i <= k < 16 ==> p[k] == old(p[k]) && q[k] == old(q[k])
    {
      if b == 1 {
        p[i], q[i] := q[i], p[i];
      }
    }
  }
}
