// Points to bytes and back: pack, and the decompression unpackneg.

module PointCodec {
  import opened Wrappers
  import opened Radix
  import opened Field25519
  import opened Packing
  import opened Exponent
  import opened Edwards

  // ---- packing ----

  /** x/z and y/z: the affine coordinates that pack writes. */
  function AffineX(p: Ext): int { (p.x * Pow(p.z, INVERSE_EXPONENT)) % P }
  function AffineY(p: Ext): int { (p.y * Pow(p.z, INVERSE_EXPONENT)) % P }

  /** `r` is the encoding of a point: y with the parity of x in the top bit. */
  ghost predicate PackedPoint(r: seq<int>, p: Ext) {
    && |r| == 32 && Digits(r, 256)
    && Value(r, 256) == AffineY(p) + (AffineX(p) % 2) * (P + 19)
  }

  /** A point has one encoding. */
  lemma OneEncoding(r: seq<int>, s: seq<int>, p: Ext)
    requires PackedPoint(r, p) && PackedPoint(s, p)
    ensures r == s
  {
    DigitsUnique(r, s, 256);
  }

  lemma AffineOf(c: int, u: int, v: int, z: int, e: nat, m: int)
    requires m > 0 && Cong(c, u * v, m) && Cong(v, Pow(z, e), m)
    ensures c % m == ((u % m) * Pow(z % m, e)) % m
  {
    CongMod(u, m);
    CongMod(z, m);
    CongPow(z, z % m, e, m);
    CongMul(u, u % m, v, Pow(z % m, e), m);
  }

  lemma TopByte()
    ensures 128 * Pow(256, 31) == P + 19 && Pow(2, 7) == 128
  {
    assert Pow(2, 7) == 2 * Pow(2, 6);
    assert Pow(2, 3) == 8;
    PowAdd(2, 3, 3);
    PowOfPairs(15);
    TwoTo256();
    assert Pow(256, 31) == 256 * Pow(256, 30);
  }

  lemma TopByteSmall(r: seq<int>, v: int)
    requires Packed(r, v) && 0 <= v < P
    ensures 0 <= r[31] < 128
  {
    TopByte();
    ValueOfDigits(r[..31], 256);
    assert Value(r, 256) == Value(r[..31], 256) + r[31] * Pow(256, 31);
  }

  /** The parity bit put into the top byte of an encoding below 2^255. */
  lemma ParityInTopByte(r: seq<int>, v: int, b: int)
    requires Packed(r, v) && 0 <= v < P && (b == 0 || b == 1)
    ensures var s := r[31 := Xor(r[31], b * 128)];
            Digits(s, 256) && Value(s, 256) == v + b * (P + 19)
  {
    TopByteSmall(r, v);
    TopByte();
    XorAbove(r[31], 7, b);
    ValueAdd(r, 31, b * 128, 256, Pow(256, 31));
  }

  /** pack */
  method Pack(r: array<int>, at: nat, p: Point)
    requires at + 32 <= r.Length && p.Valid() && r !in p.Arrays()
    modifies r
    ensures PackedPoint(r[at..at + 32], p.Coords())
    ensures forall k :: 0 <= k < r.Length && !(at <= k < at + 32) ==> r[k] == old(r[k])
  {
    var tx, ty, zi := new int[16], new int[16], new int[16];
    Invert(zi, p.z);
    Mul(tx, p.x, zi);
    Mul(ty, p.y, zi);
    AffineOf(Int(tx[..]), Int(p.x[..]), Int(zi[..]), Int(p.z[..]), INVERSE_EXPONENT, P);
    AffineOf(Int(ty[..]), Int(p.y[..]), Int(zi[..]), Int(p.z[..]), INVERSE_EXPONENT, P);
    PackSigned(r, at, tx, ty);
  }

  /** The last two lines of pack. */
  method PackSigned(r: array<int>, at: nat, tx: array<int>, ty: array<int>)
    requires at + 32 <= r.Length && r != tx && r != ty
    requires tx.Length == ty.Length == 16 && Tight(tx[..]) && Tight(ty[..])
    modifies r
    ensures Digits(r[at..at + 32], 256)
    ensures Value(r[at..at + 32], 256) == Fe(ty[..]) + (Fe(tx[..]) % 2) * (P + 19)
    ensures forall k :: 0 <= k < r.Length && !(at <= k < at + 32) ==> r[k] == old(r[k])
  {
    TightIsNarrow(tx[..]);
    TightIsNarrow(ty[..]);
    Pack25519(r, at, ty);
    var parity := Par25519(tx);
    ghost var s := r[at..at + 32];
    ParityInTopByte(s, Fe(ty[..]), parity);
    assert s[31] == r[at + 31];
    r[at + 31] := Xor(r[at + 31], parity * 128);
    assert r[at..at + 32] == s[31 := Xor(s[31], parity * 128)];
  }

  // ---- decompression ----

  const D_LIMBS: seq<int> := [
    0x78a3, 0x1359, 0x4dca, 0x75eb, 0xd8ab, 0x4141, 0x0a4d, 0x0070,
    0xe898, 0x7779, 0x4079, 0x8cc7, 0xfe73, 0x2b6f, 0x6cee, 0x5203]
  const I_LIMBS: seq<int> := [
    0xa0b0, 0x4a0e, 0x1b27, 0xc4ee, 0xe478, 0xad2f, 0x1806, 0x2f43,
    0xd7a7, 0x3dfb, 0x0099, 0x2b4d, 0xdf0b, 0x4fc1, 0x2480, 0x2b83]

  function FMul(u: int, v: int): int { (u * v) % P }

  /** x^2 = num / den on the curve, for a given y. */
  function Numerator(y: int): int { (FMul(y, y) - 1) % P }
  function Denominator(y: int): int { (1 + FMul(FMul(y, y), Fe(D_LIMBS))) % P }

  /** den^6 */
  function SixthPower(den: int): int {
    FMul(FMul(FMul(den, den), FMul(den, den)), FMul(den, den))
  }

  /** num * den^3 * (num * den^7)^((p-5)/8), the candidate for the root. */
  function Candidate(num: int, den: int): int {
    var root := Pow(FMul(FMul(SixthPower(den), num), den), ROOT_EXPONENT) % P;
    FMul(FMul(FMul(FMul(root, num), den), den), den)
  }

  /** Whether `x` is a root: x^2 * den = num. */
  predicate IsRoot(x: int, num: int, den: int) {
    FMul(FMul(x, x), den) == num
  }

  /** The root among the candidate and its multiple by the square root of -1. */
  function ChosenRoot(num: int, den: int): int {
    var x := Candidate(num, den);
    if IsRoot(x, num, den) then x else FMul(x, Fe(I_LIMBS))
  }

  /** The negative of the point that the bytes encode, or None when there is none. */
  function UnpackNegated(n: seq<int>): Option<Ext>
    requires |n| == 32
  {
    var y := (Value(n, 256) % (P + 19)) % P;
    var num, den := Numerator(y), Denominator(y);
    var x := ChosenRoot(num, den);
    if !IsRoot(x, num, den) then None
    else
      var x' := if x % 2 == n[31] / 128 then (-x) % P else x;
      Some(Ext(x', y, 1, FMul(x', y)))
  }

  /** M, in terms of residues. */
  method MulFe(o: array<int>, a: array<int>, b: array<int>)
    requires o.Length == a.Length == b.Length == 16
    requires Below(a[..], 0x40000) && Below(b[..], 0x40000)
    modifies o
    ensures Small(o[..]) && Fe(o[..]) == old(FMul(Fe(a[..]), Fe(b[..])))
    ensures Tight(o[..])
  {
    ghost var u, v := Int(a[..]), Int(b[..]);
    Mul(o, a, b);
    ProductOf(Int(o[..]), u, v, P);
  }

  method NumeratorAndDenominator(y: array<int>, one: array<int>)
    returns (num: array<int>, den: array<int>)
    requires y.Length == one.Length == 16 && Small(y[..]) && Small(one[..]) && Fe(one[..]) == 1
    ensures fresh(num) && fresh(den) && num != den && num.Length == den.Length == 16
    ensures Below(num[..], 0x40000) && Below(den[..], 0x40000)
    ensures Fe(num[..]) == Numerator(Fe(y[..])) && Fe(den[..]) == Denominator(Fe(y[..]))
  {
    num, den := new int[16], new int[16];
    var d := Load(D_LIMBS);
    MulFe(num, y, y);
    MulFe(den, num, d);
    ghost var u, v, i := Int(num[..]), Int(den[..]), Int(one[..]);
    Sub(num, num, one);
    Add(den, one, den);
    SumFe(u, v, i);
  }

  lemma SumFe(u: int, v: int, i: int)
    requires i % P == 1
    ensures (u - i) % P == (u % P - 1) % P && (i + v) % P == (1 + v % P) % P
  {
    CongMod(u, P);
    CongMod(v, P);
    FloorUnique(1, P, 0, 1);
    CongAdd(u, u % P, i, 1, P);
    CongAdd(i, 1, v, v % P, P);
  }

  /** The chain of multiplications that leads to the candidate root. */
  method CandidateRoot(r: array<int>, num: array<int>, den: array<int>)
    requires r.Length == num.Length == den.Length == 16 && r != num && r != den
    requires Below(num[..], 0x40000) && Below(den[..], 0x40000)
    modifies r
    ensures Tight(r[..]) && Fe(r[..]) == Candidate(Fe(num[..]), Fe(den[..]))
  {
    var t := SeventhPower(num, den);
    PowerRoot(t);
    TimesCubed(r, t, num, den);
  }

  /** num * den^7 */
  method SeventhPower(num: array<int>, den: array<int>) returns (t: array<int>)
    requires num.Length == den.Length == 16 && Below(num[..], 0x40000) && Below(den[..], 0x40000)
    ensures fresh(t) && t.Length == 16 && Small(t[..])
    ensures Fe(t[..]) == FMul(FMul(SixthPower(Fe(den[..])), Fe(num[..])), Fe(den[..]))
  {
    var den2, den4, den6 := new int[16], new int[16], new int[16];
    MulFe(den2, den, den);
    MulFe(den4, den2, den2);
    MulFe(den6, den4, den2);
    t := new int[16];
    MulFe(t, den6, num);
    MulFe(t, t, den);
  }

  /** pow2523, in terms of residues. */
  method PowerRoot(t: array<int>)
    requires t.Length == 16 && Small(t[..])
    modifies t
    ensures Small(t[..]) && Fe(t[..]) == Pow(old(Fe(t[..])), ROOT_EXPONENT) % P
  {
    ghost var z := Int(t[..]);
    PowerForRoot(t, t);
    CongMod(z, P);
    CongPow(z, z % P, ROOT_EXPONENT, P);
  }

  /** t * num * den^3, into `r`. */
  method TimesCubed(r: array<int>, t: array<int>, num: array<int>, den: array<int>)
    requires r.Length == t.Length == num.Length == den.Length == 16
    requires r != t && r != num && r != den && t != num && t != den
    requires Small(t[..]) && Below(num[..], 0x40000) && Below(den[..], 0x40000)
    modifies r, t
    ensures Tight(r[..])
    ensures Fe(r[..]) == FMul(FMul(FMul(FMul(old(Fe(t[..])), Fe(num[..])), Fe(den[..])), Fe(den[..])), Fe(den[..]))
  {
    MulFe(t, t, num);
    MulFe(t, t, den);
    MulFe(t, t, den);
    MulFe(r, t, den);
  }

  /** The check chk = r^2 * den, compared with num: 0 when r is a root. */
  method CheckRoot(r: array<int>, num: array<int>, den: array<int>) returns (wrong: int)
    requires r.Length == num.Length == den.Length == 16
    requires Small(r[..]) && Below(num[..], 0x40000) && Below(den[..], 0x40000)
    requires 0 <= Fe(num[..]) < P
    ensures wrong == 0 <==> IsRoot(Fe(r[..]), Fe(num[..]), Fe(den[..]))
  {
    var chk := new int[16];
    MulFe(chk, r, r);
    MulFe(chk, chk, den);
    wrong := Neq25519(chk, num);
  }

  /** The root for x, or the answer that there is none. */
  method FindRoot(r: array<int>, num: array<int>, den: array<int>) returns (ok: bool)
    requires r.Length == num.Length == den.Length == 16 && r != num && r != den
    requires Below(num[..], 0x40000) && Below(den[..], 0x40000)
    modifies r
    ensures Tight(r[..]) && Fe(r[..]) == ChosenRoot(Fe(num[..]), Fe(den[..]))
    ensures ok <==> IsRoot(Fe(r[..]), Fe(num[..]), Fe(den[..]))
  {
    CandidateRoot(r, num, den);
    var wrong := CheckRoot(r, num, den);
    if wrong != 0 {
      var i := Load(I_LIMBS);
      MulFe(r, r, i);
    }
    wrong := CheckRoot(r, num, den);
    ok := wrong == 0;
  }

  /** unpackneg */
  method UnpackNeg(r: Point, n: seq<int>) returns (ok: bool)
    requires r.Separate() && r.Shape() && |n| == 32 && Digits(n, 256)
    modifies r.x, r.y, r.z, r.t
    ensures ok <==> UnpackNegated(n).Some?
    ensures ok ==> r.Valid() && r.Coords() == UnpackNegated(n).value
  {
    SetSmall(r.z, 1);
    Unpack25519(r.y, n);
    var num, den := NumeratorAndDenominator(r.y, r.z);
    ok := FindRoot(r.x, num, den);
    if ok {
      ChooseSign(r.x, n[31] / 128);
      MulFe(r.t, r.x, r.y);
    }
  }

  /** The sign: negated when the parity agrees with the sign bit of the encoding. */
  method ChooseSign(x: array<int>, sign: int)
    requires x.Length == 16 && Tight(x[..])
    modifies x
    ensures Small(x[..])
    ensures Fe(x[..]) == old(if Fe(x[..]) % 2 == sign then (-Fe(x[..])) % P else Fe(x[..]))
  {
    TightIsNarrow(x[..]);
    var parity := Par25519(x);
    if parity == sign {
      var zero := new int[16](_ => 0);
      ValueZeros(zero[..], LIMB);
      ghost var v := Int(x[..]);
      Sub(x, zero, x);
      CongMod(v, P);
      CongAdd(0, 0, v, v % P, P);
    }
  }

  lemma DecodedIsExtended(n: seq<int>)
    requires |n| == 32 && UnpackNegated(n).Some?
    ensures Extended(UnpackNegated(n).value)
  {
    var p := UnpackNegated(n).value;
    CongMod(p.x * p.y, P);
  }

  /** The curve equation in affine coordinates: y^2 - x^2 = 1 + d x^2 y^2. */
  ghost predicate OnCurve(x: int, y: int, d: int, m: int)
    requires m > 0
  {
    Cong(y * y - x * x, 1 + d * ((x * x) * (y * y)), m)
  }

  /** A root of the decompression formula is the x of a point of the curve, modulo any number. */
  lemma RootOnCurve(x: int, y: int, d: int, xx: int, yy: int, dyy: int, num: int, den: int, m: int)
    requires m > 0 && Cong(xx, x * x, m) && Cong(yy, y * y, m) && Cong(dyy, yy * d, m)
    requires Cong(num, yy - 1, m) && Cong(den, 1 + dyy, m) && Cong(xx * den, num, m)
    ensures OnCurve(x, y, d, m)
  {
    var u, v := x * x, y * y;
    DenominatorOf(v, d, yy, dyy, den, m);
    CongMul(xx, u, den, 1 + v * d, m);
    CongAdd(yy, v, 1, 1, m);
    CurveTerms(u, v, d, m);
  }

  lemma DenominatorOf(v: int, d: int, yy: int, dyy: int, den: int, m: int)
    requires m > 0 && Cong(yy, v, m) && Cong(dyy, yy * d, m) && Cong(den, 1 + dyy, m)
    ensures Cong(den, 1 + v * d, m)
  {
    CongMul(yy, v, d, d, m);
    CongAdd(1, 1, dyy, v * d, m);
  }

  lemma CurveTerms(u: int, v: int, d: int, m: int)
    requires m > 0 && Cong(u * (1 + v * d), v - 1, m)
    ensures Cong(v - u, 1 + d * (u * v), m)
  {
    CurveProduct(u, v, d);
    CongAdd(u + d * (u * v), v - 1, 1 - u, 1 - u, m);
  }

  lemma CurveProduct(u: int, v: int, d: int)
    ensures u * (1 + v * d) == u + d * (u * v)
  {
    assert u * (v * d) == (u * v) * d;
  }

  /** Negating x does not leave the curve. */
  lemma NegatedOnCurve(x: int, x': int, y: int, d: int, m: int)
    requires m > 0 && Cong(x', -x, m) && OnCurve(x, y, d, m)
    ensures OnCurve(x', y, d, m)
  {
    var u, v := x * x, y * y;
    CongMul(x', -x, x', -x, m);
    assert (-x) * (-x) == u;
    CongAdd(v, v, x' * x', u, m);
    CongMul(x' * x', u, v, v, m);
    CongMul(d, d, (x' * x') * v, u * v, m);
    CongAdd(1, 1, d * ((x' * x') * v), d * (u * v), m);
  }

  /** A decompressed point lies on the curve. */
  lemma DecodedOnCurve(n: seq<int>)
    requires |n| == 32 && UnpackNegated(n).Some?
    ensures var p := UnpackNegated(n).value;
            p.z == 1 && OnCurve(p.x, p.y, Fe(D_LIMBS), P)
  {
    var y, d := (Value(n, 256) % (P + 19)) % P, Fe(D_LIMBS);
    var num, den := Numerator(y), Denominator(y);
    var x := ChosenRoot(num, den);
    CongMod(x * x, P);
    CongMod(y * y, P);
    CongMod(FMul(y, y) * d, P);
    CongMod(FMul(y, y) - 1, P);
    CongMod(1 + FMul(FMul(y, y), d), P);
    CongMod(FMul(x, x) * den, P);
    RootOnCurve(x, y, d, FMul(x, x), FMul(y, y), FMul(FMul(y, y), d), num, den, P);
    CongMod(-x, P);
    NegatedOnCurve(x, (-x) % P, y, d, P);
  }

  /** The encoding of a point as the one byte string of its number. */
  function PackBytes(p: Ext): seq<int> {
    LittleEndian(AffineY(p) + (AffineX(p) % 2) * (P + 19), 32)
  }

  lemma PackBytesPacks(p: Ext)
    ensures PackedPoint(PackBytes(p), p)
  {
    TopByte();
    assert Pow(256, 32) == 256 * Pow(256, 31);
    LittleEndianValue(AffineY(p) + (AffineX(p) % 2) * (P + 19), 32);
  }

  lemma PackedIsPackBytes(r: seq<int>, p: Ext)
    requires PackedPoint(r, p)
    ensures r == PackBytes(p)
  {
    PackBytesPacks(p);
    OneEncoding(r, PackBytes(p), p);
  }
}
