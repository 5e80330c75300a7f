// Ed25519 signatures: key pair, signing and opening. The hash is a parameter: any
// function to 64 bytes.

module Sign {
  import opened Wrappers
  import opened Radix
  import opened Field25519
  import opened Packing
  import opened Edwards
  import opened PointCodec
  import opened Scalar
  import Ladder

  type Hash = seq<int> -> seq<int>

  /** What is required of the hash: 64 bytes. */
  ghost predicate HashTo64(hash: Hash) {
    forall m :: |hash(m)| == 64 && Digits(hash(m), 256)
  }

  // ---- the definitions, sections 5.1.5 to 5.1.7 of RFC 8032 ----

  /** The pruned first half of the hashed seed. */
  function Pruned(d: seq<int>): seq<int>
    requires |d| >= 32
  {
    d[..32][0 := d[0] - d[0] % 8][31 := d[31] % 64 + 64]
  }

  /** The 32 bytes of a number modulo the order. */
  function ScalarBytes(v: int): seq<int> {
    LittleEndian(v % ORDER, 32)
  }

  function HashScalar(hash: Hash, m: seq<int>): seq<int> {
    ScalarBytes(Value(hash(m), 256))
  }

  /** The multiple of the base point that the ladder computes for the scalar bytes. */
  function BaseMultiple(s: seq<int>): Ext
    requires |s| == 32
  {
    Ladder.Run(Sum, NEUTRAL, BasePoint(), s, 256).0
  }

  function PublicKey(hash: Hash, seed: seq<int>): seq<int>
    requires |hash(seed)| == 64
  {
    PackBytes(BaseMultiple(Pruned(hash(seed))))
  }

  /** The nonce r of a message: the hash of the secret prefix and the message. */
  ghost function SignedR(hash: Hash, m: seq<int>, sk: seq<int>): (r: seq<int>)
    requires |sk| == 64 && HashTo64(hash)
    ensures |r| == 32
  {
    var d := hash(sk[..32]);
    HashScalar(hash, d[32..] + m)
  }

  /** R: the encoding of r times the base point. */
  ghost function SignedTop(hash: Hash, m: seq<int>, sk: seq<int>): seq<int>
    requires |sk| == 64 && HashTo64(hash)
  {
    PackBytes(BaseMultiple(SignedR(hash, m, sk)))
  }

  /** The hash scalar over R, the public key and the message. */
  ghost function SignedH(hash: Hash, m: seq<int>, sk: seq<int>): seq<int>
    requires |sk| == 64 && HashTo64(hash)
  {
    HashScalar(hash, SignedTop(hash, m, sk) + sk[32..] + m)
  }

  /** S: r + h * d modulo the order. */
  ghost function SignedS(hash: Hash, m: seq<int>, sk: seq<int>): seq<int>
    requires |sk| == 64 && HashTo64(hash)
  {
    ScalarBytes(Value(SignedR(hash, m, sk), 256)
                + Value(SignedH(hash, m, sk), 256) * Value(Pruned(hash(sk[..32])), 256))
  }

  /** The signed message: R, S and the message. `sk` is the seed followed by the public key. */
  ghost function Signed(hash: Hash, m: seq<int>, sk: seq<int>): seq<int>
    requires |sk| == 64 && HashTo64(hash)
  {
    SignedTop(hash, m, sk) + SignedS(hash, m, sk) + m
  }

  /** The point whose encoding crypto_sign_open compares with the first 32 bytes. */
  ghost function Recovered(hash: Hash, sm: seq<int>, pk: seq<int>, negated: Ext): Ext
    requires |sm| >= 64
  {
    Sum(Ladder.Run(Sum, NEUTRAL, negated, HashScalar(hash, sm[..32] + pk + sm[64..]), 256).0,
        BaseMultiple(sm[32..64]))
  }

  /** The message when the signature is accepted. */
  ghost function Opened(hash: Hash, sm: seq<int>, pk: seq<int>): Option<seq<int>>
    requires |pk| == 32
  {
    if |sm| < 64 then None
    else match UnpackNegated(pk)
      case None => None
      case Some(negated) =>
        if PackBytes(Recovered(hash, sm, pk, negated)) == sm[..32] then Some(sm[64..]) else None
  }

  // ---- scalars ----

  lemma ScalarBytesReduced(v: int)
    ensures ReducedScalar(ScalarBytes(v), v)
  {
    TopWeight();
    CongMod(v, ORDER);
    LittleEndianValue(v % ORDER, 32);
  }

  lemma ReducedIsScalarBytes(r: seq<int>, v: int)
    requires ReducedScalar(r, v)
    ensures r == ScalarBytes(v)
  {
    ScalarBytesReduced(v);
    DigitsUnique(r, ScalarBytes(v), 256);
  }

  /** crypto_hash followed by reduce. */
  method HashReduced(hash: Hash, m: seq<int>) returns (s: seq<int>)
    requires HashTo64(hash)
    ensures s == HashScalar(hash, m) && ReducedScalar(s, Value(hash(m), 256))
  {
    var v := hash(m);
    var h := new int[64];
    for i := 0 to 64
      invariant h[..i] == v[..i]
    {
      h[i] := v[i];
    }
    assert h[..] == v;
    Reduce(h);
    s := h[..32];
    ReducedIsScalarBytes(s, Value(v, 256));
  }

  /** Limb sizes while row `i` of r + h * d is being added, up to `j`. */
  ghost predicate RowLimbs(x: seq<int>, i: nat, j: nat) {
    && |x| == 64
    && (forall k :: 0 <= k < 64 ==> 0 <= x[k] <= 255 + 65025 * if i < 32 then i + 1 else 32)
    && (forall k :: i + j <= k < 64 ==> 0 <= x[k] <= 255 + 65025 * i)
  }

  lemma RowLimbsStep(x: seq<int>, i: nat, j: nat, h: int, d: int)
    requires i < 32 && j < 32 && RowLimbs(x, i, j) && 0 <= h < 256 && 0 <= d < 256
    ensures RowLimbs(x[i + j := x[i + j] + h * d], i, j + 1)
  {
    assert 0 <= h * d;
    ProductMagnitude(h, d, 255, 255);
  }

  lemma RowValue(x: seq<int>, h: int, d: int, i: nat, j: nat, done: int, part: int, v: int, w: int)
    requires i + j < |x| && v == Pow(256, i) && w == Pow(256, j)
    requires Value(x, 256) == done + h * v * part
    ensures Value(x[i + j := x[i + j] + h * d], 256) == done + h * v * (part + d * w)
  {
    PowAdd(256, i, j);
    ValueAdd(x, i + j, h * d, 256, v * w);
    ProductOfTerms(h, d, v, w, part);
  }

  method AddScalarRow(x: array<int>, h: int, i: nat, d: seq<int>)
    requires x.Length == 64 && |d| == 32 && Digits(d, 256) && 0 <= h < 256 && i < 32
    requires RowLimbs(x[..], i, 0)
    modifies x
    ensures RowLimbs(x[..], i, 32)
    ensures Value(x[..], 256) == old(Value(x[..], 256)) + h * Pow(256, i) * Value(d, 256)
  {
    ghost var done := Value(x[..], 256);
    assert d[..0] == [];
    for j := 0 to 32
      invariant RowLimbs(x[..], i, j)
      invariant Value(x[..], 256) == done + h * Pow(256, i) * Value(d[..j], 256)
    {
      ghost var s := x[..];
      RowLimbsStep(s, i, j, h, d[j]);
      RowValue(s, h, d[j], i, j, done, Value(d[..j], 256), Pow(256, i), Pow(256, j));
      ValuePrefix(d, j, 256, Pow(256, j));
      x[i + j] := x[i + j] + h * d[j];
      assert x[..] == s[i + j := s[i + j] + h * d[j]];
    }
    assert d[..32] == d;
  }

  /** The first lines of the sum: r in 64 limbs. */
  method SpreadScalar(r: seq<int>) returns (x: array<int>)
    requires |r| == 32 && Digits(r, 256)
    ensures fresh(x) && RowLimbs(x[..], 0, 0) && Value(x[..], 256) == Value(r, 256)
  {
    x := new int[64](_ => 0);
    for i := 0 to 32
      invariant forall k :: 0 <= k < 64 ==> x[k] == if k < i then r[k] else 0
    {
      x[i] := r[i];
    }
    ghost var zeros := x[32..];
    assert x[..] == r + zeros;
    ValueZeros(zeros, 256);
    ValueConcat(r, zeros, 256, Pow(256, 32));
  }

  /** The limbs of r + h * d, before modL. */
  method ScalarSum(r: seq<int>, h: seq<int>, d: seq<int>) returns (x: array<int>)
    requires |r| == |h| == |d| == 32 && Digits(r, 256) && Digits(h, 256) && Digits(d, 256)
    ensures fresh(x) && RowLimbs(x[..], 32, 0)
    ensures Value(x[..], 256) == Value(r, 256) + Value(h, 256) * Value(d, 256)
  {
    x := SpreadScalar(r);
    ghost var n, m := Value(r, 256), Value(d, 256);
    assert h[..0] == [];
    for i := 0 to 32
      invariant fresh(x) && RowLimbs(x[..], i, 0)
      invariant Value(x[..], 256) == n + Value(h[..i], 256) * m
    {
      AddScalarRow(x, h[i], i, d);
      ValuePrefix(h, i, 256, Pow(256, i));
      RowDone(Value(h[..i], 256), h[i] * Pow(256, i), m);
      WidenRow(x[..], i);
    }
    assert h[..32] == h;
  }

  lemma WidenRow(x: seq<int>, i: nat)
    requires i < 32 && RowLimbs(x, i, 32)
    ensures RowLimbs(x, i + 1, 0)
  {}

  lemma PrunedDigits(d: seq<int>)
    requires |d| == 64 && Digits(d, 256)
    ensures |Pruned(d)| == 32 && Digits(Pruned(d), 256)
  {}

  /** The secret scalar as a number: bit 254 on, the low three bits and what is above off, and the
      251 bits between as the hash has them. */
  lemma PrunedValue(d: seq<int>)
    requires |d| == 64 && Digits(d, 256)
    ensures Pow(2, 251) > 0
    ensures Value(Pruned(d), 256) == Pow(2, 254) + 8 * ((Value(d[..32], 256) / 8) % Pow(2, 251))
  {
    var s, u := d[..32], Pow(2, 243);
    var t := s[0 := s[0] + -(s[0] % 8)];
    PrunedWeights(s);
    ValueAdd(s, 0, -(s[0] % 8), 256, 1);
    ValueAdd(t, 31, s[31] % 64 + 64 - s[31], 256, 32 * u);
    assert Pruned(d) == t[31 := s[31] % 64 + 64];
    ValueOfDigits(s[..31], 256);
    ValueSplit(s, 1, 256, 256);
    ValueOfOne(s[0], 256);
    assert s[..1] == [s[0]];
    PrunedSum(Value(s, 256), s[0], Value(s[1..], 256), s[31], Value(s[..31], 256), u);
  }

  lemma PrunedWeights(s: seq<int>)
    requires |s| == 32 && Digits(s, 256)
    ensures Pow(256, 31) == 32 * Pow(2, 243) && Pow(2, 251) == 256 * Pow(2, 243) && Pow(2, 254) == 2048 * Pow(2, 243)
    ensures Pow(2, 243) > 0 && Pow(256, 1) == 256
  {
    Ladder.LowBitsOfBytes(s, 31);
    PowPositive(2, 243);
    PowAdd(2, 243, 5);
    PowAdd(2, 243, 8);
    PowAdd(2, 248, 6);
    assert Pow(2, 3) == 8;
    PowAdd(2, 3, 2);
    PowAdd(2, 3, 3);
    PowAdd(2, 5, 3);
    assert Pow(256, 1) == 256 * Pow(256, 0);
  }

  /** The products with u = 2^243 in the arithmetic of the last byte. */
  lemma PrunedProducts(top: int, h: int, b: int, u: int)
    requires top == 64 * h + b
    ensures top * (32 * u) == 8 * (h * (256 * u)) + 8 * (4 * (b * u))
    ensures (b + 64 - top) * (32 * u) == 8 * (4 * (b * u)) + 2048 * u - top * (32 * u)
  {
    assert h * (256 * u) == 256 * (h * u) && top * u == 64 * (h * u) + b * u;
  }

  /** The arithmetic of the first byte: v is the number, `under` what is below the last byte, and p and
      k are the products of the last byte's two parts. */
  lemma PrunedNumber(v: int, low: int, rest: int, h: int, under: int, p: int, k: int, w: int)
    requires v == low + 256 * rest && v == under + 8 * p + 8 * k
    requires p == h * w && 0 <= under && 0 <= k && under / 8 + k < w
    ensures v - low % 8 == under - under % 8 + 8 * p + 8 * k && (v / 8) % w == under / 8 + k
  {
    FloorUnique(v, 8, low / 8 + 32 * rest, low % 8);
    FloorUnique(v, 8, under / 8 + p + k, under % 8);
    FloorUnique(v / 8, w, h, under / 8 + k);
  }

  lemma PrunedSum(v: int, low: int, rest: int, top: int, under: int, u: int)
    requires u > 0 && 0 <= top < 256 && 0 <= under < 32 * u
    requires v == low + 256 * rest && v == under + top * (32 * u)
    ensures v - low % 8 + (top % 64 + 64 - top) * (32 * u) == 2048 * u + 8 * ((v / 8) % (256 * u))
  {
    var h, b := top / 64, top % 64;
    PrunedProducts(top, h, b, u);
    DigitTimes(b, u, 64);
    PrunedNumber(v, low, rest, h, under, h * (256 * u), 4 * (b * u), 256 * u);
  }

  // ---- signing ----

  /** Copies `s` to `at`. */
  method CopyBytes(o: array<int>, at: nat, s: seq<int>)
    requires at + |s| <= o.Length
    modifies o
    ensures o[at..at + |s|] == s
    ensures forall k :: 0 <= k < o.Length && !(at <= k < at + |s|) ==> o[k] == old(o[k])
  {
    for i := 0 to |s|
      invariant forall k :: 0 <= k < i ==> o[at + k] == s[k]
      invariant forall k :: 0 <= k < o.Length && !(at <= k < at + |s|) ==> o[k] == old(o[k])
    {
      o[at + i] := s[i];
    }
  }

  /** A buffer in its three fields. */
  ghost predicate Fields(sm: seq<int>, top: seq<int>, middle: seq<int>, m: seq<int>) {
    |top| == 32 && |middle| == 32 && sm == top + middle + m
  }

  /** Rewriting one field leaves the others. */
  lemma FirstField(sm: seq<int>, t: seq<int>, top: seq<int>, middle: seq<int>, m: seq<int>)
    requires Fields(sm, top, middle, m) && |t| == |sm|
    requires forall k :: 0 <= k < |t| && !(0 <= k < 32) ==> t[k] == sm[k]
    ensures Fields(t, t[0..32], middle, m)
  {
    assert t[32..] == sm[32..] == middle + m;
    assert t == t[0..32] + t[32..];
  }

  lemma SecondField(sm: seq<int>, t: seq<int>, top: seq<int>, middle: seq<int>, m: seq<int>)
    requires Fields(sm, top, middle, m) && |t| == |sm|
    requires forall k :: 0 <= k < |t| && !(32 <= k < 64) ==> t[k] == sm[k]
    ensures Fields(t, top, t[32..64], m)
  {
    assert t[..32] == sm[..32] == top;
    assert t[64..] == sm[64..] == m;
    assert t == t[..32] + t[32..64] + t[64..];
  }

  /** The multiple of the base point for the scalar, packed into the first field. */
  method PackBaseMultiple(sm: array<int>, s: seq<int>)
    requires sm.Length >= 32 && |s| == 32 && Digits(s, 256)
    modifies sm
    ensures sm[0..32] == PackBytes(BaseMultiple(s))
    ensures forall k :: 0 <= k < sm.Length && !(0 <= k < 32) ==> sm[k] == old(sm[k])
  {
    var p := new Point();
    ScalarBase(p, s);
    Pack(sm, 0, p);
    PackedIsPackBytes(sm[0..32], p.Coords());
  }

  /** The buffer for the first hash: the message behind the second half of the hashed seed. */
  method LayOut(d: seq<int>, m: seq<int>) returns (sm: array<int>)
    requires |d| == 64
    ensures fresh(sm) && sm.Length == |m| + 64
    ensures sm[32..] == d[32..] + m && Fields(sm[..], sm[0..32], d[32..], m)
  {
    sm := new int[|m| + 64](_ => 0);
    CopyBytes(sm, 64, m);
    CopyBytes(sm, 32, d[32..]);
    assert sm[32..] == sm[32..64] + sm[64..64 + |m|];
    assert sm[..] == sm[0..32] + sm[32..];
  }

  /** R into the first field, the public key into the second. */
  method PutPointAndKey(sm: array<int>, r: seq<int>, pk: seq<int>, ghost middle: seq<int>, ghost m: seq<int>)
    requires sm.Length >= 32 && |r| == |pk| == 32 && Digits(r, 256)
    requires Fields(sm[..], sm[0..32], middle, m)
    modifies sm
    ensures Fields(sm[..], PackBytes(BaseMultiple(r)), pk, m)
  {
    ghost var sm0 := sm[..];
    PackBaseMultiple(sm, r);
    ghost var top, sm1 := PackBytes(BaseMultiple(r)), sm[..];
    FirstField(sm0, sm1, sm0[0..32], middle, m);
    CopyBytes(sm, 32, pk);
    SecondField(sm1, sm[..], top, middle, m);
  }

  /** The first half of crypto_sign: the nonce r, its point and the public key. */
  method SignFirstHalf(hash: Hash, m: seq<int>, sk: seq<int>, d: seq<int>) returns (sm: array<int>, r: seq<int>)
    requires HashTo64(hash) && |sk| == 64 && d == hash(sk[..32])
    ensures fresh(sm) && r == SignedR(hash, m, sk) && Digits(r, 256)
    ensures Fields(sm[..], SignedTop(hash, m, sk), sk[32..], m)
  {
    sm := LayOut(d, m);
    r := HashReduced(hash, sm[32..]);
    PutPointAndKey(sm, r, sk[32..], d[32..], m);
  }

  /** The convolution and modL: r + h * d modulo the order into the second field. */
  method PutScalar(sm: array<int>, r: seq<int>, h: seq<int>, d: seq<int>, ghost top: seq<int>, ghost middle: seq<int>,
                   ghost m: seq<int>)
    requires Fields(sm[..], top, middle, m)
    requires |r| == |h| == |d| == 32 && Digits(r, 256) && Digits(h, 256) && Digits(d, 256)
    modifies sm
    ensures Fields(sm[..], top, ScalarBytes(Value(r, 256) + Value(h, 256) * Value(d, 256)), m)
  {
    ghost var before := sm[..];
    var x := ScalarSum(r, h, d);
    ghost var v := Value(x[..], 256);
    ModL(sm, 32, x);
    SecondField(before, sm[..], top, middle, m);
    ReducedIsScalarBytes(sm[32..64], v);
  }

  /** The second half of crypto_sign: the scalar S replaces the public key. */
  method SignSecondHalf(hash: Hash, sm: array<int>, ghost m: seq<int>, ghost sk: seq<int>, r: seq<int>, d: seq<int>)
    requires HashTo64(hash) && |sk| == 64 && r == SignedR(hash, m, sk) && Digits(r, 256)
    requires d == Pruned(hash(sk[..32])) && Digits(d, 256) && |d| == 32
    requires Fields(sm[..], SignedTop(hash, m, sk), sk[32..], m)
    modifies sm
    ensures Fields(sm[..], SignedTop(hash, m, sk), SignedS(hash, m, sk), m)
  {
    var h := HashReduced(hash, sm[..]);
    PutScalar(sm, r, h, d, SignedTop(hash, m, sk), sk[32..], m);
  }

  /** crypto_sign */
  method CryptoSign(hash: Hash, m: seq<int>, sk: seq<int>) returns (sm: array<int>)
    requires HashTo64(hash) && |sk| == 64
    ensures fresh(sm) && sm[..] == Signed(hash, m, sk)
  {
    var d := hash(sk[..32]);
    PrunedDigits(d);
    var r;
    sm, r := SignFirstHalf(hash, m, sk, d);
    SignSecondHalf(hash, sm, m, sk, r, Pruned(d));
  }

  /** crypto_sign_keypair, given the seed. */
  method CryptoSignKeypair(hash: Hash, seed: seq<int>) returns (sk: array<int>)
    requires HashTo64(hash) && |seed| == 32
    ensures fresh(sk) && sk[..] == seed + PublicKey(hash, seed)
  {
    sk := new int[64](_ => 0);
    CopyBytes(sk, 0, seed);
    var d := hash(seed);
    PrunedDigits(d);
    var pk := new int[32];
    PackBaseMultiple(pk, Pruned(d));
    assert pk[..] == pk[0..32];
    CopyBytes(sk, 32, pk[..]);
    assert sk[..] == sk[0..32] + sk[32..64];
  }

  // ---- opening ----

  /** crypto_sign_open: the message, when the recovered point matches. */
  method CryptoSignOpen(hash: Hash, sm: seq<int>, pk: seq<int>) returns (ok: bool, m: array<int>, mlen: int)
    requires HashTo64(hash) && |pk| == 32 && Digits(pk, 256) && Digits(sm, 256)
    ensures ok <==> Opened(hash, sm, pk).Some?
    ensures ok ==> 0 <= mlen <= m.Length && m[..mlen] == Opened(hash, sm, pk).value
    ensures !ok ==> mlen == -1
    ensures !ok && |sm| >= 64 && UnpackNegated(pk).Some? ==>
      m.Length == |sm| && forall k :: 0 <= k < |sm| - 64 ==> m[k] == 0
  {
    m, mlen, ok := new int[|sm|], -1, false;
    if |sm| < 64 {
      return;
    }
    var q := new Point();
    var decoded := UnpackNeg(q, pk);
    if decoded {
      DecodedIsExtended(pk);
      ok, mlen := OpenDecoded(hash, m, sm, q, pk);
    }
  }

  /** The rest of crypto_sign_open, once the public key is decoded. */
  method OpenDecoded(hash: Hash, m: array<int>, sm: seq<int>, q: Point, pk: seq<int>) returns (ok: bool, mlen: int)
    requires HashTo64(hash) && |pk| == 32 && Digits(sm, 256) && |sm| >= 64 && m.Length == |sm|
    requires q.Valid() && Extended(q.Coords()) && m !in q.Arrays()
    modifies m, q.x, q.y, q.z, q.t
    ensures ok <==> PackBytes(old(Recovered(hash, sm, pk, q.Coords()))) == sm[..32]
    ensures if ok then mlen == |sm| - 64 && m[..mlen] == sm[64..]
            else mlen == -1 && forall k :: 0 <= k < |sm| - 64 ==> m[k] == 0
  {
    CopyBytes(m, 0, sm);
    assert m[..] == m[0..|sm|] == sm;
    CopyBytes(m, 32, pk);
    assert m[..] == sm[..32] + pk + sm[64..];
    var t := RecoverPoint(hash, m[..], sm, q, pk);
    ok, mlen := Release(m, sm, t);
  }

  /** The end of crypto_sign_open: the message is given out only when the points agree. */
  method Release(m: array<int>, sm: seq<int>, t: seq<int>) returns (ok: bool, mlen: int)
    requires |sm| >= 64 && m.Length == |sm| && Digits(sm, 256) && |t| == 32 && Digits(t, 256)
    modifies m
    ensures ok <==> t == sm[..32]
    ensures if ok then mlen == |sm| - 64 && m[..mlen] == sm[64..]
            else mlen == -1 && forall k :: 0 <= k < |sm| - 64 ==> m[k] == 0
  {
    var n := |sm| - 64;
    ok, mlen := false, -1;
    var differ := Verify(sm, t, 32);
    assert t[..32] == t;
    if differ != 0 {
      for i := 0 to n
        invariant forall k :: 0 <= k < i ==> m[k] == 0
      {
        m[i] := 0;
      }
      return;
    }
    for i := 0 to n
      invariant forall k :: 0 <= k < i ==> m[k] == sm[k + 64]
    {
      m[i] := sm[i + 64];
    }
    assert m[..n] == sm[64..];
    ok, mlen := true, n;
  }

  /** The 32 bytes that the first half of the signature has to equal. */
  method RecoverPoint(hash: Hash, m: seq<int>, sm: seq<int>, q: Point, pk: seq<int>) returns (t: seq<int>)
    requires HashTo64(hash) && |sm| >= 64 && Digits(sm, 256) && |pk| == 32
    requires q.Valid() && Extended(q.Coords()) && m == sm[..32] + pk + sm[64..]
    modifies q.x, q.y, q.z, q.t
    ensures t == PackBytes(old(Recovered(hash, sm, pk, q.Coords()))) && |t| == 32 && Digits(t, 256)
  {
    var h := HashReduced(hash, m);
    var p := CombineMultiples(q, h, sm[32..64]);
    t := PackNew(p);
  }

  /** h times the decoded point plus S times the base point. */
  method CombineMultiples(q: Point, h: seq<int>, s: seq<int>) returns (p: Point)
    requires q.Valid() && Extended(q.Coords())
    requires |h| == |s| == 32 && Digits(h, 256) && Digits(s, 256)
    modifies q.x, q.y, q.z, q.t
    ensures p.Valid()
    ensures p.Coords() == Sum(Ladder.Run(Sum, NEUTRAL, old(q.Coords()), h, 256).0, BaseMultiple(s))
  {
    p := new Point();
    ScalarMult(p, q, h);
    ScalarBase(q, s);
    AddPoint(p, q);
  }

  method PackNew(p: Point) returns (t: seq<int>)
    requires p.Valid()
    ensures t == PackBytes(p.Coords()) && |t| == 32 && Digits(t, 256)
  {
    var o := new int[32];
    Pack(o, 0, p);
    PackedIsPackBytes(o[0..32], p.Coords());
    t := o[..];
    assert t == o[0..32];
  }
}
