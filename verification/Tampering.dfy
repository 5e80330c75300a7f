// What crypto_sign_open refuses. The verification equation decides about every signature whose
// first half is the encoding of a multiple of the base point, and so about every signature that
// was made for another message or under another key. The hash is applied to the bytes of the
// signature, the key and the message as they stand in the text that is opened.

module Tampering {
  import opened Wrappers
  import opened Radix
  import opened Edwards
  import opened PointCodec
  import opened Scalar
  import opened Ladder
  import opened Sign
  import opened SignAgreement

  // ---- what is assumed of the curve, for refusals ----

  /** Good representatives with the same encoding stand for the same point. */
  ghost predicate Distinguishes<T, G>(abs: T -> G, good: T -> bool, encode: T -> seq<int>, p: T, q: T) {
    good(p) && good(q) && encode(p) == encode(q) ==> abs(p) == abs(q)
  }

  /** `order` divides what makes the multiple zero, and nothing less does. */
  ghost predicate ZeroAt<G>(op: (G, G) -> G, zero: G, order: nat, b: G, k: nat)
    requires order > 0
  {
    Times(op, zero, k, b) == zero <==> k % order == 0
  }

  /** Encodings tell points apart, and the base point has exactly the order. */
  ghost predicate Sharp<T(!new), G(!new)>(abs: T -> G, good: T -> bool, op: (G, G) -> G, zero: G,
                                          encode: T -> seq<int>, base: T, order: nat) {
    && order > 0
    && (forall p, q :: Distinguishes(abs, good, encode, p, q))
    && (forall k: nat :: ZeroAt(op, zero, order, abs(base), k))
  }

  /** The curve of `Curve`, with both. */
  ghost predicate SharpCurve<G(!new)>(abs: Ext -> G, good: Ext -> bool, op: (G, G) -> G, zero: G) {
    Curve(abs, good, op, zero) && Sharp(abs, good, op, zero, PackBytes, BasePoint(), ORDER)
  }

  /** Scalar bytes stand for the number they were made of, modulo `order`. */
  ghost predicate ScalarAgrees(order: nat, v: int) {
    && order > 0
    && |ScalarBytes(v)| == 32 && Digits(ScalarBytes(v), 256) && Cong(Value(ScalarBytes(v), 256), v, order)
  }

  /** What the proofs use of the curve and of the reduction, for an order that is a parameter. */
  ghost predicate CurveOfOrder<G(!new)>(abs: Ext -> G, good: Ext -> bool, op: (G, G) -> G, zero: G, order: nat) {
    && Encoded(abs, good, Sum, op, zero, PackBytes, NEUTRAL, BasePoint(), order)
    && Sharp(abs, good, op, zero, PackBytes, BasePoint(), order)
    && (forall p :: DecodesNegated(abs, good, op, zero, PackBytes, UnpackNegated, p))
    && (forall v :: ScalarAgrees(order, v))
  }

  lemma ScalarsReduced()
    ensures forall v :: ScalarAgrees(ORDER, v)
  {
    forall v
      ensures ScalarAgrees(ORDER, v)
    {
      ScalarBytesReduced(v);
      CongMod(v, ORDER);
    }
  }

  lemma SharpCurveHasOrder<G(!new)>(abs: Ext -> G, good: Ext -> bool, op: (G, G) -> G, zero: G)
    requires SharpCurve(abs, good, op, zero)
    ensures CurveOfOrder(abs, good, op, zero, ORDER)
  {
    ScalarsReduced();
  }

  // ---- multiples of an element of exact order ----

  /** Two multiples are the same exactly when they are congruent modulo the order. */
  lemma EqualMultiplesIff<G(!new)>(op: (G, G) -> G, zero: G, order: nat, b: G, n: nat, r: nat)
    requires Monoid(op, zero) && order > 0 && forall k: nat :: ZeroAt(op, zero, order, b, k)
    ensures Times(op, zero, n, b) == Times(op, zero, r, b) <==> Cong(n, r, order)
  {
    var j := Complement(r, order);
    TimesAdd(op, zero, n, j, b);
    TimesAdd(op, zero, r, j, b);
    assert ZeroAt(op, zero, order, b, n + j) && ZeroAt(op, zero, order, b, r + j);
    if Times(op, zero, n, b) == Times(op, zero, r, b) {
      CongAdd(n + j, r + j, j, j, order);
    }
    if Cong(n, r, order) {
      assert ZeroAt(op, zero, order, b, order);
      TimesModulo(op, zero, n, order, b);
      TimesModulo(op, zero, r, order, b);
    }
  }

  /** h times the complement of d, and r + x, is r exactly when x is h * d. */
  lemma EquationIff(h: int, d: int, j: int, s: int, r: int, x: int, order: int)
    requires order > 0 && j == order * d - d && Cong(s, r + x, order)
    ensures Cong(h * j + s, r, order) <==> Cong(h * d, x, order)
  {
    var y := h * d;
    assert h * j == y * order - y by {
      assert h * (order * d) == y * order;
    }
    CongShift(h * j + s, s - y, y, order);
    CongAdd(s, r + x, y, y, order);
    if Cong(r + x - y, r, order) {
      CongAdd(r, r + x - y, r - y, r - y, order);
    }
    if Cong(y, x, order) {
      CongAdd(r + x, r + x, x, y, order);
    }
  }

  /** The element that is recovered is r times the base exactly when h * d is s - r modulo the order. */
  lemma RecoveredIff<G(!new)>(op: (G, G) -> G, zero: G, b: G, negated: G, h: nat, s: nat, r: nat, d: nat,
                              order: nat, y: int, x: int)
    requires Monoid(op, zero) && order > 0 && forall k: nat :: ZeroAt(op, zero, order, b, k)
    requires op(negated, Times(op, zero, d, b)) == zero
    requires Cong(s, r + x, order) && Cong(h * d, y, order)
    ensures op(Times(op, zero, h, negated), Times(op, zero, s, b)) == Times(op, zero, r, b) <==> Cong(y, x, order)
  {
    var j := Complement(d, order);
    assert ZeroAt(op, zero, order, b, order);
    InverseIsMultiple(op, zero, negated, d, j, order, b);
    assert h * j >= 0;
    var e: nat := h * j;
    TimesProduct(op, zero, h, j, e, b);
    TimesAdd(op, zero, e, s, b);
    EqualMultiplesIff(op, zero, order, b, e + s, r);
    EquationIff(h, d, j, s, r, x, order);
  }

  /** The same for encodings of representatives. */
  lemma EncodesIff<T(!new), G(!new)>(abs: T -> G, good: T -> bool, add: (T, T) -> T, op: (G, G) -> G, zero: G,
                                     encode: T -> seq<int>, neutral: T, base: T, order: nat, negated: T,
                                     d: seq<int>, h: seq<int>, s: seq<int>, r: seq<int>, y: int, x: int)
    requires Encoded(abs, good, add, op, zero, encode, neutral, base, order)
    requires Sharp(abs, good, op, zero, encode, base, order)
    requires |d| == |h| == |s| == |r| == 32
    requires Digits(d, 256) && Digits(h, 256) && Digits(s, 256) && Digits(r, 256)
    requires good(negated) && op(abs(negated), abs(Multiple(add, neutral, base, d))) == zero
    requires Cong(Number(s), Number(r) + x, order) && Cong(Number(h) * Number(d), y, order)
    ensures encode(add(Multiple(add, neutral, negated, h), Multiple(add, neutral, base, s)))
         == encode(Multiple(add, neutral, base, r))
       <==> Cong(y, x, order)
  {
    MultipleStands(abs, good, add, op, zero, neutral, base, d);
    MultipleStands(abs, good, add, op, zero, neutral, base, s);
    MultipleStands(abs, good, add, op, zero, neutral, base, r);
    MultipleStands(abs, good, add, op, zero, neutral, negated, h);
    var p, q, t := Multiple(add, neutral, negated, h), Multiple(add, neutral, base, s), Multiple(add, neutral, base, r);
    assert AddsAt(abs, good, add, op, p, q);
    assert EncodeAlike(abs, good, encode, add(p, q), t) && Distinguishes(abs, good, encode, add(p, q), t);
    RecoveredIff(op, zero, abs(base), abs(negated), Number(h), Number(s), Number(r), Number(d), order, y, x);
  }

  // ---- verification ----

  /** The hash may be reduced before it is multiplied. */
  lemma ReducedHash(v: int, h: int, d: int, y: int, order: int)
    requires order > 0 && Cong(h, v, order) && y == v * d
    ensures Cong(h * d, y, order)
  {
    CongMul(h, v, d, d, order);
  }

  /** The fields of the text that is opened. */
  lemma TextParts(top: seq<int>, s: seq<int>, m: seq<int>)
    requires |top| == |s| == 32
    ensures |top + s + m| >= 64 && (top + s + m)[..32] == top && (top + s + m)[32..64] == s && (top + s + m)[64..] == m
  {}

  /** What is compared, for a text in three parts. */
  lemma OpenedParts(hash: Hash, top: seq<int>, s: seq<int>, m: seq<int>, pk: seq<int>, negated: Ext, h: seq<int>)
    requires |top| == |s| == |pk| == |h| == 32 && UnpackNegated(pk) == Some(negated)
    requires h == HashScalar(hash, top + pk + m)
    ensures Opened(hash, top + s + m, pk)
         == if PackBytes(Sum(Multiple(Sum, NEUTRAL, negated, h), Multiple(Sum, NEUTRAL, BasePoint(), s))) == top
            then Some(m) else None
  {
    TextParts(top, s, m);
  }

  /** The public key of a seed decodes to the negative of its point. */
  lemma KeyNegated<G(!new)>(abs: Ext -> G, good: Ext -> bool, op: (G, G) -> G, zero: G, order: nat,
                            hash: Hash, seed: seq<int>)
    returns (negated: Ext)
    requires CurveOfOrder(abs, good, op, zero, order) && HashTo64(hash) && |seed| == 32
    ensures |PublicKey(hash, seed)| == 32 && UnpackNegated(PublicKey(hash, seed)) == Some(negated) && good(negated)
    ensures |Pruned(hash(seed))| == 32 && Digits(Pruned(hash(seed)), 256)
    ensures op(abs(negated), abs(Multiple(Sum, NEUTRAL, BasePoint(), Pruned(hash(seed))))) == zero
  {
    var d := Pruned(hash(seed));
    PrunedDigits(hash(seed));
    PackBytesPacks(BaseMultiple(d));
    KeyDecodes(abs, good, Sum, op, zero, PackBytes, UnpackNegated, NEUTRAL, BasePoint(), order, d);
    negated := UnpackNegated(PublicKey(hash, seed)).value;
  }

  /** Whether a text is opened, in terms of the reduced hash. */
  lemma OpensIff<G(!new)>(abs: Ext -> G, good: Ext -> bool, op: (G, G) -> G, zero: G, order: nat, hash: Hash,
                          pk: seq<int>, negated: Ext, d: seq<int>, h: seq<int>, r: seq<int>, s: seq<int>, m: seq<int>,
                          y: int, x: int)
    returns (accepted: bool)
    requires CurveOfOrder(abs, good, op, zero, order) && |pk| == |d| == |h| == |r| == |s| == 32
    requires Digits(d, 256) && Digits(h, 256) && Digits(r, 256) && Digits(s, 256)
    requires UnpackNegated(pk) == Some(negated) && good(negated)
    requires op(abs(negated), abs(Multiple(Sum, NEUTRAL, BasePoint(), d))) == zero
    requires h == HashScalar(hash, PackBytes(BaseMultiple(r)) + pk + m)
    requires Cong(Number(s), Number(r) + x, order) && Cong(Number(h) * Number(d), y, order)
    ensures accepted <==> Cong(y, x, order)
    ensures Opened(hash, PackBytes(BaseMultiple(r)) + s + m, pk) == if accepted then Some(m) else None
  {
    OpenedParts(hash, PackBytes(BaseMultiple(r)), s, m, pk, negated, h);
    EncodesIff(abs, good, Sum, op, zero, PackBytes, NEUTRAL, BasePoint(), order, negated, d, h, s, r, y, x);
    accepted := PackBytes(Sum(Multiple(Sum, NEUTRAL, negated, h), Multiple(Sum, NEUTRAL, BasePoint(), s)))
             == PackBytes(BaseMultiple(r));
  }

  /** The same under the public key of a seed. */
  lemma VerifiesOfOrder<G(!new)>(abs: Ext -> G, good: Ext -> bool, op: (G, G) -> G, zero: G, order: nat, hash: Hash,
                                 seed: seq<int>, r: seq<int>, s: seq<int>, m: seq<int>, pk: seq<int>, top: seq<int>,
                                 y: int, x: int)
    returns (accepted: bool)
    requires CurveOfOrder(abs, good, op, zero, order) && HashTo64(hash)
    requires |seed| == |r| == |s| == 32 && Digits(r, 256) && Digits(s, 256)
    requires pk == PublicKey(hash, seed) && top == PackBytes(BaseMultiple(r))
    requires y == Value(hash(top + pk + m), 256) * Value(Pruned(hash(seed)), 256)
    requires Cong(Value(s, 256), Value(r, 256) + x, order)
    ensures |pk| == 32
    ensures accepted <==> Cong(y, x, order)
    ensures Opened(hash, top + s + m, pk) == if accepted then Some(m) else None
  {
    var d, h := Pruned(hash(seed)), HashScalar(hash, top + pk + m);
    var negated := KeyNegated(abs, good, op, zero, order, hash, seed);
    assert ScalarAgrees(order, Value(hash(top + pk + m), 256));
    ReducedHash(Value(hash(top + pk + m), 256), Value(h, 256), Value(d, 256), y, order);
    accepted := OpensIff(abs, good, op, zero, order, hash, pk, negated, d, h, r, s, m, y, x);
  }

  /** The verification equation: under the public key of a seed, a text that begins with the encoding
      of r times the base point and with s is accepted exactly when the hash of what stands in the text
      times the secret scalar is s - r modulo the order. */
  lemma VerifiesIff<G(!new)>(abs: Ext -> G, good: Ext -> bool, op: (G, G) -> G, zero: G, hash: Hash,
                             seed: seq<int>, r: seq<int>, s: seq<int>, m: seq<int>, pk: seq<int>, top: seq<int>,
                             y: int, x: int)
    returns (accepted: bool)
    requires SharpCurve(abs, good, op, zero) && HashTo64(hash)
    requires |seed| == |r| == |s| == 32 && Digits(r, 256) && Digits(s, 256)
    requires pk == PublicKey(hash, seed) && top == PackBytes(BaseMultiple(r))
    requires y == Value(hash(top + pk + m), 256) * Value(Pruned(hash(seed)), 256)
    requires x == Value(s, 256) - Value(r, 256)
    ensures |pk| == 32
    ensures accepted <==> Cong(y, x, ORDER)
    ensures Opened(hash, top + s + m, pk) == if accepted then Some(m) else None
  {
    SharpCurveHasOrder(abs, good, op, zero);
    accepted := VerifiesOfOrder(abs, good, op, zero, ORDER, hash, seed, r, s, m, pk, top, y, x);
  }

  // ---- signatures of something else ----

  /** `SignatureEquation` for an order that is a parameter. */
  lemma SignedOfOrder(order: nat, hash: Hash, seed: seq<int>, m: seq<int>, pk: seq<int>, sig: seq<int>, x: int)
    returns (r: seq<int>, top: seq<int>, s: seq<int>)
    requires (forall v :: ScalarAgrees(order, v)) && HashTo64(hash) && |seed| == |pk| == 32
    requires |Signed(hash, m, seed + pk)| >= 64 && sig == Signed(hash, m, seed + pk)[..64]
    requires x == Value(hash(sig[..32] + pk + m), 256) * Value(Pruned(hash(seed)), 256)
    ensures |r| == |top| == |s| == 32 && Digits(r, 256) && Digits(s, 256)
    ensures Cong(Value(r, 256), Value(hash(hash(seed)[32..] + m), 256), order)
    ensures sig == top + s && top == PackBytes(BaseMultiple(r))
    ensures Cong(Value(s, 256), Value(r, 256) + x, order)
  {
    var sk := seed + pk;
    assert sk[..32] == seed && sk[32..] == pk;
    top, r, s := SignedTop(hash, m, sk), SignedR(hash, m, sk), SignedS(hash, m, sk);
    SignedFields(hash, m, sk);
    assert sig == top + s && sig[..32] == top;
    var v, h, d := Value(hash(top + pk + m), 256), Value(SignedH(hash, m, sk), 256), Value(Pruned(hash(seed)), 256);
    assert ScalarAgrees(order, Value(hash(hash(seed)[32..] + m), 256));
    assert ScalarAgrees(order, v) && ScalarAgrees(order, Value(r, 256) + h * d);
    ReducedHash(v, h, d, x, order);
    CongAdd(Value(r, 256), Value(r, 256), h * d, x, order);
  }

  /** What a signature consists of: R encodes r times the base point for the nonce r, the hash of the
      second half of the hashed seed and the message, and S is r plus the hash of R, the key and the
      message times the secret scalar, modulo the order. */
  lemma SignatureEquation(hash: Hash, seed: seq<int>, m: seq<int>, pk: seq<int>, sig: seq<int>, x: int)
    returns (r: seq<int>, top: seq<int>, s: seq<int>)
    requires HashTo64(hash) && |seed| == |pk| == 32
    requires |Signed(hash, m, seed + pk)| >= 64 && sig == Signed(hash, m, seed + pk)[..64]
    requires x == Value(hash(sig[..32] + pk + m), 256) * Value(Pruned(hash(seed)), 256)
    ensures |r| == |top| == |s| == 32 && Digits(r, 256) && Digits(s, 256)
    ensures Cong(Value(r, 256), Value(hash(hash(seed)[32..] + m), 256), ORDER)
    ensures sig == top + s && top == PackBytes(BaseMultiple(r))
    ensures Cong(Value(s, 256), Value(r, 256) + x, ORDER)
  {
    ScalarsReduced();
    r, top, s := SignedOfOrder(ORDER, hash, seed, m, pk, sig, x);
  }

  /** `TamperedIff` for an order that is a parameter. */
  lemma TamperedOfOrder<G(!new)>(abs: Ext -> G, good: Ext -> bool, op: (G, G) -> G, zero: G, order: nat, hash: Hash,
                                 seed: seq<int>, m: seq<int>, seed': seq<int>, m': seq<int>,
                                 pk: seq<int>, pk': seq<int>, sig: seq<int>, x: int, x': int)
    returns (accepted: bool)
    requires CurveOfOrder(abs, good, op, zero, order) && HashTo64(hash) && |seed| == |seed'| == 32
    requires pk == PublicKey(hash, seed) && pk' == PublicKey(hash, seed') && |pk| == 32
    requires |Signed(hash, m, seed + pk)| >= 64 && sig == Signed(hash, m, seed + pk)[..64]
    requires x == Value(hash(sig[..32] + pk + m), 256) * Value(Pruned(hash(seed)), 256)
    requires x' == Value(hash(sig[..32] + pk' + m'), 256) * Value(Pruned(hash(seed')), 256)
    ensures |pk'| == 32
    ensures accepted <==> Cong(x', x, order)
    ensures Opened(hash, sig + m', pk') == if accepted then Some(m') else None
  {
    var r, top, s := SignedOfOrder(order, hash, seed, m, pk, sig, x);
    assert sig[..32] == top && sig + m' == top + s + m';
    accepted := VerifiesOfOrder(abs, good, op, zero, order, hash, seed', r, s, m', pk', top, x', x);
  }

  /** A signature made for `m` with the key pair of `seed`, put in front of any message and opened
      under the public key of any seed: it is accepted exactly when the hash of R, that key and that
      message times that scalar is the same modulo the order as for the key and the message signed. */
  lemma TamperedIff<G(!new)>(abs: Ext -> G, good: Ext -> bool, op: (G, G) -> G, zero: G, hash: Hash,
                             seed: seq<int>, m: seq<int>, seed': seq<int>, m': seq<int>,
                             pk: seq<int>, pk': seq<int>, sig: seq<int>, x: int, x': int)
    returns (accepted: bool)
    requires SharpCurve(abs, good, op, zero) && HashTo64(hash) && |seed| == |seed'| == 32
    requires pk == PublicKey(hash, seed) && pk' == PublicKey(hash, seed') && |pk| == 32
    requires |Signed(hash, m, seed + pk)| >= 64 && sig == Signed(hash, m, seed + pk)[..64]
    requires x == Value(hash(sig[..32] + pk + m), 256) * Value(Pruned(hash(seed)), 256)
    requires x' == Value(hash(sig[..32] + pk' + m'), 256) * Value(Pruned(hash(seed')), 256)
    ensures |pk'| == 32
    ensures accepted <==> Cong(x', x, ORDER)
    ensures Opened(hash, sig + m', pk') == if accepted then Some(m') else None
  {
    SharpCurveHasOrder(abs, good, op, zero);
    accepted := TamperedOfOrder(abs, good, op, zero, ORDER, hash, seed, m, seed', m', pk, pk', sig, x, x');
  }
}
