// Every signature made by crypto_sign is accepted by crypto_sign_open, which gives
// the message back. What is assumed of the curve is gathered in one predicate.

module SignAgreement {
  import opened Wrappers
  import opened Radix
  import opened Edwards
  import opened PointCodec
  import opened Scalar
  import opened Ladder
  import opened Sign

  // ---- what is assumed of the curve ----

  /** Good representatives of the same point have the same encoding. */
  ghost predicate EncodeAlike<T, G>(abs: T -> G, good: T -> bool, encode: T -> seq<int>, p: T, q: T) {
    good(p) && good(q) && abs(p) == abs(q) ==> encode(p) == encode(q)
  }

  /** `good` representatives under `add` stand for a monoid in which the base has finite order,
      and the encoding depends only on what is stood for. */
  ghost predicate Encoded<T(!new), G(!new)>(abs: T -> G, good: T -> bool, add: (T, T) -> T, op: (G, G) -> G, zero: G,
                                            encode: T -> seq<int>, neutral: T, base: T, order: nat) {
    && Monoid(op, zero) && Represents(abs, good, add, op)
    && good(neutral) && abs(neutral) == zero && good(base)
    && order > 0 && Times(op, zero, order, abs(base)) == zero
    && (forall p, q :: EncodeAlike(abs, good, encode, p, q))
  }

  /** Decompression of an encoded point gives a representative of its negative. */
  ghost predicate DecodesNegated<T, G>(abs: T -> G, good: T -> bool, op: (G, G) -> G, zero: G,
                                       encode: T -> seq<int>, decode: seq<int> --> Option<T>, p: T) {
    good(p) ==>
      && decode.requires(encode(p)) && decode(encode(p)).Some?
      && good(decode(encode(p)).value)
      && op(abs(decode(encode(p)).value), abs(p)) == zero
  }

  /** The good representatives stand for the elements of a group in which the base point
      has the order of modL, and in which the addition formulas compute the operation. */
  ghost predicate Curve<G(!new)>(abs: Ext -> G, good: Ext -> bool, op: (G, G) -> G, zero: G) {
    && Encoded(abs, good, Sum, op, zero, PackBytes, NEUTRAL, BasePoint(), ORDER)
    && (forall p :: DecodesNegated(abs, good, op, zero, PackBytes, UnpackNegated, p))
  }

  // ---- multiples of an element of finite order ----

  lemma {:induction false} TimesProduct<G(!new)>(op: (G, G) -> G, zero: G, h: nat, j: nat, e: nat, a: G)
    requires Monoid(op, zero) && e == h * j
    ensures Times(op, zero, h, Times(op, zero, j, a)) == Times(op, zero, e, a)
  {
    if h > 0 {
      var e': nat := e - j by {
        assert (h - 1) * j == h * j - j;
        assert (h - 1) * j >= 0;
      }
      TimesProduct(op, zero, h - 1, j, e', a);
      TimesAdd(op, zero, e', j, a);
    }
  }

  lemma TimesZero<G(!new)>(op: (G, G) -> G, zero: G, k: nat)
    requires Monoid(op, zero)
    ensures Times(op, zero, k, zero) == zero
  {
    if k > 0 {
      TimesZero(op, zero, k - 1);
      assert Neutral(op, zero, zero);
    }
  }

  /** Multiples of the order do not matter. */
  lemma TimesModulo<G(!new)>(op: (G, G) -> G, zero: G, n: nat, order: nat, a: G)
    requires Monoid(op, zero) && order > 0 && Times(op, zero, order, a) == zero
    ensures Times(op, zero, n, a) == Times(op, zero, n % order, a)
  {
    var q, r := n / order, n % order;
    var e: nat := q * order;
    assert n == e + r;
    TimesProduct(op, zero, q, order, e, a);
    TimesZero(op, zero, q);
    TimesAdd(op, zero, e, r, a);
    assert Neutral(op, zero, Times(op, zero, r, a));
  }

  /** The inverse of d times the element is the multiple that completes d to the order. */
  lemma InverseIsMultiple<G(!new)>(op: (G, G) -> G, zero: G, x: G, d: nat, j: nat, order: nat, a: G)
    requires Monoid(op, zero) && order > 0 && Times(op, zero, order, a) == zero
    requires (d + j) % order == 0 && op(x, Times(op, zero, d, a)) == zero
    ensures x == Times(op, zero, j, a)
  {
    TimesModulo(op, zero, d + j, order, a);
    TimesAdd(op, zero, d, j, a);
    assert Associative(op, x, Times(op, zero, d, a), Times(op, zero, j, a));
    assert Neutral(op, zero, x);
    assert Neutral(op, zero, Times(op, zero, j, a));
  }

  /** The exponent of the recovered point: h * (-d) + (r + h * d) is r modulo the order. */
  lemma RecoveredExponent(h: nat, d: nat, r: nat, s: nat, order: nat) returns (j: nat, e: nat)
    requires order > 0 && s == (r + h * d) % order
    ensures (d + j) % order == 0 && e == h * j && (e + s) % order == r % order
  {
    j := Complement(d, order);
    assert h * j >= 0;
    e := h * j;
    var k := (r + h * d) / order;
    ExponentShift(h, d, j, r, s, k, order);
    CongShift(e + s, r, h * d - k, order);
  }

  /** The multiplier that completes d to a multiple of the order. */
  lemma Complement(d: nat, order: nat) returns (j: nat)
    requires order > 0
    ensures (d + j) % order == 0 && j == order * d - d
  {
    assert order * d >= d;
    j := order * d - d;
    FloorUnique(d + j, order, d, 0);
  }

  lemma ExponentShift(h: int, d: int, j: int, r: int, s: int, k: int, order: int)
    requires j == order * d - d && r + h * d == k * order + s
    ensures h * j + s == r + (h * d - k) * order
  {
    var x := h * d;
    assert h * (order * d) == x * order;
    assert h * j == h * (order * d) - x;
    assert (x - k) * order == x * order - k * order;
  }

  // ---- agreement ----

  /** The group element that crypto_sign_open computes is r times the base point. */
  lemma RecoveredElement<G(!new)>(op: (G, G) -> G, zero: G, b: G, negated: G,
                                  h: nat, s: nat, r: nat, d: nat, order: nat)
    requires Monoid(op, zero) && order > 0 && Times(op, zero, order, b) == zero
    requires op(negated, Times(op, zero, d, b)) == zero && s == (r + h * d) % order
    ensures op(Times(op, zero, h, negated), Times(op, zero, s, b)) == Times(op, zero, r, b)
  {
    var j, e := RecoveredExponent(h, d, r, s, order);
    InverseIsMultiple(op, zero, negated, d, j, order, b);
    TimesProduct(op, zero, h, j, e, b);
    TimesAdd(op, zero, e, s, b);
    TimesModulo(op, zero, e + s, order, b);
    TimesModulo(op, zero, r, order, b);
  }

  /** The number of a byte string. */
  function Number(s: seq<int>): nat
    requires |s| == 32 && Digits(s, 256)
  {
    ValueOfDigits(s, 256);
    Value(s, 256)
  }

  /** The ladder's first point for a scalar. */
  function Multiple<T>(add: (T, T) -> T, neutral: T, q: T, s: seq<int>): T
    requires |s| == 32
  {
    Run(add, neutral, q, s, 256).0
  }

  lemma MultipleStands<T(!new), G(!new)>(abs: T -> G, good: T -> bool, add: (T, T) -> T, op: (G, G) -> G, zero: G,
                                         neutral: T, q: T, s: seq<int>)
    requires Monoid(op, zero) && Represents(abs, good, add, op)
    requires good(neutral) && abs(neutral) == zero && good(q) && |s| == 32 && Digits(s, 256)
    ensures good(Multiple(add, neutral, q, s))
    ensures abs(Multiple(add, neutral, q, s)) == Times(op, zero, Number(s), abs(q))
  {
    LadderMultiplies(abs, good, add, op, zero, neutral, q, s, Number(s));
  }

  /** h times the negated key plus S times the base encodes like r times the base. */
  lemma RecoveredEncodesR<T(!new), G(!new)>(abs: T -> G, good: T -> bool, add: (T, T) -> T, op: (G, G) -> G, zero: G,
                                            encode: T -> seq<int>, neutral: T, base: T, order: nat,
                                            negated: T, d: seq<int>, h: seq<int>, s: seq<int>, r: seq<int>)
    requires Encoded(abs, good, add, op, zero, encode, neutral, base, order)
    requires |d| == |h| == |s| == |r| == 32
    requires Digits(d, 256) && Digits(h, 256) && Digits(s, 256) && Digits(r, 256)
    requires good(negated) && op(abs(negated), abs(Multiple(add, neutral, base, d))) == zero
    requires Number(s) == (Number(r) + Number(h) * Number(d)) % order
    ensures encode(add(Multiple(add, neutral, negated, h), Multiple(add, neutral, base, s)))
         == encode(Multiple(add, neutral, base, r))
  {
    MultipleStands(abs, good, add, op, zero, neutral, base, d);
    MultipleStands(abs, good, add, op, zero, neutral, base, s);
    MultipleStands(abs, good, add, op, zero, neutral, base, r);
    MultipleStands(abs, good, add, op, zero, neutral, negated, h);
    var p, q := Multiple(add, neutral, negated, h), Multiple(add, neutral, base, s);
    assert AddsAt(abs, good, add, op, p, q);
    RecoveredElement(op, zero, abs(base), abs(negated), Number(h), Number(s), Number(r), Number(d), order);
    assert EncodeAlike(abs, good, encode, add(p, q), Multiple(add, neutral, base, r));
  }

  /** The encoding of a multiple of the base decodes to its negative. */
  lemma KeyDecodes<T(!new), G(!new)>(abs: T -> G, good: T -> bool, add: (T, T) -> T, op: (G, G) -> G, zero: G,
                                     encode: T -> seq<int>, decode: seq<int> --> Option<T>, neutral: T, base: T,
                                     order: nat, d: seq<int>)
    requires Encoded(abs, good, add, op, zero, encode, neutral, base, order) && |d| == 32 && Digits(d, 256)
    requires forall p :: DecodesNegated(abs, good, op, zero, encode, decode, p)
    ensures var p := Multiple(add, neutral, base, d);
            && decode.requires(encode(p)) && decode(encode(p)).Some? && good(decode(encode(p)).value)
            && op(abs(decode(encode(p)).value), abs(p)) == zero
  {
    MultipleStands(abs, good, add, op, zero, neutral, base, d);
    assert DecodesNegated(abs, good, op, zero, encode, decode, Multiple(add, neutral, base, d));
  }

  lemma OpensWhen(hash: Hash, sm: seq<int>, pk: seq<int>, negated: Ext, m: seq<int>)
    requires |pk| == 32 && |sm| >= 64 && UnpackNegated(pk) == Some(negated) && sm[64..] == m
    requires PackBytes(Recovered(hash, sm, pk, negated)) == sm[..32]
    ensures Opened(hash, sm, pk) == Some(m)
  {}

  /** The point recovered from a signature encodes to its first field. */
  lemma RecoversTop<G(!new)>(abs: Ext -> G, good: Ext -> bool, op: (G, G) -> G, zero: G,
                             hash: Hash, m: seq<int>, sk: seq<int>, negated: Ext)
    requires Curve(abs, good, op, zero) && HashTo64(hash) && |sk| == 64
    requires |Pruned(hash(sk[..32]))| == 32 && Digits(Pruned(hash(sk[..32])), 256) && good(negated)
    requires op(abs(negated), abs(Multiple(Sum, NEUTRAL, BasePoint(), Pruned(hash(sk[..32]))))) == zero
    ensures |Signed(hash, m, sk)| >= 64
    ensures PackBytes(Recovered(hash, Signed(hash, m, sk), sk[32..], negated)) == Signed(hash, m, sk)[..32]
  {
    SignedFields(hash, m, sk);
    RecoveredEncodesR(abs, good, Sum, op, zero, PackBytes, NEUTRAL, BasePoint(), ORDER, negated,
                      Pruned(hash(sk[..32])), SignedH(hash, m, sk), SignedS(hash, m, sk), SignedR(hash, m, sk));
  }

  /** Every signature opens to the message it was made for: for every hash, seed and message,
      under the key pair of the seed. */
  lemma SignedOpens<G(!new)>(abs: Ext -> G, good: Ext -> bool, op: (G, G) -> G, zero: G,
                             hash: Hash, seed: seq<int>, m: seq<int>)
    requires Curve(abs, good, op, zero) && HashTo64(hash) && |seed| == 32
    ensures |PublicKey(hash, seed)| == 32
    ensures Opened(hash, Signed(hash, m, seed + PublicKey(hash, seed)), PublicKey(hash, seed)) == Some(m)
  {
    var pk, d := PublicKey(hash, seed), hash(seed);
    PrunedDigits(d);
    PackBytesPacks(BaseMultiple(Pruned(d)));
    KeyDecodes(abs, good, Sum, op, zero, PackBytes, UnpackNegated, NEUTRAL, BasePoint(), ORDER, Pruned(d));
    var sk := seed + pk;
    assert sk[..32] == seed && sk[32..] == pk;
    var negated := UnpackNegated(pk).value;
    RecoversTop(abs, good, op, zero, hash, m, sk, negated);
    SignedFields(hash, m, sk);
    OpensWhen(hash, Signed(hash, m, sk), pk, negated, m);
  }

  /** The fields of a signed message. */
  lemma SignedParts(hash: Hash, m: seq<int>, sk: seq<int>)
    requires HashTo64(hash) && |sk| == 64
    requires |SignedTop(hash, m, sk)| == 32 && |SignedS(hash, m, sk)| == 32
    ensures |Signed(hash, m, sk)| == 64 + |m|
    ensures Signed(hash, m, sk)[..32] == SignedTop(hash, m, sk)
    ensures Signed(hash, m, sk)[32..64] == SignedS(hash, m, sk)
    ensures Signed(hash, m, sk)[64..] == m
  {}

  /** The fields of a signed message, and the reduced scalars behind them. */
  lemma SignedFields(hash: Hash, m: seq<int>, sk: seq<int>)
    requires HashTo64(hash) && |sk| == 64
    ensures |Signed(hash, m, sk)| == 64 + |m|
    ensures Signed(hash, m, sk)[..32] == SignedTop(hash, m, sk)
    ensures Signed(hash, m, sk)[32..64] == SignedS(hash, m, sk)
    ensures Signed(hash, m, sk)[64..] == m
    ensures |SignedS(hash, m, sk)| == 32 && Digits(SignedS(hash, m, sk), 256)
    ensures Digits(SignedR(hash, m, sk), 256) && |SignedH(hash, m, sk)| == 32 && Digits(SignedH(hash, m, sk), 256)
    ensures Value(SignedS(hash, m, sk), 256)
         == (Value(SignedR(hash, m, sk), 256)
             + Value(SignedH(hash, m, sk), 256) * Value(Pruned(hash(sk[..32])), 256)) % ORDER
  {
    SignedNonce(hash, m, sk);
    SignedDigest(hash, m, sk);
    SignedScalar(hash, m, sk);
    SignedParts(hash, m, sk);
  }

  lemma SignedNonce(hash: Hash, m: seq<int>, sk: seq<int>)
    requires HashTo64(hash) && |sk| == 64
    ensures |SignedR(hash, m, sk)| == 32 && Digits(SignedR(hash, m, sk), 256) && |SignedTop(hash, m, sk)| == 32
  {
    ScalarBytesReduced(Value(hash(hash(sk[..32])[32..] + m), 256));
    PackBytesPacks(BaseMultiple(SignedR(hash, m, sk)));
  }

  lemma SignedDigest(hash: Hash, m: seq<int>, sk: seq<int>)
    requires HashTo64(hash) && |sk| == 64
    ensures |SignedH(hash, m, sk)| == 32 && Digits(SignedH(hash, m, sk), 256)
  {
    ScalarBytesReduced(Value(hash(SignedTop(hash, m, sk) + sk[32..] + m), 256));
  }

  lemma SignedScalar(hash: Hash, m: seq<int>, sk: seq<int>)
    requires HashTo64(hash) && |sk| == 64
    ensures |SignedS(hash, m, sk)| == 32 && Digits(SignedS(hash, m, sk), 256)
    ensures Value(SignedS(hash, m, sk), 256)
         == (Value(SignedR(hash, m, sk), 256)
             + Value(SignedH(hash, m, sk), 256) * Value(Pruned(hash(sk[..32])), 256)) % ORDER
  {
    ScalarBytesReduced(Value(SignedR(hash, m, sk), 256)
                       + Value(SignedH(hash, m, sk), 256) * Value(Pruned(hash(sk[..32])), 256));
  }
}
