// SHA-512: the word functions and constants, and the hash assembled from them. Words are
// integers below 2^64; only the bitwise functions turn them into bit-vectors.

module Sha512 {
  import opened HashCore
  import Radix

  const MODULUS := 0x1_0000_0000_0000_0000

  type Word = x: int | 0 <= x < 0x1_0000_0000_0000_0000

  const K: seq<Word> := [
    0x428a2f98d728ae22, 0x7137449123ef65cd, 0xb5c0fbcfec4d3b2f, 0xe9b5dba58189dbbc,
    0x3956c25bf348b538, 0x59f111f1b605d019, 0x923f82a4af194f9b, 0xab1c5ed5da6d8118,
    0xd807aa98a3030242, 0x12835b0145706fbe, 0x243185be4ee4b28c, 0x550c7dc3d5ffb4e2,
    0x72be5d74f27b896f, 0x80deb1fe3b1696b1, 0x9bdc06a725c71235, 0xc19bf174cf692694,
    0xe49b69c19ef14ad2, 0xefbe4786384f25e3, 0x0fc19dc68b8cd5b5, 0x240ca1cc77ac9c65,
    0x2de92c6f592b0275, 0x4a7484aa6ea6e483, 0x5cb0a9dcbd41fbd4, 0x76f988da831153b5,
    0x983e5152ee66dfab, 0xa831c66d2db43210, 0xb00327c898fb213f, 0xbf597fc7beef0ee4,
    0xc6e00bf33da88fc2, 0xd5a79147930aa725, 0x06ca6351e003826f, 0x142929670a0e6e70,
    0x27b70a8546d22ffc, 0x2e1b21385c26c926, 0x4d2c6dfc5ac42aed, 0x53380d139d95b3df,
    0x650a73548baf63de, 0x766a0abb3c77b2a8, 0x81c2c92e47edaee6, 0x92722c851482353b,
    0xa2bfe8a14cf10364, 0xa81a664bbc423001, 0xc24b8b70d0f89791, 0xc76c51a30654be30,
    0xd192e819d6ef5218, 0xd69906245565a910, 0xf40e35855771202a, 0x106aa07032bbd1b8,
    0x19a4c116b8d2d0c8, 0x1e376c085141ab53, 0x2748774cdf8eeb99, 0x34b0bcb5e19b48a8,
    0x391c0cb3c5c95a63, 0x4ed8aa4ae3418acb, 0x5b9cca4f7763e373, 0x682e6ff3d6b2b8a3,
    0x748f82ee5defb2fc, 0x78a5636f43172f60, 0x84c87814a1f0ab72, 0x8cc702081a6439ec,
    0x90befffa23631e28, 0xa4506cebde82bde9, 0xbef9a3f7b2c67915, 0xc67178f2e372532b,
    0xca273eceea26619c, 0xd186b8c721c0c207, 0xeada7dd6cde0eb1e, 0xf57d4f7fee6ed178,
    0x06f067aa72176fba, 0x0a637dc5a2c898a6, 0x113f9804bef90dae, 0x1b710b35131c471b,
    0x28db77f523047d84, 0x32caab7b40c72493, 0x3c9ebe0a15c9bebc, 0x431d67c49c100d4c,
    0x4cc5d4becb3e42b6, 0x597f299cfc657e2a, 0x5fcb6fab3ad6faec, 0x6c44198c4a475817]

  const IV: seq<Byte> := [
    0x6a, 0x09, 0xe6, 0x67, 0xf3, 0xbc, 0xc9, 0x08, 0xbb, 0x67, 0xae, 0x85, 0x84, 0xca, 0xa7, 0x3b,
    0x3c, 0x6e, 0xf3, 0x72, 0xfe, 0x94, 0xf8, 0x2b, 0xa5, 0x4f, 0xf5, 0x3a, 0x5f, 0x1d, 0x36, 0xf1,
    0x51, 0x0e, 0x52, 0x7f, 0xad, 0xe6, 0x82, 0xd1, 0x9b, 0x05, 0x68, 0x8c, 0x2b, 0x3e, 0x6c, 0x1f,
    0x1f, 0x83, 0xd9, 0xab, 0xfb, 0x41, 0xbd, 0x6b, 0x5b, 0xe0, 0xcd, 0x19, 0x13, 0x7e, 0x21, 0x79]

  // ---- word functions, section 4.1.3 of FIPS 180-4 ----

  /** Rotation to the right. */
  function R(x: bv64, c: bv64): bv64
    requires c <= 64
  {
    (x >> c) | (x << (64 - c))
  }

  function ChBits(x: bv64, y: bv64, z: bv64): bv64 { (x & y) ^ (!x & z) }
  function MajBits(x: bv64, y: bv64, z: bv64): bv64 { (x & y) ^ (x & z) ^ (y & z) }
  function Xor3(x: bv64, y: bv64, z: bv64): bv64 { x ^ y ^ z }

  function BigBits0(x: bv64): bv64 { Xor3(R(x, 28), R(x, 34), R(x, 39)) }
  function BigBits1(x: bv64): bv64 { Xor3(R(x, 14), R(x, 18), R(x, 41)) }
  function SmallBits0(x: bv64): bv64 { Xor3(R(x, 1), R(x, 8), x >> 7) }
  function SmallBits1(x: bv64): bv64 { Xor3(R(x, 19), R(x, 61), x >> 6) }

  function Ch(x: Word, y: Word, z: Word): Word { ChBits(x as bv64, y as bv64, z as bv64) as Word }
  function Maj(x: Word, y: Word, z: Word): Word { MajBits(x as bv64, y as bv64, z as bv64) as Word }
  function BigSigma0(x: Word): Word { BigBits0(x as bv64) as Word }
  function BigSigma1(x: Word): Word { BigBits1(x as bv64) as Word }
  function SmallSigma0(x: Word): Word { SmallBits0(x as bv64) as Word }
  function SmallSigma1(x: Word): Word { SmallBits1(x as bv64) as Word }

  /** Addition of u64 wraps around. */
  function Add(x: Word, y: Word): Word {
    (x + y) % MODULUS
  }

  function ToWord(n: nat): Word {
    n % MODULUS
  }

  lemma AddAssociates(a: Word, b: Word, c: Word)
    ensures Add(Add(a, b), c) == Add(a, Add(b, c))
  {
    Radix.CongMod(a + b, MODULUS);
    Radix.CongMod(b + c, MODULUS);
    Radix.CongAdd(Add(a, b), a + b, c, c, MODULUS);
    Radix.CongAdd(a, a, Add(b, c), b + c, MODULUS);
  }

  // ---- words in storage ----

  /** A word shifted up by a byte, with `b` below it: (u << 8) | b. */
  function Shifted(u: Word, b: Byte): (r: Word)
    ensures u < 0x100_0000_0000_0000 ==> r == 256 * u + b
  {
    ShiftedFits(u, b);
    (256 * u) % MODULUS + b
  }

  lemma ShiftedFits(u: Word, b: Byte)
    ensures 0 <= (256 * u) % MODULUS + b < MODULUS
    ensures u < 0x100_0000_0000_0000 ==> (256 * u) % MODULUS == 256 * u
  {
    var q, r := u / 0x100_0000_0000_0000, u % 0x100_0000_0000_0000;
    Radix.FloorUnique(256 * u, MODULUS, q, 256 * r);
  }

  /** dl64 on the first `n` bytes: the most significant first. */
  function LoadFirst(x: seq<Byte>, n: nat): Word
    requires n <= |x|
  {
    if n == 0 then 0 else Shifted(LoadFirst(x, n - 1), x[n - 1])
  }

  function Load(x: seq<Byte>): Word {
    LoadFirst(x, if |x| < 8 then |x| else 8)
  }

  /** The low `n` bytes of a word, the most significant first. */
  function StoreLast(u: nat, n: nat): (s: seq<Byte>)
    ensures |s| == n
  {
    if n == 0 then [] else StoreLast(u / 256, n - 1) + [u % 256]
  }

  function Store(u: Word): seq<Byte> {
    StoreLast(u, 8)
  }

  /** dl64 */
  method Dl64(x: seq<Byte>) returns (u: Word)
    requires |x| >= 8
    ensures u == Load(x)
  {
    u := 0;
    for i := 0 to 8
      invariant u == LoadFirst(x, i)
    {
      u := Shifted(u, x[i]);
    }
  }

  /** ts64, on a buffer: the loop runs from the last byte to the first. */
  method Ts64(x: array<Byte>, at: nat, w: Word)
    requires at + 8 <= x.Length
    modifies x
    ensures x[at..at + 8] == Store(w)
    ensures x[..at] == old(x[..at]) && x[at + 8..] == old(x[at + 8..])
  {
    var u: nat, i := w, 7;
    while i >= 0
      invariant -1 <= i <= 7
      invariant StoreLast(u, i + 1) + x[at + i + 1..at + 8] == Store(w)
      invariant x[..at] == old(x[..at]) && x[at + 8..] == old(x[at + 8..])
    {
      ghost var rest := x[at + i + 1..at + 8];
      x[at + i] := u % 256;
      assert x[at + i..at + 8] == [u % 256] + rest;
      assert StoreLast(u, i + 1) + rest == StoreLast(u / 256, i) + x[at + i..at + 8];
      u := u / 256;
      i := i - 1;
    }
    assert x[at..at + 8] == [] + x[at..at + 8];
  }

  // ---- storing and loading again ----

  lemma {:induction false} LoadPrefix(s: seq<Byte>, t: seq<Byte>, n: nat)
    requires n <= |s|
    ensures LoadFirst(s + t, n) == LoadFirst(s, n)
  {
    if n > 0 {
      LoadPrefix(s, t, n - 1);
    }
  }

  lemma {:induction false} LoadStored(u: Word, n: nat)
    requires n <= 8 && u < Radix.Pow(256, n)
    ensures LoadFirst(StoreLast(u, n), n) == u
  {
    if n > 0 {
      LoadStored(u / 256, n - 1);
      LoadPrefix(StoreLast(u / 256, n - 1), [u % 256], n - 1);
    }
  }

  /** The low seven bytes of zero are zeros. */
  lemma {:induction false} ZerosStored(n: nat)
    ensures StoreLast(0, n) == Zeros(n)
  {
    if n > 0 {
      ZerosStored(n - 1);
    }
  }

  // ---- SHA-512 ----

  /** The word functions of SHA-512 as the structure of the hash needs them. */
  function Words(): Ops<Word> {
    Ops(Add, SmallSigma0, SmallSigma1, BigSigma0, BigSigma1, Ch, Maj, K, Load, Store)
  }

  /** SHA-512 of a byte string. */
  function Sha512(m: seq<Byte>): seq<Byte> {
    Hash(Words(), ToWord, IV, m)
  }

  lemma AssociatesHere(a: Word, b: Word, c: Word)
    ensures Associates(Words().add, a, b, c)
  {
    AddAssociates(a, b, c);
  }

  lemma StoresHere(u: Word)
    ensures Stores(Words(), u)
  {
    assert Radix.Pow(256, 8) == MODULUS;
    LoadStored(u, 8);
  }

  lemma WordsLawful()
    ensures Lawful(Words())
  {
    forall a, b, c { AssociatesHere(a, b, c); }
    forall u { StoresHere(u); }
    assert forall a, b :: Commutes(Words().add, a, b);
  }

  lemma ShortWordsStored()
    ensures ShortWords(Words(), ToWord)
  {
    forall k: nat ensures ShortWord(Words(), ToWord, k) {
      if k < 8 {
        assert StoreLast(k, 8) == StoreLast(k / 256, 7) + [k];
        ZerosStored(7);
      }
    }
  }

  /** crypto_hash */
  method CryptoHash(m: seq<Byte>) returns (out: array<Byte>)
    requires |m| < MODULUS
    ensures fresh(out) && out[..] == Sha512(m)
  {
    WordsLawful();
    ShortWordsStored();
    out := HashCore.CryptoHash(Words(), ToWord, IV, m);
  }
}
