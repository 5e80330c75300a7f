// What the parts of SHA-512 are, said in other words than their definitions: the word functions
// choose, vote and rotate, the rounds and the schedule add up modulo 2^64, and the padding ends in
// the length. FIPS 180-4, sections 4.1.3, 5.1.2 and 6.4.2.

module Sha512Facts {
  import opened HashCore
  import opened Sha512
  import Radix

  // ---- word functions ----

  lemma Stored(x: bv64, w: Word)
    requires w == x as int
    ensures w as bv64 == x
  {}

  /** A word determines its bits. */
  lemma SameBits(a: bv64, b: bv64, w: Word)
    requires a as int == w && b as int == w
    ensures a == b
  {
    Stored(a, w);
    Stored(b, w);
  }

  lemma Chooses(x: bv64, y: bv64, z: bv64)
    ensures ChBits(x, y, z) == (x & y) | (!x & z)
  {}

  lemma Votes(x: bv64, y: bv64, z: bv64)
    ensures MajBits(x, y, z) == (x & y) | (x & z) | (y & z)
  {}

  lemma ChResult(u: Word, v: Word, w: Word, x: bv64, y: bv64, z: bv64, r: bv64)
    requires x == u as bv64 && y == v as bv64 && z == w as bv64 && r as int == Ch(u, v, w)
    ensures r == ChBits(x, y, z)
  {
    SameBits(r, ChBits(x, y, z), r as int);
  }

  /** Ch has the bits of y where x has ones, and those of z where it has zeros. */
  lemma ChIs(u: Word, v: Word, w: Word, x: bv64, y: bv64, z: bv64, r: bv64)
    requires x == u as bv64 && y == v as bv64 && z == w as bv64 && r as int == Ch(u, v, w)
    ensures r == (x & y) | (!x & z)
  {
    ChResult(u, v, w, x, y, z, r);
    Chooses(x, y, z);
  }

  lemma MajResult(u: Word, v: Word, w: Word, x: bv64, y: bv64, z: bv64, r: bv64)
    requires x == u as bv64 && y == v as bv64 && z == w as bv64 && r as int == Maj(u, v, w)
    ensures r == MajBits(x, y, z)
  {
    SameBits(r, MajBits(x, y, z), r as int);
  }

  /** Maj has the bits that at least two of the three have. */
  lemma MajIs(u: Word, v: Word, w: Word, x: bv64, y: bv64, z: bv64, r: bv64)
    requires x == u as bv64 && y == v as bv64 && z == w as bv64 && r as int == Maj(u, v, w)
    ensures r == (x & y) | (x & z) | (y & z)
  {
    MajResult(u, v, w, x, y, z, r);
    Votes(x, y, z);
  }

  /** R is the rotation to the right, for the amounts that are used. */
  lemma Rotated(x: bv64)
    ensures R(x, 28) == x.RotateRight(28) && R(x, 34) == x.RotateRight(34) && R(x, 39) == x.RotateRight(39)
    ensures R(x, 14) == x.RotateRight(14) && R(x, 18) == x.RotateRight(18) && R(x, 41) == x.RotateRight(41)
    ensures R(x, 1) == x.RotateRight(1) && R(x, 8) == x.RotateRight(8)
    ensures R(x, 19) == x.RotateRight(19) && R(x, 61) == x.RotateRight(61)
  {}

  /** The functions of the rounds and of the schedule rotate to the right. */
  lemma BigSigma0Is(u: Word, x: bv64, r: bv64)
    requires x == u as bv64 && r as int == BigSigma0(u)
    ensures r == Xor3(x.RotateRight(28), x.RotateRight(34), x.RotateRight(39))
  {
    Rotated(x);
    SameBits(r, BigBits0(x), r as int);
  }

  /** As `BigSigma0Is`. */
  lemma BigSigma1Is(u: Word, x: bv64, r: bv64)
    requires x == u as bv64 && r as int == BigSigma1(u)
    ensures r == Xor3(x.RotateRight(14), x.RotateRight(18), x.RotateRight(41))
  {
    Rotated(x);
    SameBits(r, BigBits1(x), r as int);
  }

  /** As `BigSigma0Is`, with a shift. */
  lemma SmallSigma0Is(u: Word, x: bv64, r: bv64)
    requires x == u as bv64 && r as int == SmallSigma0(u)
    ensures r == Xor3(x.RotateRight(1), x.RotateRight(8), x >> 7)
  {
    Rotated(x);
    SameBits(r, SmallBits0(x), r as int);
  }

  /** As `SmallSigma0Is`. */
  lemma SmallSigma1Is(u: Word, x: bv64, r: bv64)
    requires x == u as bv64 && r as int == SmallSigma1(u)
    ensures r == Xor3(x.RotateRight(19), x.RotateRight(61), x >> 6)
  {
    Rotated(x);
    SameBits(r, SmallBits1(x), r as int);
  }

  // ---- sums ----

  lemma SumOf(x: int, y: int, m: int)
    requires m > 0
    ensures (x % m + y) % m == (x + y) % m && (x + y % m) % m == (x + y) % m
  {
    Radix.CongMod(x, m);
    Radix.CongMod(y, m);
    Radix.CongAdd(x % m, x, y, y, m);
    Radix.CongAdd(x, x, y % m, y, m);
  }

  /** Sums of two reduced again at each step. */
  lemma NextTerm(t: int, sum: int, x: int, m: int)
    requires m > 0 && t == sum % m
    ensures (t + x) % m == (sum + x) % m
  {
    SumOf(sum, x, m);
  }

  /** Addition wraps around at m. */
  ghost predicate AddsAt(add: (Word, Word) -> Word, x: Word, y: Word, m: int)
    requires m > 0
  {
    add(x, y) == (x + y) % m
  }

  lemma AddsHere()
    ensures forall x, y :: AddsAt(Words().add, x, y, MODULUS)
  {}

  /** Five words added from the left. */
  lemma FiveTerms(add: (Word, Word) -> Word, a: Word, b: Word, c: Word, d: Word, e: Word, m: int)
    requires m > 0 && forall x, y :: AddsAt(add, x, y, m)
    ensures add(add(add(add(a, b), c), d), e) == (a + b + c + d + e) % m
  {
    var t1 := add(a, b);
    var t2 := add(t1, c);
    var t3 := add(t2, d);
    assert AddsAt(add, a, b, m) && AddsAt(add, t1, c, m) && AddsAt(add, t2, d, m) && AddsAt(add, t3, e, m);
    FiveSteps(a, b, c, d, e, t1, t2, t3, m);
  }

  lemma FiveSteps(a: int, b: int, c: int, d: int, e: int, t1: int, t2: int, t3: int, m: int)
    requires m > 0 && t1 == (a + b) % m && t2 == (t1 + c) % m && t3 == (t2 + d) % m
    ensures (t3 + e) % m == (a + b + c + d + e) % m
  {
    NextTerm(t1, a + b, c, m);
    NextTerm(t2, a + b + c, d, m);
    NextTerm(t3, a + b + c + d, e, m);
  }

  /** The new values of the working variables: two sums, and the others move up. */
  lemma RoundSums(ops: Ops<Word>, a: seq<Word>, k: Word, w: Word, t: int, m: int)
    requires m > 0 && |a| == 8 && forall x, y :: AddsAt(ops.add, x, y, m)
    requires t == a[7] + ops.bigSigma1(a[4]) + ops.ch(a[4], a[5], a[6]) + k + w
    ensures var r := Round(ops, a, k, w);
            && r[0] == (t + ops.bigSigma0(a[0]) + ops.maj(a[0], a[1], a[2])) % m && r[1..4] == a[0..3]
            && r[4] == (a[3] + t) % m && r[5..8] == a[4..7]
  {
    var s: Word, j: Word := ops.bigSigma0(a[0]), ops.maj(a[0], a[1], a[2]);
    var t1, t2 := T1(ops, a[4], a[5], a[6], a[7], k, w), T2(ops, a[0], a[1], a[2]);
    FiveTerms(ops.add, a[7], ops.bigSigma1(a[4]), ops.ch(a[4], a[5], a[6]), k, w, m);
    assert AddsAt(ops.add, s, j, m) && AddsAt(ops.add, t1, t2, m) && AddsAt(ops.add, a[3], t1, m);
    TwoSums(t, t1, s as int + j as int, t2, a[3], m);
  }

  lemma TwoSums(t: int, t1: int, u: int, t2: int, d: int, m: int)
    requires m > 0 && t1 == t % m && t2 == u % m
    ensures (t1 + t2) % m == (t + u) % m && (d + t1) % m == (d + t) % m
  {
    SumOf(t, t2, m);
    SumOf(t, u, m);
    SumOf(d, t, m);
  }

  /** A word of the schedule is the sum of the ones 2, 7, 15 and 16 before it, two of them passed
      through a function. */
  lemma ScheduleSums(ops: Ops<Word>, ws: seq<Word>, t: nat, m: int)
    requires m > 0 && (forall x, y :: AddsAt(ops.add, x, y, m)) && ExtendedAt(ops, ws, t)
    ensures ws[t] == (ops.smallSigma1(ws[t - 2]) + ws[t - 7] + ops.smallSigma0(ws[t - 15]) + ws[t - 16]) % m
  {
    var s1, s0 := ops.smallSigma1(ws[t - 2]), ops.smallSigma0(ws[t - 15]);
    var t1 := ops.add(s1, ws[t - 7]);
    var t2 := ops.add(t1, s0);
    assert AddsAt(ops.add, s1, ws[t - 7], m) && AddsAt(ops.add, t1, s0, m) && AddsAt(ops.add, t2, ws[t - 16], m);
    FourSteps(s1, ws[t - 7], s0, ws[t - 16], t1, t2, m);
  }

  lemma FourSteps(a: int, b: int, c: int, d: int, t1: int, t2: int, m: int)
    requires m > 0 && t1 == (a + b) % m && t2 == (t1 + c) % m
    ensures (t2 + d) % m == (a + b + c + d) % m
  {
    NextTerm(t1, a + b, c, m);
    NextTerm(t2, a + b + c, d, m);
  }

  /** The hash after a block is the one before it and the working variables after 80 rounds, added. */
  lemma BlockSums(ops: Ops<Word>, h: seq<Word>, block: seq<Word>, i: nat, m: int)
    requires m > 0 && |h| == 8 && |block| == 16 && |ops.k| == 80 && i < 8
    requires forall x, y :: AddsAt(ops.add, x, y, m)
    ensures Compress(ops, h, block)[i] == (h[i] + Rounds(ops, h, Schedule(ops, block, 80), 80)[i]) % m
  {
    assert AddsAt(ops.add, Rounds(ops, h, Schedule(ops, block, 80), 80)[i], h[i], m);
  }

  // ---- padding ----

  /** The number that bytes stand for, the most significant first. */
  function BigEndian(s: seq<Byte>): nat {
    if s == [] then 0 else 256 * BigEndian(s[..|s| - 1]) + s[|s| - 1]
  }

  lemma {:induction false} StoredNumber(u: nat, n: nat)
    ensures BigEndian(StoreLast(u, n)) == u % Radix.Pow256(n)
  {
    if n > 0 {
      StoredNumber(u / 256, n - 1);
      assert StoreLast(u, n)[..n - 1] == StoreLast(u / 256, n - 1);
      LowDigits(u, Radix.Pow256(n - 1));
    }
  }

  lemma LowDigits(u: nat, w: int)
    requires w > 0
    ensures 256 * ((u / 256) % w) + u % 256 == u % (256 * w)
  {
    var q := u / 256;
    Radix.FloorUnique(u, 256 * w, q / w, 256 * (q % w) + u % 256) by {
      assert q == (q / w) * w + q % w;
      assert (q / w) * (256 * w) == 256 * ((q / w) * w);
    }
  }

  lemma {:induction false} BigEndianBound(s: seq<Byte>)
    ensures BigEndian(s) < Radix.Pow256(|s|)
  {
    if s != [] {
      BigEndianBound(s[..|s| - 1]);
    }
  }

  /** Loading eight bytes gives the number with the most significant byte first. */
  lemma {:induction false} LoadIs(x: seq<Byte>, n: nat)
    requires n <= 8 && n <= |x|
    ensures LoadFirst(x, n) == BigEndian(x[..n])
  {
    if n > 0 {
      LoadIs(x, n - 1);
      BigEndianBound(x[..n - 1]);
      PowersUpTo(n - 1);
      assert x[..n][..n - 1] == x[..n - 1];
    }
  }

  lemma PowersUpTo(n: nat)
    requires n <= 7
    ensures Radix.Pow256(n) <= 0x100_0000_0000_0000
  {
    Radix.PowAdd(256, n, 7 - n);
    Radix.PowPositive(256, 7 - n);
    assert Radix.Pow(256, 7) == 0x100_0000_0000_0000;
    var w, v := Radix.Pow256(n), Radix.Pow256(7 - n);
    assert w * (v - 1) >= 0;
  }

  lemma {:induction false} BigEndianConcat(s: seq<Byte>, t: seq<Byte>)
    ensures BigEndian(s + t) == BigEndian(s) * Radix.Pow256(|t|) + BigEndian(t)
    decreases |t|
  {
    if t == [] {
      assert s + t == s;
    } else {
      var n := |t| - 1;
      assert (s + t)[..|s| + n] == s + t[..n];
      BigEndianConcat(s, t[..n]);
      NextDigit(BigEndian(s), Radix.Pow256(n), BigEndian(t[..n]), t[n]);
    }
  }

  lemma NextDigit(a: int, w: int, b: int, d: int)
    ensures 256 * (a * w + b) + d == a * (256 * w) + (256 * b + d)
  {}

  lemma TwoWords(v: nat, m: int, high: int, low: int)
    requires m > 0 && v < m * m && high == v / m && low == v % m
    ensures 0 <= high < m && 0 <= low < m && high * m + low == v
  {
    assert high * m <= v;
  }

  /** The two words at the end of the padding are the length in bits. */
  lemma LengthStored(n: nat)
    requires 8 * n < MODULUS * MODULUS
    ensures var s := LengthField(Words(), ToWord, n); |s| == 16 && BigEndian(s) == 8 * n
  {
    var high, low := (8 * n) / MODULUS, (8 * n) % MODULUS;
    TwoWords(8 * n, MODULUS, high, low);
    WordStored(high);
    WordStored(low);
    BigEndianConcat(Store(high), Store(low));
  }

  lemma WordStored(u: Word)
    ensures BigEndian(Store(u)) == u && Radix.Pow256(8) == MODULUS && ToWord(u) == u
  {
    assert Radix.Pow256(8) == MODULUS;
    StoredNumber(u, 8);
    Radix.FloorUnique(u, MODULUS, 0, u);
  }

  /** The padded message: the message, a one bit, as few zeros as fill the last block, and in the
      last sixteen bytes the length of the message in bits. */
  lemma PaddedForm(m: seq<Byte>, p: seq<Byte>)
    requires p == Padded(Words(), ToWord, m) && 8 * |m| < MODULUS * MODULUS
    ensures |p| % 128 == 0 && |m| + 17 <= |p| < |m| + 17 + 128
    ensures p[..|m|] == m && p[|m|] == 128 && BigEndian(p[|p| - 16..]) == 8 * |m|
    ensures forall k :: |m| < k < |p| - 16 ==> p[k] == 0
  {
    var zeros, length := Zeros((111 - |m|) % 128), LengthField(Words(), ToWord, |m|);
    LengthStored(|m|);
    assert p == m + [128] + zeros + length;
    assert p[|p| - 16..] == length;
    WholeBlocks(|m|);
  }

  lemma WholeBlocks(n: nat)
    ensures (n + 1 + (111 - n) % 128 + 16) % 128 == 0
  {
    SumOf(n + 17, 111 - n, 128);
  }
}
