// The structure of SHA-512 over any words: the rolling sixteen-word schedule, the rounds,
// block by block hashing and the padding. Nothing here depends on what a word is beyond
// addition being associative and commutative, and words being eight bytes in storage.

module HashCore {
  import Radix

  type Byte = x: int | 0 <= x < 256

  /** The word functions of sections 4.1.3 and 4.2.3 of FIPS 180-4, and words in storage. */
  datatype Ops<!T> = Ops(
    add: (T, T) -> T,
    smallSigma0: T -> T, smallSigma1: T -> T,
    bigSigma0: T -> T, bigSigma1: T -> T,
    ch: (T, T, T) -> T, maj: (T, T, T) -> T,
    k: seq<T>,
    load: seq<Byte> -> T, store: T -> seq<Byte>)

  // Each law is a predicate of its own, so that it is used only where it is named.

  ghost predicate Associates<T>(add: (T, T) -> T, a: T, b: T, c: T) {
    add(add(a, b), c) == add(a, add(b, c))
  }

  ghost predicate Commutes<T>(add: (T, T) -> T, a: T, b: T) {
    add(a, b) == add(b, a)
  }

  ghost predicate Stores<T>(ops: Ops<T>, u: T) {
    |ops.store(u)| == 8 && ops.load(ops.store(u)) == u
  }

  ghost predicate Lawful<T(!new)>(ops: Ops<T>) {
    && |ops.k| == 80
    && (forall a, b, c :: Associates(ops.add, a, b, c))
    && (forall a, b :: Commutes(ops.add, a, b))
    && (forall u :: Stores(ops, u))
  }

  // ---- the message schedule ----

  /** A word of the schedule from the ones 16, 15, 7 and 2 before it, section 6.4.2. */
  function Extend<T>(ops: Ops<T>, w16: T, w15: T, w7: T, w2: T): T {
    ops.add(ops.add(ops.add(ops.smallSigma1(w2), w7), ops.smallSigma0(w15)), w16)
  }

  /** The same four terms in the order in which the code adds them. */
  function ExtendInPlace<T>(ops: Ops<T>, w16: T, w15: T, w7: T, w2: T): T {
    ops.add(w16, ops.add(ops.add(w7, ops.smallSigma0(w15)), ops.smallSigma1(w2)))
  }

  lemma ExtendAgrees<T(!new)>(ops: Ops<T>, w16: T, w15: T, w7: T, w2: T)
    requires Lawful(ops)
    ensures ExtendInPlace(ops, w16, w15, w7, w2) == Extend(ops, w16, w15, w7, w2)
  {
    var s0, s1 := ops.smallSigma0(w15), ops.smallSigma1(w2);
    assert Commutes(ops.add, ops.add(w7, s0), s1);
    assert Associates(ops.add, s1, w7, s0);
    assert Commutes(ops.add, w16, ops.add(s1, ops.add(w7, s0)));
  }

  /** The first `n` words W_0 .. W_(n-1) for a block of sixteen. */
  function Schedule<T>(ops: Ops<T>, block: seq<T>, n: nat): (ws: seq<T>)
    requires |block| == 16
    ensures |ws| == n
  {
    if n <= 16 then block[..n]
    else
      var ws := Schedule(ops, block, n - 1);
      ws + [Extend(ops, ws[n - 17], ws[n - 16], ws[n - 8], ws[n - 3])]
  }

  /** The recurrence at index `t`. */
  ghost predicate ExtendedAt<T>(ops: Ops<T>, ws: seq<T>, t: nat) {
    16 <= t < |ws| && ws[t] == Extend(ops, ws[t - 16], ws[t - 15], ws[t - 7], ws[t - 2])
  }

  lemma {:induction false} ScheduleExtends<T>(ops: Ops<T>, block: seq<T>, n: nat, t: nat)
    requires |block| == 16 && 16 <= t < n
    ensures ExtendedAt(ops, Schedule(ops, block, n), t)
  {
    if t < n - 1 {
      ScheduleExtends(ops, block, n - 1, t);
    }
  }

  /** Longer schedules begin with the shorter ones. */
  lemma {:induction false} SchedulePrefix<T>(ops: Ops<T>, block: seq<T>, n: nat, m: nat)
    requires |block| == 16 && m <= n
    ensures Schedule(ops, block, n)[..m] == Schedule(ops, block, m)
  {
    if n > 16 && m < n {
      SchedulePrefix(ops, block, n - 1, m);
    }
  }

  /** The sixteen words kept: W_t for the sixteen t from `base` on. */
  ghost predicate Window<T>(w: seq<T>, ws: seq<T>, base: nat) {
    |w| == 16 && base + 16 <= |ws| && w == ws[base..base + 16]
  }

  /** The window while it is being advanced: new words below `j`. */
  ghost predicate Advancing<T>(w: seq<T>, ws: seq<T>, base: nat, j: nat) {
    && |w| == 16 && j <= 16 && base + 32 <= |ws|
    && (forall k :: 0 <= k < j ==> w[k] == ws[base + 16 + k])
    && (forall k :: j <= k < 16 ==> w[k] == ws[base + k])
  }

  lemma AdvancingStep<T>(ops: Ops<T>, w: seq<T>, ws: seq<T>, base: nat, j: nat)
    requires j < 16 && Advancing(w, ws, base, j) && ExtendedAt(ops, ws, base + 16 + j)
    ensures Advancing(w[j := Extend(ops, w[j], w[(j + 1) % 16], w[(j + 9) % 16], w[(j + 14) % 16])], ws, base, j + 1)
  {
    assert w[(j + 1) % 16] == ws[base + j + 1];
    assert w[(j + 9) % 16] == ws[base + j + 9];
    assert w[(j + 14) % 16] == ws[base + j + 14];
  }

  /** The update loop at the end of every sixteen rounds, in place: each word is replaced by
      the one sixteen positions later. */
  method Advance<T(!new)>(ops: Ops<T>, w: array<T>, ghost block: seq<T>, ghost base: nat)
    requires Lawful(ops) && |block| == 16 && w.Length == 16 && base <= 64
    requires Window(w[..], Schedule(ops, block, 96), base)
    modifies w
    ensures Window(w[..], Schedule(ops, block, 96), base + 16)
  {
    ghost var ws := Schedule(ops, block, 96);
    for j := 0 to 16
      invariant Advancing(w[..], ws, base, j)
    {
      ghost var before := w[..];
      ScheduleExtends(ops, block, 96, base + 16 + j);
      AdvancingStep(ops, before, ws, base, j);
      ExtendAgrees(ops, w[j], w[(j + 1) % 16], w[(j + 9) % 16], w[(j + 14) % 16]);
      w[j] := ExtendInPlace(ops, w[j], w[(j + 1) % 16], w[(j + 9) % 16], w[(j + 14) % 16]);
      assert w[..] == before[j := w[j]];
    }
    assert w[..] == ws[base + 16..base + 32];
  }

  // ---- the rounds ----

  function T1<T>(ops: Ops<T>, e: T, f: T, g: T, h: T, k: T, w: T): T {
    ops.add(ops.add(ops.add(ops.add(h, ops.bigSigma1(e)), ops.ch(e, f, g)), k), w)
  }

  function T2<T>(ops: Ops<T>, a: T, b: T, c: T): T {
    ops.add(ops.bigSigma0(a), ops.maj(a, b, c))
  }

  /** One round on the eight working variables, section 6.4.2 step 3. */
  function Round<T>(ops: Ops<T>, a: seq<T>, k: T, w: T): (r: seq<T>)
    requires |a| == 8
    ensures |r| == 8
  {
    var t1 := T1(ops, a[4], a[5], a[6], a[7], k, w);
    [ops.add(t1, T2(ops, a[0], a[1], a[2])), a[0], a[1], a[2], ops.add(a[3], t1), a[4], a[5], a[6]]
  }

  function Rounds<T>(ops: Ops<T>, a: seq<T>, ws: seq<T>, i: nat): (r: seq<T>)
    requires |a| == 8 && i <= |ops.k| && i <= |ws|
    ensures |r| == 8
  {
    if i == 0 then a else Round(ops, Rounds(ops, a, ws, i - 1), ops.k[i - 1], ws[i - 1])
  }

  /** Only the words up to the round matter. */
  lemma {:induction false} RoundsPrefix<T>(ops: Ops<T>, a: seq<T>, ws: seq<T>, vs: seq<T>, i: nat)
    requires |a| == 8 && i <= |ops.k| && i <= |ws| && i <= |vs| && ws[..i] == vs[..i]
    ensures Rounds(ops, a, ws, i) == Rounds(ops, a, vs, i)
  {
    if i > 0 {
      assert ws[..i - 1] == ws[..i][..i - 1] && vs[..i - 1] == vs[..i][..i - 1];
      assert ws[i - 1] == ws[..i][i - 1] && vs[i - 1] == vs[..i][i - 1];
      RoundsPrefix(ops, a, ws, vs, i - 1);
    }
  }

  /** The intermediate hash after one block of sixteen words. */
  function Compress<T>(ops: Ops<T>, h: seq<T>, block: seq<T>): (r: seq<T>)
    requires |h| == 8 && |block| == 16 && |ops.k| == 80
    ensures |r| == 8
  {
    var a := Rounds(ops, h, Schedule(ops, block, 80), 80);
    seq(8, i requires 0 <= i < 8 => ops.add(a[i], h[i]))
  }

  /** The body of the round loop: the new variables in `b`, then shifted into `a`. */
  method RoundStep<T(!new, 0)>(ops: Ops<T>, a: array<T>, b: array<T>, k: T, w: T)
    requires Lawful(ops) && a.Length == b.Length == 8 && a != b
    modifies a, b
    ensures a[..] == Round(ops, old(a[..]), k, w)
  {
    CopyVariables(a, b);
    var t := T1(ops, a[4], a[5], a[6], a[7], k, w);
    b[7] := ops.add(ops.add(t, ops.bigSigma0(a[0])), ops.maj(a[0], a[1], a[2]));
    assert Associates(ops.add, t, ops.bigSigma0(a[0]), ops.maj(a[0], a[1], a[2]));
    b[3] := ops.add(b[3], t);
    Shift(a, b);
  }

  method CopyVariables<T>(a: array<T>, b: array<T>)
    requires a.Length == b.Length == 8 && a != b
    modifies b
    ensures b[..] == a[..]
  {
    for j := 0 to 8
      invariant b[..j] == a[..j]
    {
      b[j] := a[j];
    }
  }

  /** The variables move up one place, the last to the front. */
  method Shift<T>(a: array<T>, b: array<T>)
    requires a.Length == b.Length == 8 && a != b
    modifies a
    ensures a[..] == [b[7], b[0], b[1], b[2], b[3], b[4], b[5], b[6]]
  {
    for j := 0 to 8
      invariant forall i :: 0 <= i < j ==> a[(i + 1) % 8] == b[i]
    {
      a[(j + 1) % 8] := b[j];
    }
    assert a[(7 + 1) % 8] == b[7] && a[(0 + 1) % 8] == b[0] && a[(1 + 1) % 8] == b[1] && a[(2 + 1) % 8] == b[2];
    assert a[(3 + 1) % 8] == b[3] && a[(4 + 1) % 8] == b[4] && a[(5 + 1) % 8] == b[5] && a[(6 + 1) % 8] == b[6];
  }

  /** The variables and the window before round `i`, which is round `i - 16 * q` of window q. */
  ghost predicate BeforeRound<T>(ops: Ops<T>, a: seq<T>, w: seq<T>, h: seq<T>, block: seq<T>, i: nat, q: nat) {
    && |block| == 16 && |h| == 8 && |ops.k| == 80
    && 16 * q <= i <= 80 && i < 16 * q + 16
    && a == Rounds(ops, h, Schedule(ops, block, 96), i)
    && Window(w, Schedule(ops, block, 96), 16 * q)
  }

  lemma WordOfRound<T>(w: seq<T>, ws: seq<T>, i: nat, q: nat)
    requires Window(w, ws, 16 * q) && 16 * q <= i < 16 * q + 16
    ensures w[i % 16] == ws[i]
  {
    SixteenApart(i, q);
  }

  /** One iteration of the round loop. */
  method RoundBody<T(!new, 0)>(ops: Ops<T>, a: array<T>, b: array<T>, w: array<T>, i: nat,
                               ghost h: seq<T>, ghost block: seq<T>, ghost q: nat) returns (ghost q': nat)
    requires Lawful(ops) && a.Length == b.Length == 8 && w.Length == 16 && a != b && a != w && b != w
    requires i < 80 && BeforeRound(ops, a[..], w[..], h, block, i, q)
    modifies a, b, w
    ensures BeforeRound(ops, a[..], w[..], h, block, i + 1, q')
  {
    WordOfRound(w[..], Schedule(ops, block, 96), i, q);
    RoundStep(ops, a, b, ops.k[i], w[i % 16]);
    q' := AdvanceIfDue(ops, w, i, block, q);
  }

  /** The window moves on after the last of its sixteen rounds. */
  method AdvanceIfDue<T(!new)>(ops: Ops<T>, w: array<T>, i: nat, ghost block: seq<T>, ghost q: nat) returns (ghost q': nat)
    requires Lawful(ops) && |block| == 16 && w.Length == 16 && 16 * q <= i < 16 * q + 16 && i < 80
    requires Window(w[..], Schedule(ops, block, 96), 16 * q)
    modifies w
    ensures 16 * q' <= i + 1 < 16 * q' + 16 && Window(w[..], Schedule(ops, block, 96), 16 * q')
  {
    SixteenApart(i, q);
    q' := q;
    if i % 16 == 15 {
      Advance(ops, w, block, 16 * q);
      q' := q + 1;
    }
  }

  lemma SixteenApart(i: nat, q: nat)
    requires 16 * q <= i < 16 * q + 16
    ensures i % 16 == i - 16 * q
  {}

  /** The eighty rounds, the window advanced after every sixteenth. */
  method EightyRounds<T(!new, 0)>(ops: Ops<T>, a: array<T>, w: array<T>)
    requires Lawful(ops) && a.Length == 8 && w.Length == 16 && a != w
    modifies a, w
    ensures a[..] == Rounds(ops, old(a[..]), Schedule(ops, old(w[..]), 80), 80)
  {
    ghost var h, block, q := a[..], w[..], 0;
    var b := new T[8];
    RoundsStart(ops, h, block);
    for i := 0 to 80
      invariant BeforeRound(ops, a[..], w[..], h, block, i, q)
    {
      q := RoundBody(ops, a, b, w, i, h, block, q);
    }
    RoundsEnd(ops, a[..], w[..], h, block, q);
  }

  lemma RoundsStart<T>(ops: Ops<T>, h: seq<T>, block: seq<T>)
    requires |h| == 8 && |block| == 16 && |ops.k| == 80
    ensures BeforeRound(ops, h, block, h, block, 0, 0)
  {
    SchedulePrefix(ops, block, 96, 16);
    assert block[..16] == block;
    var ws := Schedule(ops, block, 96);
    assert ws[0..16] == ws[..16];
  }

  lemma RoundsEnd<T>(ops: Ops<T>, a: seq<T>, w: seq<T>, h: seq<T>, block: seq<T>, q: nat)
    requires BeforeRound(ops, a, w, h, block, 80, q)
    ensures a == Rounds(ops, h, Schedule(ops, block, 80), 80)
  {
    var ws, vs := Schedule(ops, block, 96), Schedule(ops, block, 80);
    SchedulePrefix(ops, block, 96, 80);
    assert vs[..80] == vs;
    RoundsPrefix(ops, h, ws, vs, 80);
  }

  // ---- blocks ----

  function LoadWords<T>(ops: Ops<T>, m: seq<Byte>, n: nat): (ws: seq<T>)
    requires |m| >= 8 * n
    ensures |ws| == n
  {
    seq(n, i requires 0 <= i < n => ops.load(m[8 * i..8 * i + 8]))
  }

  function StoreWords<T>(ops: Ops<T>, h: seq<T>): seq<Byte> {
    if h == [] then [] else StoreWords(ops, h[..|h| - 1]) + ops.store(h[|h| - 1])
  }

  /** The hash value after all whole blocks of `m`, section 6.4.2. */
  function Blocks<T>(ops: Ops<T>, h: seq<T>, m: seq<Byte>): (r: seq<T>)
    requires |h| == 8 && |ops.k| == 80
    ensures |r| == 8
    decreases |m|
  {
    if |m| < 128 then h else Blocks(ops, Compress(ops, h, LoadWords(ops, m[..128], 16)), m[128..])
  }

  /** Hashing a concatenation is hashing one part after the other. */
  lemma {:induction false} BlocksCompose<T>(ops: Ops<T>, h: seq<T>, m: seq<Byte>, n: seq<Byte>)
    requires |h| == 8 && |ops.k| == 80 && |m| % 128 == 0
    ensures Blocks(ops, h, m + n) == Blocks(ops, Blocks(ops, h, m), n)
    decreases |m|
  {
    if m == [] {
      assert m + n == n;
    } else {
      assert (m + n)[..128] == m[..128] && (m + n)[128..] == m[128..] + n;
      BlocksCompose(ops, Compress(ops, h, LoadWords(ops, m[..128], 16)), m[128..], n);
    }
  }

  /** One block of the message into the running hash. */
  method OneBlock<T(!new, 0)>(ops: Ops<T>, a: array<T>, z: array<T>, m: seq<Byte>)
    requires Lawful(ops) && a.Length == z.Length == 8 && a != z && |m| == 128 && a[..] == z[..]
    modifies a, z
    ensures z[..] == Compress(ops, old(z[..]), LoadWords(ops, m, 16)) && a[..] == z[..]
  {
    var w := new T[16];
    for i := 0 to 16
      invariant w[..i] == LoadWords(ops, m, 16)[..i] && a[..] == old(a[..]) && z[..] == old(z[..])
    {
      w[i] := ops.load(m[8 * i..8 * i + 8]);
    }
    assert w[..] == LoadWords(ops, m, 16);
    EightyRounds(ops, a, w);
    AddIn(ops, a, z);
  }

  /** The sums at the end of a block. */
  method AddIn<T(!new)>(ops: Ops<T>, a: array<T>, z: array<T>)
    requires a.Length == z.Length == 8 && a != z
    modifies a, z
    ensures forall i :: 0 <= i < 8 ==> z[i] == ops.add(old(a[i]), old(z[i]))
    ensures a[..] == z[..]
  {
    for i := 0 to 8
      invariant forall k :: 0 <= k < i ==> z[k] == ops.add(old(a[k]), old(z[k])) && a[k] == z[k]
      invariant forall k :: i <= k < 8 ==> a[k] == old(a[k]) && z[k] == old(z[k])
    {
      a[i] := ops.add(a[i], z[i]);
      z[i] := a[i];
    }
  }

  /** crypto_hashblocks: all whole blocks of `m` into the stored hash; returns what is left over. */
  method HashBlocks<T(!new, 0)>(ops: Ops<T>, x: array<Byte>, m: seq<Byte>) returns (left: nat)
    requires Lawful(ops) && x.Length == 64
    modifies x
    ensures x[..] == StoreWords(ops, Blocks(ops, LoadWords(ops, old(x[..]), 8), m))
    ensures left == |m| % 128
  {
    var z, a := LoadState(ops, x);
    left := EachBlock(ops, a, z, m);
    StoreState(ops, x, z);
  }

  /** The block loop. */
  method EachBlock<T(!new, 0)>(ops: Ops<T>, a: array<T>, z: array<T>, m: seq<Byte>) returns (left: nat)
    requires Lawful(ops) && a.Length == z.Length == 8 && a != z && a[..] == z[..]
    modifies a, z
    ensures z[..] == Blocks(ops, old(z[..]), m) && left == |m| % 128
  {
    ghost var h, q := z[..], 0;
    var rest := m;
    while |rest| >= 128
      invariant |m| == q * 128 + |rest| && a[..] == z[..]
      invariant Blocks(ops, z[..], rest) == Blocks(ops, h, m)
    {
      OneBlock(ops, a, z, rest[..128]);
      rest := rest[128..];
      q := q + 1;
    }
    left := |rest|;
    Radix.FloorUnique(|m|, 128, q, left);
  }

  method LoadState<T(!new, 0)>(ops: Ops<T>, x: array<Byte>) returns (z: array<T>, a: array<T>)
    requires x.Length == 64
    ensures fresh(z) && fresh(a) && z != a && z[..] == a[..] == LoadWords(ops, x[..], 8)
  {
    z, a := new T[8], new T[8];
    ghost var h := LoadWords(ops, x[..], 8);
    for i := 0 to 8
      invariant z[..i] == a[..i] == h[..i]
    {
      assert x[..][8 * i..8 * i + 8] == x[8 * i..8 * i + 8];
      a[i] := ops.load(x[8 * i..8 * i + 8]);
      z[i] := a[i];
    }
  }

  method StoreState<T(!new)>(ops: Ops<T>, x: array<Byte>, z: array<T>)
    requires Lawful(ops) && x.Length == 64 && z.Length == 8
    modifies x
    ensures x[..] == StoreWords(ops, z[..])
  {
    for i := 0 to 8
      invariant x[..8 * i] == StoreWords(ops, z[..i])
    {
      assert Stores(ops, z[i]);
      ghost var done := x[..8 * i];
      var bytes := ops.store(z[i]);
      StoreBytes(x, 8 * i, bytes);
      assert x[..8 * i + 8] == done + bytes;
      assert z[..i + 1][..i] == z[..i];
      assert 8 * (i + 1) == 8 * i + 8;
    }
    assert z[..8] == z[..] && x[..64] == x[..];
  }

  method StoreBytes(x: array<Byte>, at: nat, s: seq<Byte>)
    requires at + |s| <= x.Length
    modifies x
    ensures x[at..at + |s|] == s
    ensures x[..at] == old(x[..at]) && x[at + |s|..] == old(x[at + |s|..])
  {
    for i := 0 to |s|
      invariant forall k :: 0 <= k < i ==> x[at + k] == s[k]
      invariant x[..at] == old(x[..at]) && x[at + |s|..] == old(x[at + |s|..])
    {
      x[at + i] := s[i];
    }
  }

  /** Storing and loading words again gives the same words. */
  lemma {:induction false} StoredWords<T(!new)>(ops: Ops<T>, h: seq<T>)
    requires Lawful(ops)
    ensures |StoreWords(ops, h)| == 8 * |h| && LoadWords(ops, StoreWords(ops, h), |h|) == h
  {
    if h != [] {
      var n := |h| - 1;
      StoredWords(ops, h[..n]);
      var s, t := StoreWords(ops, h[..n]), ops.store(h[n]);
      assert Stores(ops, h[n]);
      forall i | 0 <= i < n ensures (s + t)[8 * i..8 * i + 8] == s[8 * i..8 * i + 8] {}
      assert (s + t)[8 * n..8 * n + 8] == t;
      forall i | 0 <= i < |h| ensures LoadWords(ops, s + t, |h|)[i] == h[i] {
        if i < n {
          assert LoadWords(ops, s, n)[i] == h[..n][i];
        }
      }
    }
  }

  // ---- padding ----

  /** The 128-bit length in bits, as two words. */
  function LengthField<T>(ops: Ops<T>, word: nat -> T, n: nat): seq<Byte> {
    ops.store(word((8 * n) / 0x1_0000_0000_0000_0000)) + ops.store(word((8 * n) % 0x1_0000_0000_0000_0000))
  }

  function Zeros(n: nat): seq<Byte> {
    seq(n, _ => 0)
  }

  /** The padded message of section 5.1.2: a one bit, zeros up to 16 bytes short of a block,
      and the length. */
  function Padded<T>(ops: Ops<T>, word: nat -> T, m: seq<Byte>): seq<Byte> {
    PaddedWith(m, LengthField(ops, word, |m|))
  }

  function PaddedWith(m: seq<Byte>, length: seq<Byte>): seq<Byte> {
    m + [128] + Zeros((111 - |m|) % 128) + length
  }

  function Hash<T>(ops: Ops<T>, word: nat -> T, iv: seq<Byte>, m: seq<Byte>): seq<Byte>
    requires |iv| == 64 && |ops.k| == 80
  {
    StoreWords(ops, Blocks(ops, LoadWords(ops, iv, 8), Padded(ops, word, m)))
  }

  // ---- the whole hash ----

  /** The part of the message that fills no block. */
  function Tail(m: seq<Byte>): (r: seq<Byte>)
    ensures |r| == |m| % 128
  {
    m[|m| - |m| % 128..]
  }

  /** The padding put behind the tail alone: one block or two. */
  function PaddedTail<T>(ops: Ops<T>, word: nat -> T, m: seq<Byte>): seq<Byte> {
    TailWith(Tail(m), LengthField(ops, word, |m|))
  }

  function TailWith(tail: seq<Byte>, length: seq<Byte>): seq<Byte>
    requires |tail| < 128
  {
    tail + [128] + Zeros((if |tail| < 112 then 111 else 239) - |tail|) + length
  }

  lemma PaddingLength(n: nat)
    ensures (111 - n) % 128 == if n % 128 < 112 then 111 - n % 128 else 239 - n % 128
  {
    var q, r := n / 128, n % 128;
    assert n == q * 128 + r;
    if r < 112 {
      Radix.FloorUnique(111 - n, 128, -q, 111 - r);
    } else {
      Radix.FloorUnique(111 - n, 128, -q - 1, 239 - r);
    }
  }

  /** Hashing the whole blocks and then the padded tail is hashing the padded message. */
  lemma TailPads<T>(ops: Ops<T>, m: seq<Byte>, length: seq<Byte>, h: seq<T>)
    requires |h| == 8 && |ops.k| == 80
    ensures Blocks(ops, h, PaddedWith(m, length)) == Blocks(ops, Blocks(ops, h, m), TailWith(Tail(m), length))
  {
    var front := WholeBlocks(m, length);
    BlocksCompose(ops, h, front, TailWith(Tail(m), length));
    BlocksCompose(ops, h, front, Tail(m));
  }

  /** The whole blocks of a message, before its tail and before the padded tail. */
  lemma WholeBlocks(m: seq<Byte>, length: seq<Byte>) returns (front: seq<Byte>)
    ensures |front| % 128 == 0 && m == front + Tail(m)
    ensures PaddedWith(m, length) == front + TailWith(Tail(m), length)
  {
    var q, r := |m| / 128, |m| % 128;
    assert |m| == q * 128 + r;
    front := m[..|m| - r];
    Radix.FloorUnique(|front|, 128, q, 0);
    assert m == front + Tail(m);
    PaddingLength(|m|);
  }

  /** The buffer crypto_hash starts with: the tail, a one bit, and zeros. */
  method StartTail(m: seq<Byte>) returns (x: array<Byte>, n: nat)
    ensures fresh(x) && x.Length == 256 && n == |m| % 128
    ensures x[..] == Tail(m) + [128] + Zeros(255 - n)
  {
    x := new Byte[256](_ => 0);
    n := |m| % 128;
    StoreBytes(x, 0, m[|m| - n..]);
    assert x[0..n] == Tail(m) && x[n..] == Zeros(256 - n);
    ghost var t := Tail(m);
    assert x[..] == t + Zeros(256 - n);
    x[n] := 128;
    assert x[..] == t + [128] + Zeros(255 - n);
  }

  /** The length written at the end of a buffer that is zero there. */
  method PutLength(x: array<Byte>, n: nat, top: Byte, low: seq<Byte>)
    requires 16 <= n <= x.Length && |low| == 8 && x[n - 16..n] == Zeros(16)
    modifies x
    ensures x[..n] == old(x[..n - 16]) + (Zeros(7) + [top]) + low
  {
    ghost var front := x[..n - 16];
    assert forall k :: n - 16 <= k < n ==> x[k] == x[n - 16..n][k - (n - 16)];
    x[n - 9] := top;
    assert x[..n - 8] == front + (Zeros(7) + [top]);
    StoreBytes(x, n - 8, low);
    assert x[..n] == x[..n - 8] + x[n - 8..n - 8 + 8];
  }

  /** The buffer crypto_hash builds for the tail: 128 or 256 bytes. */
  method BuildTail<T(!new)>(ops: Ops<T>, word: nat -> T, m: seq<Byte>) returns (x: array<Byte>, n: nat)
    requires Lawful(ops) && |m| < 0x1_0000_0000_0000_0000
    requires ShortWords(ops, word)
    ensures fresh(x) && n <= x.Length && x[..n] == PaddedTail(ops, word, m)
  {
    x, n := StartTail(m);
    ghost var r, s := n, x[..];
    n := if n < 112 then 128 else 256;
    var high := |m| / 0x2000_0000_0000_0000;
    HighWord(|m|);
    assert ShortWord(ops, word, high);
    assert Stores(ops, word((8 * |m|) % 0x1_0000_0000_0000_0000));
    assert x[n - 16..n] == s[n - 16..n] == Zeros(16);
    assert x[..n - 16] == s[..n - 16] == Tail(m) + [128] + Zeros((if r < 112 then 111 else 239) - r);
    PutLength(x, n, high, ops.store(word((8 * |m|) % 0x1_0000_0000_0000_0000)));
  }

  lemma HighWord(n: nat)
    requires n < 0x1_0000_0000_0000_0000
    ensures (8 * n) / 0x1_0000_0000_0000_0000 == n / 0x2000_0000_0000_0000 < 8
  {
    var q, r := n / 0x2000_0000_0000_0000, n % 0x2000_0000_0000_0000;
    Radix.FloorUnique(8 * n, 0x1_0000_0000_0000_0000, q, 8 * r);
  }

  /** A word below eight is stored as seven zero bytes and itself. */
  ghost predicate ShortWord<T>(ops: Ops<T>, word: nat -> T, k: nat) {
    k < 8 ==> ops.store(word(k)) == Zeros(7) + [k]
  }

  ghost predicate ShortWords<T>(ops: Ops<T>, word: nat -> T) {
    forall k: nat :: ShortWord(ops, word, k)
  }

  /** crypto_hash: the padded message hashed from the initial value. */
  method CryptoHash<T(!new, 0)>(ops: Ops<T>, word: nat -> T, iv: seq<Byte>, m: seq<Byte>) returns (out: array<Byte>)
    requires Lawful(ops) && ShortWords(ops, word) && |iv| == 64 && |m| < 0x1_0000_0000_0000_0000
    ensures fresh(out) && out[..] == Hash(ops, word, iv, m)
  {
    out := new Byte[64];
    StoreBytes(out, 0, iv);
    assert out[..] == iv;
    ghost var h := LoadWords(ops, iv, 8);
    var n := HashBlocks(ops, out, m);
    StoredWords(ops, Blocks(ops, h, m));
    var x, len := BuildTail(ops, word, m);
    n := HashBlocks(ops, out, x[..len]);
    TailPads(ops, m, LengthField(ops, word, |m|), h);
  }
}
