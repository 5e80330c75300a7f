// Ed25519 as the program uses it: the signatures of Sign with SHA-512 as their hash.

module Ed25519 {
  import opened Wrappers
  import opened Radix
  import opened Edwards
  import opened Sign
  import HashCore
  import Sha512
  import SignAgreement

  predicate AreBytes(m: seq<int>) {
    forall k :: 0 <= k < |m| ==> 0 <= m[k] < 256
  }

  /** SHA-512 as a hash of integer sequences; what it gives for anything but bytes does not matter. */
  function ByteHash(m: seq<int>): seq<int> {
    if AreBytes(m) then Sha512.Sha512(m) else Sha512.Sha512([])
  }

  lemma {:induction false} StoredLength(h: seq<Sha512.Word>)
    ensures |HashCore.StoreWords(Sha512.Words(), h)| == 8 * |h|
  {
    if h != [] {
      StoredLength(h[..|h| - 1]);
    }
  }

  /** SHA-512 gives 64 bytes. */
  lemma Sha512Length(b: seq<HashCore.Byte>)
    ensures |Sha512.Sha512(b)| == 64
  {
    var padded := HashCore.Padded(Sha512.Words(), Sha512.ToWord, b);
    StoredLength(HashCore.Blocks(Sha512.Words(), HashCore.LoadWords(Sha512.Words(), Sha512.IV, 8), padded));
  }

  lemma BytesAreDigits(s: seq<HashCore.Byte>)
    ensures Digits(s, 256)
  {}

  lemma ByteHashTo64()
    ensures HashTo64(ByteHash)
  {
    forall m ensures |ByteHash(m)| == 64 && Digits(ByteHash(m), 256) {
      HashOf(m);
    }
  }

  lemma HashOf(m: seq<int>)
    ensures |ByteHash(m)| == 64 && Digits(ByteHash(m), 256)
  {
    if AreBytes(m) {
      Sha512Length(m);
      BytesAreDigits(Sha512.Sha512(m));
    } else {
      Sha512Length([]);
      BytesAreDigits(Sha512.Sha512([]));
    }
  }

  /** Ed25519 with SHA-512: every signature opens to its message under the key pair of its seed. */
  lemma Ed25519Opens<G(!new)>(abs: Ext -> G, good: Ext -> bool, op: (G, G) -> G, zero: G,
                              seed: seq<int>, m: seq<int>)
    requires SignAgreement.Curve(abs, good, op, zero) && |seed| == 32
    ensures HashTo64(ByteHash) && |PublicKey(ByteHash, seed)| == 32
    ensures Opened(ByteHash, Signed(ByteHash, m, seed + PublicKey(ByteHash, seed)), PublicKey(ByteHash, seed))
         == Some(m)
  {
    ByteHashTo64();
    SignAgreement.SignedOpens(abs, good, op, zero, ByteHash, seed, m);
  }
}
