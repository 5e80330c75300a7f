// Verification of a blueprint file against a minisign signature and public key. The second
// lines of the two files, without their line ends, and the bytes of the data file come in as
// values.

module Minisign {
  import opened Wrappers
  import opened Radix
  import opened Edwards
  import opened Scalar
  import opened Sign
  import Base64
  import Ed25519
  import SignAgreement
  import Tampering

  type Byte = Base64.Byte

  /** Data files beyond this are refused. */
  const MAX_DATA := 8 * 1024 * 1024

  datatype Outcome = Verified | NoLine | BadLength | BadAlgorithm | OtherKey | TooLarge | BadSignature

  // ---- blobs ----

  /** The algorithm field, a little-endian number of two bytes. */
  function Algorithm(blob: seq<Byte>): int
    requires |blob| >= 2
  {
    var low: int, high: int := blob[0], blob[1];
    low + 256 * high
  }

  const ALGORITHM := 0x4564

  /** What load_blob returns for the second line of a file. */
  function Load(line: Option<string>, want: nat): Outcome
    requires want >= 2
  {
    match line
    case None => NoLine
    case Some(text) =>
      match Base64.Decoded(text)
      case None => BadLength
      case Some(blob) =>
        if |blob| != want then BadLength else if Algorithm(blob) != ALGORITHM then BadAlgorithm else Verified
  }

  /** load_blob: the blob is in `raw` when it is accepted. */
  method LoadBlob(line: Option<string>, raw: array<Byte>) returns (r: Outcome)
    requires raw.Length >= 2
    modifies raw
    ensures r == Load(line, raw.Length)
    ensures r == Verified ==> Base64.Decoded(line.value) == Some(raw[..])
  {
    if line.None? { return NoLine; }
    var n := Base64.Decode(line.value, raw, raw.Length);
    if n != raw.Length { return BadLength; }
    assert raw[..n] == raw[..];
    var low: int, high: int := raw[0], raw[1];
    if low + 256 * high != ALGORITHM { return BadAlgorithm; }
    return Verified;
  }

  // ---- the file ----

  /** bp_verify_file, on the blobs once they are loaded. */
  ghost function CheckBlobs(key: seq<Byte>, sig: seq<Byte>, data: seq<Byte>): Outcome
    requires |key| == 42 && |sig| == 74
  {
    if key[2..10] != sig[2..10] then OtherKey
    else if |data| > MAX_DATA then TooLarge
    else if Opened(Ed25519.ByteHash, sig[10..] + data, key[10..]).Some? then Verified else BadSignature
  }

  /** bp_verify_file */
  ghost function Check(keyLine: Option<string>, sigLine: Option<string>, data: seq<Byte>): Outcome {
    var k, s := Load(keyLine, 42), Load(sigLine, 74);
    if k != Verified then k
    else if s != Verified then s
    else CheckBlobs(Base64.Decoded(keyLine.value).value, Base64.Decoded(sigLine.value).value, data)
  }

  method VerifyFile(keyLine: Option<string>, sigLine: Option<string>, data: seq<Byte>) returns (r: Outcome)
    ensures r == Check(keyLine, sigLine, data)
  {
    var pk, sig := new Byte[42](_ => 0), new Byte[74](_ => 0);
    r := LoadBlob(keyLine, pk);
    if r != Verified { return; }
    var key := pk[..];
    r := LoadBlob(sigLine, sig);
    if r != Verified { return; }
    r := VerifyBlobs(key, sig[..], data);
  }

  method VerifyBlobs(key: seq<Byte>, sig: seq<Byte>, data: seq<Byte>) returns (r: Outcome)
    requires |key| == 42 && |sig| == 74
    ensures r == CheckBlobs(key, sig, data)
  {
    if key[2..10] != sig[2..10] { return OtherKey; }
    if |data| > MAX_DATA { return TooLarge; }
    var sm := sig[10..] + data;
    Ed25519.ByteHashTo64();
    Ed25519.BytesAreDigits(sm);
    Ed25519.BytesAreDigits(key[10..]);
    var ok, m, mlen := CryptoSignOpen(Ed25519.ByteHash, sm, key[10..]);
    return if ok then Verified else BadSignature;
  }

  // ---- what is accepted ----

  /** A blob: the algorithm as the code reads it, a key id, and the key or signature. */
  function Blob(id: seq<Byte>, payload: seq<Byte>): (blob: seq<Byte>)
    requires |id| == 8
    ensures |blob| == 10 + |payload| && blob[2..10] == id && blob[10..] == payload
    ensures Algorithm(blob) == ALGORITHM
  {
    [0x64, 0x45] + id + payload
  }

  lemma BlobLoads(id: seq<Byte>, payload: seq<Byte>)
    requires |id| == 8
    ensures Load(Some(Base64.Encode(Blob(id, payload))), 10 + |payload|) == Verified
  {
    Base64.DecodeEncoded(Blob(id, payload));
  }

  /** A blob with another algorithm is refused, among them the ones that begin with the letters
      'E' and 'd' in this order. */
  lemma OtherAlgorithmRefused(blob: seq<Byte>)
    requires |blob| >= 2
    ensures Load(Some(Base64.Encode(blob)), |blob|) == Verified <==> blob[0] == 0x64 && blob[1] == 0x45
    ensures blob[..2] == [0x45, 0x64] ==> Load(Some(Base64.Encode(blob)), |blob|) == BadAlgorithm
  {
    Base64.DecodeEncoded(blob);
    if blob[..2] == [0x45, 0x64] {
      assert blob[0] == blob[..2][0] && blob[1] == blob[..2][1];
    }
  }

  /** The key file and the signature file of a signer, for a seed, a key id and the data. */
  function KeyLine(id: seq<Byte>, pk: seq<Byte>): string
    requires |id| == 8
  {
    Base64.Encode(Blob(id, pk))
  }

  function SignatureLine(id: seq<Byte>, signature: seq<Byte>): string
    requires |id| == 8
  {
    Base64.Encode(Blob(id, signature))
  }

  /** What comes of the file of a key and the file of a signature: another key id is refused, then data
      that is too large, and then crypto_sign_open decides about the signature in front of the data. */
  lemma FilesVerify(id: seq<Byte>, pk: seq<Byte>, id': seq<Byte>, signature: seq<Byte>, data: seq<Byte>)
    requires |id| == |id'| == 8 && |pk| == 32 && |signature| == 64
    ensures Check(Some(KeyLine(id, pk)), Some(SignatureLine(id', signature)), data)
         == if id' != id then OtherKey
            else if |data| > MAX_DATA then TooLarge
            else if Opened(Ed25519.ByteHash, signature + data, pk).Some? then Verified else BadSignature
  {
    BlobLoads(id, pk);
    BlobLoads(id', signature);
    Base64.DecodeEncoded(Blob(id, pk));
    Base64.DecodeEncoded(Blob(id', signature));
  }

  /** From signing to the verified file: the two files of a signer verify the data signed, for
      every seed, key id and data of at most 8 MiB. */
  lemma SignedFileVerifies<G(!new)>(abs: Ext -> G, good: Ext -> bool, op: (G, G) -> G, zero: G,
                                    seed: seq<int>, id: seq<Byte>, data: seq<Byte>, pk: seq<Byte>, signature: seq<Byte>)
    requires SignAgreement.Curve(abs, good, op, zero) && HashTo64(Ed25519.ByteHash)
    requires |seed| == 32 && |id| == 8 && |data| <= MAX_DATA
    requires pk == PublicKey(Ed25519.ByteHash, seed) && |seed + pk| == 64
    requires signature == Signed(Ed25519.ByteHash, data, seed + pk)[..64]
    ensures Check(Some(KeyLine(id, pk)), Some(SignatureLine(id, signature)), data) == Verified
  {
    var sm := Signed(Ed25519.ByteHash, data, seed + pk);
    SignAgreement.SignedFields(Ed25519.ByteHash, data, seed + pk);
    assert sm == sm[..64] + sm[64..];
    Ed25519.Ed25519Opens(abs, good, op, zero, seed, data);
    FilesVerify(id, pk, id, signature, data);
  }

  /** The files of a signer beside other data: they verify exactly when the data is small enough and the
      hash of R, the key and that data times the secret scalar is what it is for the data signed,
      modulo the order. */
  lemma OtherDataVerifiesIff<G(!new)>(abs: Ext -> G, good: Ext -> bool, op: (G, G) -> G, zero: G,
                                      seed: seq<int>, id: seq<Byte>, data: seq<Byte>, data': seq<Byte>,
                                      pk: seq<Byte>, signature: seq<Byte>, x: int, x': int)
    requires Tampering.SharpCurve(abs, good, op, zero) && HashTo64(Ed25519.ByteHash)
    requires |seed| == 32 && |id| == 8 && pk == PublicKey(Ed25519.ByteHash, seed) && |seed + pk| == 64
    requires |Signed(Ed25519.ByteHash, data, seed + pk)| >= 64
    requires signature == Signed(Ed25519.ByteHash, data, seed + pk)[..64]
    requires x == Value(Ed25519.ByteHash(signature[..32] + pk + data), 256)
                  * Value(Pruned(Ed25519.ByteHash(seed)), 256)
    requires x' == Value(Ed25519.ByteHash(signature[..32] + pk + data'), 256)
                   * Value(Pruned(Ed25519.ByteHash(seed)), 256)
    ensures Check(Some(KeyLine(id, pk)), Some(SignatureLine(id, signature)), data') == Verified
       <==> |data'| <= MAX_DATA && Cong(x', x, ORDER)
  {
    var accepted := Tampering.TamperedIff(abs, good, op, zero, Ed25519.ByteHash, seed, data, seed, data',
                                          pk, pk, signature, x, x');
    FilesVerify(id, pk, id, signature, data');
  }
}
