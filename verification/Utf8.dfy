// The UTF-8 codec of the TOML parser: one to six bytes, the form of section 2 of RFC 2279.
// Bytes are characters below 256. Shifts and masks are written as divisions and remainders.

module Utf8 {
  import opened Wrappers
  import Radix

  // ---- encoding ----

  /** The number of continuation bytes of a code, and the first code that does not fit them. */
  function Continuations(code: nat): (k: nat)
    ensures k <= 5
  {
    if code <= 0x7F then 0 else if code <= 0x7FF then 1 else if code <= 0xFFFF then 2
    else if code <= 0x1FFFFF then 3 else if code <= 0x3FFFFFF then 4 else 5
  }

  /** What stands above the code bits of the first byte. */
  function Mark(k: nat): (m: nat)
    requires k <= 5
    ensures m <= 0xfc
  {
    if k == 0 then 0 else if k == 1 then 0xc0 else if k == 2 then 0xe0
    else if k == 3 then 0xf0 else if k == 4 then 0xf8 else 0xfc
  }

  /** How many values the code bits of the first byte have. */
  function Lead(k: nat): (n: nat)
    requires k <= 5
    ensures 2 <= n && Mark(k) + n <= 256
  {
    if k == 0 then 128 else if k == 1 then 32 else if k == 2 then 16
    else if k == 3 then 8 else if k == 4 then 4 else 2
  }

  /** Surrogates, the noncharacters fffe and ffff, negative numbers and those of more than 31
      bits have no encoding. */
  predicate Encodable(code: int) {
    && 0 <= code <= 0x7FFFFFFF
    && !(0xd800 <= code <= 0xdfff) && !(0xfffe <= code <= 0xffff)
  }

  function ByteChar(b: int): (c: char)
    requires 0 <= b < 256
    ensures c as int == b
  {
    b as char
  }

  /** The last `k` groups of six bits, each in a continuation byte. */
  function Tail(code: nat, k: nat): (s: string)
    ensures |s| == k
  {
    if k == 0 then "" else Tail(code / 64, k - 1) + [ByteChar(0x80 + code % 64)]
  }

  /** What is above the last `k` groups. */
  function Top(code: nat, k: nat): nat {
    if k == 0 then code else Top(code / 64, k - 1)
  }

  lemma {:induction false} TopFits(code: nat, k: nat, n: nat)
    requires code < n * Radix.Pow(64, k)
    ensures Top(code, k) < n
  {
    if k > 0 {
      var w := Radix.Pow(64, k - 1);
      assert n * (64 * w) == 64 * (n * w);
      TopFits(code / 64, k - 1, n);
    }
  }

  lemma LeadFits(code: nat)
    requires code <= 0x7FFFFFFF
    ensures Top(code, Continuations(code)) < Lead(Continuations(code))
  {
    assert Radix.Pow(64, 1) == 64 && Radix.Pow(64, 2) == 4096 && Radix.Pow(64, 3) == 262144;
    assert Radix.Pow(64, 4) == 64 * Radix.Pow(64, 3) && Radix.Pow(64, 5) == 64 * Radix.Pow(64, 4);
    TopFits(code, Continuations(code), Lead(Continuations(code)));
  }

  /** toml_ucs_to_utf8: none for -1. */
  function Encode(code: int): (s: Option<string>)
    ensures s.Some? <==> Encodable(code)
    ensures s.Some? ==> |s.value| == 1 + Continuations(code)
  {
    if !Encodable(code) then None
    else
      LeadFits(code);
      Some(Written(code, Continuations(code)))
  }

  /** The first byte and `k` continuation bytes. */
  function Written(code: nat, k: nat): (s: string)
    requires k <= 5 && Top(code, k) < Lead(k)
    ensures |s| == 1 + k
  {
    [ByteChar(Mark(k) + Top(code, k))] + Tail(code, k)
  }

  lemma TailOne(code: nat)
    ensures Tail(code, 1) == [ByteChar(0x80 + code % 0x40)] && Top(code, 1) == code / 0x40
  {
    assert Tail(code / 64, 0) == "" && Top(code / 64, 0) == code / 64;
  }

  /** What is written behind the first byte, and what is left for it. */
  lemma Tails(code: nat)
    ensures Tail(code, 1) == [ByteChar(0x80 + code % 0x40)] && Top(code, 1) == code / 0x40
    ensures Tail(code, 2) == [ByteChar(0x80 + code / 0x40 % 0x40), ByteChar(0x80 + code % 0x40)]
    ensures Top(code, 2) == code / 0x1000
    ensures Tail(code, 3) == [ByteChar(0x80 + code / 0x1000 % 0x40), ByteChar(0x80 + code / 0x40 % 0x40),
                              ByteChar(0x80 + code % 0x40)]
    ensures Top(code, 3) == code / 0x40000
  {
    var u, v := code / 64, code / 64 / 64;
    assert v == code / 0x1000 && v / 64 == code / 0x40000;
    TailOne(code);
    TailOne(u);
    TailOne(v);
    assert Tail(u, 2) == Tail(v, 1) + [ByteChar(0x80 + u % 64)] && Top(u, 2) == Top(v, 1);
    assert Tail(code, 2) == Tail(u, 1) + [ByteChar(0x80 + code % 64)] && Top(code, 2) == Top(u, 1);
    assert Tail(code, 3) == Tail(u, 2) + [ByteChar(0x80 + code % 64)] && Top(code, 3) == Top(u, 2);
  }

  /** The forms of one to four bytes. */
  lemma EncodedForms(code: nat)
    requires Encodable(code) && code <= 0x1FFFFF
    ensures code <= 0x7F ==> Encode(code).value == [ByteChar(code)]
    ensures 0x80 <= code <= 0x7FF ==>
              Encode(code).value == [ByteChar(0xC0 + code / 0x40), ByteChar(0x80 + code % 0x40)]
    ensures 0x800 <= code <= 0xFFFF ==>
              Encode(code).value == [ByteChar(0xE0 + code / 0x1000), ByteChar(0x80 + code / 0x40 % 0x40),
                                     ByteChar(0x80 + code % 0x40)]
    ensures 0x10000 <= code ==>
              Encode(code).value == [ByteChar(0xF0 + code / 0x40000), ByteChar(0x80 + code / 0x1000 % 0x40),
                                     ByteChar(0x80 + code / 0x40 % 0x40), ByteChar(0x80 + code % 0x40)]
  {
    LeadFits(code);
    Tails(code);
    assert Encode(code).value == [ByteChar(Mark(Continuations(code)) + Top(code, Continuations(code)))]
                                 + Tail(code, Continuations(code));
  }

  // ---- decoding ----

  /** How many continuation bytes a first byte announces: the shifted comparisons of the source
      say in which range it lies. */
  function Announced(b: nat): (k: Option<nat>)
    ensures k.Some? ==> k.value <= 5 && Mark(k.value) <= b < Mark(k.value) + Lead(k.value)
  {
    if b < 0x80 then Some(0)
    else if 0xC0 <= b < 0xE0 then Some(1)
    else if 0xE0 <= b < 0xF0 then Some(2)
    else if 0xF0 <= b < 0xF8 then Some(3)
    else if 0xF8 <= b < 0xFC then Some(4)
    else if 0xFC <= b < 0xFE then Some(5)
    else None
  }

  /** Six more bits from each of the first `k` bytes of `s`. */
  function Continue(v: nat, s: string, k: nat): Option<nat>
    requires k <= |s|
    decreases k
  {
    if k == 0 then Some(v)
    else if s[0] as int / 64 != 2 then None
    else Continue(v * 64 + s[0] as int % 64, s[1..], k - 1)
  }

  /** toml_utf8_to_ucs: the code and the number of bytes consumed; none for -1. */
  function Decode(s: string): (r: Option<(nat, nat)>)
    ensures r.Some? ==> 1 <= r.value.1 <= |s|
  {
    if s == "" then None
    else
      match Announced(s[0] as int)
      case None => None
      case Some(k) => DecodeFrom(s[0] as int - Mark(k), s[1..], k)
  }

  /** The rest of a code of which the first byte gave `v`. */
  function DecodeFrom(v: nat, s: string, k: nat): (r: Option<(nat, nat)>)
    ensures r.Some? ==> r.value.1 == 1 + k <= 1 + |s|
  {
    if |s| < k then None
    else
      match Continue(v, s, k)
      case None => None
      case Some(u) => Some((u, 1 + k))
  }

  // ---- round trip ----

  lemma {:induction false} ContinueTail(code: nat, k: nat, rest: string)
    ensures Continue(Top(code, k), Tail(code, k) + rest, k) == Some(code)
    decreases k
  {
    if k > 0 {
      var last := ByteChar(0x80 + code % 64);
      assert Tail(code, k) + rest == Tail(code / 64, k - 1) + ([last] + rest);
      ContinueTail(code / 64, k - 1, [last] + rest);
      ContinueMore(Top(code, k), Tail(code / 64, k - 1), [last] + rest, k - 1);
    }
  }

  /** Reading one byte more continues from what was read. */
  lemma {:induction false} ContinueMore(v: nat, s: string, t: string, k: nat)
    requires |s| == k && t != []
    ensures Continue(v, s + t, k + 1) ==
            match Continue(v, s + t, k)
            case None => None
            case Some(u) => if t[0] as int / 64 != 2 then None else Some(u * 64 + t[0] as int % 64)
    decreases k
  {
    assert (s + t)[1..] == if k == 0 then t[1..] else s[1..] + t;
    if k == 0 {
      assert s + t == t;
    } else if s[0] as int / 64 == 2 {
      ContinueMore(v * 64 + s[0] as int % 64, s[1..], t, k - 1);
    }
  }

  lemma AnnouncedMark(k: nat, q: nat)
    requires k <= 5 && q < Lead(k)
    ensures Announced(Mark(k) + q) == Some(k)
  {}

  lemma DecodeLead(s: string, k: nat, q: nat, t: string)
    requires k <= 5 && q < Lead(k) && s == [ByteChar(Mark(k) + q)] + t
    ensures Decode(s) == DecodeFrom(q, t, k)
  {
    AnnouncedMark(k, q);
    assert s[0] as int == Mark(k) + q && s[1..] == t;
  }

  lemma DecodeWritten(code: nat, k: nat, rest: string)
    requires k <= 5 && Top(code, k) < Lead(k)
    ensures Decode(Written(code, k) + rest) == Some((code, 1 + k))
  {
    ContinueTail(code, k, rest);
    var lead := [ByteChar(Mark(k) + Top(code, k))];
    assert Written(code, k) + rest == lead + (Tail(code, k) + rest);
    DecodeLead(Written(code, k) + rest, k, Top(code, k), Tail(code, k) + rest);
  }

  /** Decoding undoes encoding, whatever follows. */
  lemma DecodeEncoded(code: int, rest: string)
    requires Encodable(code)
    ensures Decode(Encode(code).value + rest) == Some((code, 1 + Continuations(code)))
  {
    LeadFits(code);
    DecodeWritten(code, Continuations(code), rest);
  }

  function EncodeAll(codes: seq<int>): string
    requires forall k :: 0 <= k < |codes| ==> Encodable(codes[k])
  {
    if codes == [] then "" else Encode(codes[0]).value + EncodeAll(codes[1..])
  }

  /** Decoding again and again up to the end. */
  function DecodeAll(s: string): Option<seq<int>>
    decreases |s|
  {
    if s == "" then Some([])
    else
      match Decode(s)
      case None => None
      case Some((v, n)) =>
        match DecodeAll(s[n..])
        case None => None
        case Some(codes) => Some([v] + codes)
  }

  /** A list of codes is recovered from its encoding. */
  lemma {:induction false} DecodeAllEncoded(codes: seq<int>)
    requires forall k :: 0 <= k < |codes| ==> Encodable(codes[k])
    ensures DecodeAll(EncodeAll(codes)) == Some(codes)
  {
    if codes != [] {
      var front, back := Encode(codes[0]).value, EncodeAll(codes[1..]);
      DecodeEncoded(codes[0], back);
      assert (front + back)[|front|..] == back;
      DecodeAllEncoded(codes[1..]);
      assert [codes[0]] + codes[1..] == codes;
    }
  }

  // ---- what the decoder accepts beyond the encodings ----

  /** The bytes read are the continuation bytes of the code read. */
  lemma {:induction false} ContinueInverse(v: nat, s: string, k: nat, u: nat)
    requires k <= |s| && Continue(v, s, k) == Some(u)
    ensures Tail(u, k) == s[..k] && Top(u, k) == v
    decreases k
  {
    if k > 0 {
      assert s == s[..k - 1] + s[k - 1..] && s[k - 1..][0] == s[k - 1];
      ContinueMore(v, s[..k - 1], s[k - 1..], k - 1);
      var t := Continue(v, s, k - 1).value;
      ContinueInverse(v, s, k - 1, t);
      LastSix(t, s[k - 1] as int, u);
      assert s[..k] == s[..k - 1] + [s[k - 1]];
    }
  }

  lemma LastSix(t: nat, b: nat, u: nat)
    requires b / 64 == 2 && u == t * 64 + b % 64
    ensures u / 64 == t && 0x80 + u % 64 == b
  {}

  /** What is decoded is the encoding of the code exactly when the code is encodable and has no
      shorter form. */
  lemma ReencodedIff(s: string, v: nat, n: nat)
    requires Decode(s) == Some((v, n))
    ensures Encode(v) == Some(s[..n]) <==> Encodable(v) && 1 + Continuations(v) == n
  {
    ContinueInverse(s[0] as int - Mark(n - 1), s[1..], n - 1, v);
    assert s[..n] == [s[0]] + s[1..][..n - 1];
  }

  /** Overlong forms are accepted: any code in one byte more than it takes. */
  lemma OverlongAccepted(code: nat, rest: string)
    requires Encodable(code) && Continuations(code) < 5
    ensures Top(code, Continuations(code) + 1) < Lead(Continuations(code) + 1)
    ensures Decode(Written(code, Continuations(code) + 1) + rest) == Some((code, 2 + Continuations(code)))
  {
    var k := Continuations(code);
    TopOnce(code, k);
    LeadFits(code);
    DecodeWritten(code, k + 1, rest);
  }

  lemma {:induction false} TopOnce(code: nat, k: nat)
    ensures Top(code, k + 1) == Top(code, k) / 64
  {
    if k > 0 {
      TopOnce(code / 64, k - 1);
    }
  }

  // ---- the loops and branches of the source ----

  /** toml_utf8_to_ucs */
  method Utf8ToUcs(s: string) returns (n: int, v: nat)
    requires s != ""
    ensures n == match Decode(s) case None => -1 case Some((_, m)) => m
    ensures n != -1 ==> v == Decode(s).value.0
  {
    var announced := Announced(s[0] as int);
    if announced.None? { return -1, 0; }
    n, v := ReadRest(s[0] as int - Mark(announced.value), s[1..], announced.value);
  }

  /** The loop over the continuation bytes. */
  method ReadRest(lead: nat, s: string, k: nat) returns (n: int, v: nat)
    ensures n == match DecodeFrom(lead, s, k) case None => -1 case Some((_, m)) => m
    ensures n != -1 ==> v == DecodeFrom(lead, s, k).value.0
  {
    v := lead;
    if |s| < k { return -1, v; }
    assert s[0..] == s;
    for j := 0 to k
      invariant Continue(lead, s, k) == Continue(v, s[j..], k - j)
    {
      var i := s[j] as int;
      if i / 64 != 2 { return -1, v; }
      assert s[j..][1..] == s[j + 1..];
      v := v * 64 + i % 64;
    }
    return 1 + k, v;
  }

  // ---- writing the bytes ----

  function Six(v: nat): char {
    ByteChar(0x80 + v % 64)
  }

  lemma Tail1(c0: nat)
    ensures Tail(c0, 1) == [Six(c0)]
  {
    assert Tail(c0, 1) == Tail(c0 / 64, 0) + [Six(c0)];
  }

  lemma Tail2(c1: nat, c0: nat)
    requires c1 == c0 / 64
    ensures Tail(c0, 2) == [Six(c1), Six(c0)]
  {
    Tail1(c1);
  }

  lemma Tail3(c2: nat, c1: nat, c0: nat)
    requires c1 == c0 / 64 && c2 == c1 / 64
    ensures Tail(c0, 3) == [Six(c2), Six(c1), Six(c0)]
  {
    Tail2(c2, c1);
  }

  lemma Tail4(c3: nat, c2: nat, c1: nat, c0: nat)
    requires c1 == c0 / 64 && c2 == c1 / 64 && c3 == c2 / 64
    ensures Tail(c0, 4) == [Six(c3), Six(c2), Six(c1), Six(c0)]
  {
    Tail3(c3, c2, c1);
  }

  lemma Tail5(c4: nat, c3: nat, c2: nat, c1: nat, c0: nat)
    requires c1 == c0 / 64 && c2 == c1 / 64 && c3 == c2 / 64 && c4 == c3 / 64
    ensures Tail(c0, 5) == [Six(c4), Six(c3), Six(c2), Six(c1), Six(c0)]
  {
    Tail4(c4, c3, c2, c1);
  }

  /** The bytes of the six branches, from the code and its shifts by 6, 12, 18, 24 and 30. */
  function Branch(c0: nat, c1: nat, c2: nat, c3: nat, c4: nat, c5: nat): (bytes: string)
    requires c0 <= 0x7FFFFFFF && c1 == c0 / 64 && c2 == c1 / 64 && c3 == c2 / 64 && c4 == c3 / 64 && c5 == c4 / 64
    ensures |bytes| == 1 + Continuations(c0)
  {
    if c0 <= 0x7F then [ByteChar(c0)]
    else if c0 <= 0x7FF then [ByteChar(0xc0 + c1), Six(c0)]
    else if c0 <= 0xFFFF then [ByteChar(0xe0 + c2), Six(c1), Six(c0)]
    else if c0 <= 0x1FFFFF then [ByteChar(0xf0 + c3), Six(c2), Six(c1), Six(c0)]
    else if c0 <= 0x3FFFFFF then [ByteChar(0xf8 + c4), Six(c3), Six(c2), Six(c1), Six(c0)]
    else [ByteChar(0xfc + c5), Six(c4), Six(c3), Six(c2), Six(c1), Six(c0)]
  }

  lemma BranchIsEncoding(c0: nat, c1: nat, c2: nat, c3: nat, c4: nat, c5: nat)
    requires Encodable(c0)
    requires c1 == c0 / 64 && c2 == c1 / 64 && c3 == c2 / 64 && c4 == c3 / 64 && c5 == c4 / 64
    ensures Branch(c0, c1, c2, c3, c4, c5) == Encode(c0).value
  {
    LeadFits(c0);
    Tail1(c0);
    Tail2(c1, c0);
    Tail3(c2, c1, c0);
    Tail4(c3, c2, c1, c0);
    Tail5(c4, c3, c2, c1, c0);
    TopOf(c0, c1, c2, c3, c4, c5);
  }

  lemma TopOf(c0: nat, c1: nat, c2: nat, c3: nat, c4: nat, c5: nat)
    requires c1 == c0 / 64 && c2 == c1 / 64 && c3 == c2 / 64 && c4 == c3 / 64 && c5 == c4 / 64
    ensures Top(c0, 1) == c1 && Top(c0, 2) == c2 && Top(c0, 3) == c3 && Top(c0, 4) == c4 && Top(c0, 5) == c5
  {
    TopOnce(c0, 1);
    TopOnce(c0, 2);
    TopOnce(c0, 3);
    TopOnce(c0, 4);
  }

  /** toml_ucs_to_utf8, into a buffer with room for six bytes. */
  method UcsToUtf8(code: int, buf: array<char>, at: nat) returns (n: int)
    requires at + 6 <= buf.Length
    modifies buf
    ensures n == match Encode(code) case None => -1 case Some(s) => |s|
    ensures n != -1 ==> buf[at..at + n] == Encode(code).value
    ensures buf[..at] == old(buf[..at])
    ensures n == -1 ==> buf[..] == old(buf[..])
    ensures n != -1 ==> buf[at + n..] == old(buf[at + n..])
  {
    if 0xd800 <= code <= 0xdfff { return -1; }
    if 0xfffe <= code <= 0xffff { return -1; }
    if code < 0 { return -1; }
    if code > 0x7FFFFFFF { return -1; }
    var c1 := code / 64;
    var c2 := c1 / 64;
    var c3 := c2 / 64;
    var c4 := c3 / 64;
    var c5 := c4 / 64;
    BranchIsEncoding(code, c1, c2, c3, c4, c5);
    var bytes := Branch(code, c1, c2, c3, c4, c5);
    PutBytes(buf, at, bytes);
    return |bytes|;
  }

  method PutBytes(buf: array<char>, at: nat, bytes: string)
    requires at + |bytes| <= buf.Length
    modifies buf
    ensures buf[at..at + |bytes|] == bytes
    ensures buf[..at] == old(buf[..at]) && buf[at + |bytes|..] == old(buf[at + |bytes|..])
  {
    for i := 0 to |bytes|
      invariant buf[at..at + i] == bytes[..i]
      invariant buf[..at] == old(buf[..at]) && buf[at + |bytes|..] == old(buf[at + |bytes|..])
    {
      buf[at + i] := bytes[i];
    }
  }
}
