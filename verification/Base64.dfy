// The base64 decoder of the signature check, against the standard encoding of section 4 of
// RFC 4648. Shifts and ors of small numbers are written as arithmetic: the operands of each
// "or" have no bit in common.

module Base64 {
  import opened Wrappers
  import Radix

  type Byte = x: int | 0 <= x < 256

  // ---- the alphabet ----

  /** b64val */
  function ValueOf(c: char): (v: int)
    ensures -1 <= v < 64
  {
    if 'A' <= c <= 'Z' then c as int - 'A' as int
    else if 'a' <= c <= 'z' then c as int - 'a' as int + 26
    else if '0' <= c <= '9' then c as int - '0' as int + 52
    else if c == '+' then 62
    else if c == '/' then 63
    else -1
  }

  /** The character of a six-bit value. */
  function CharOf(v: int): char
    requires 0 <= v < 64
  {
    if v < 26 then (v + 'A' as int) as char
    else if v < 52 then (v - 26 + 'a' as int) as char
    else if v < 62 then (v - 52 + '0' as int) as char
    else if v == 62 then '+' else '/'
  }

  /** The two are inverse to each other, and '=' is not in the alphabet. */
  lemma AlphabetInverse(c: char, v: int)
    ensures 0 <= v < 64 ==> ValueOf(CharOf(v)) == v && CharOf(v) != '='
    ensures ValueOf(c) >= 0 ==> CharOf(ValueOf(c)) == c
  {}

  // ---- decoding ----

  /** The value in one of the last two places of a group, where '=' stands for zero. */
  function Padded(c: char): (v: int)
    ensures -1 <= v < 64
  {
    if c == '=' then 0 else ValueOf(c)
  }

  /** The three bytes that four six-bit values make up. */
  function First(a: int, b: int): int { a * 4 + b / 16 }
  function Second(b: int, c: int): int { b % 16 * 16 + c / 4 }
  function Third(c: int, d: int): int { c % 4 * 64 + d }

  /** The four six-bit values of three bytes. */
  function Six0(x: int): int { x / 4 }
  function Six1(x: int, y: int): int { x % 4 * 16 + y / 16 }
  function Six2(y: int, z: int): int { y % 16 * 4 + z / 64 }
  function Six3(z: int): int { z % 64 }

  lemma SixBits(x: Byte, y: Byte, z: Byte)
    ensures 0 <= Six0(x) < 64 && 0 <= Six1(x, y) < 64 && 0 <= Six2(y, z) < 64 && 0 <= Six3(z) < 64
  {}

  lemma FromBytes(x: Byte, y: Byte, z: Byte, a: int, b: int, c: int, d: int)
    requires a == Six0(x) && b == Six1(x, y) && c == Six2(y, z) && d == Six3(z)
    ensures First(a, b) == x && Second(b, c) == y && Third(c, d) == z
  {}

  lemma FromOneByte(x: Byte, a: int, b: int)
    requires a == Six0(x) && b == Six1(x, 0)
    ensures First(a, b) == x
  {}

  lemma FromTwoBytes(x: Byte, y: Byte, a: int, b: int, c: int)
    requires a == Six0(x) && b == Six1(x, y) && c == Six2(y, 0)
    ensures First(a, b) == x && Second(b, c) == y
  {}

  lemma ByteRange(a: int, b: int, c: int, d: int)
    requires 0 <= a < 64 && 0 <= b < 64 && 0 <= c < 64 && 0 <= d < 64
    ensures 0 <= First(a, b) < 256 && 0 <= Second(b, c) < 256 && 0 <= Third(c, d) < 256
  {}

  lemma FromSix(a: int, b: int, c: int, d: int)
    requires 0 <= a < 64 && 0 <= b < 64 && 0 <= c < 64 && 0 <= d < 64
    ensures Six0(First(a, b)) == a
    ensures Six1(First(a, b), Second(b, c)) == b && Six1(First(a, b), 0) == b / 16 * 16
    ensures Six2(Second(b, c), Third(c, d)) == c && Six2(Second(b, c), 0) == c / 4 * 4
    ensures Six3(Third(c, d)) == d
  {}

  /** The first byte, and the second and third if wanted. */
  function Bytes(a: int, b: int, c: int, d: int, second: bool, third: bool): seq<Byte>
    requires 0 <= a < 64 && 0 <= b < 64 && 0 <= c < 64 && 0 <= d < 64
  {
    ByteRange(a, b, c, d);
    if second then
      if third then [First(a, b), Second(b, c), Third(c, d)] else [First(a, b), Second(b, c)]
    else
      if third then [First(a, b), Third(c, d)] else [First(a, b)]
  }

  /** The one to three bytes of a group of four characters. */
  function Group(p: char, q: char, r: char, s: char): (bytes: Option<seq<Byte>>) {
    var a, b, c, d := ValueOf(p), ValueOf(q), Padded(r), Padded(s);
    if a < 0 || b < 0 || c < 0 || d < 0 then None
    else
      Some(Bytes(a, b, c, d, r != '=', s != '='))
  }

  /** What the decoder makes of a whole text, room permitting. */
  function Decoded(text: string): Option<seq<Byte>> {
    if |text| == 0 then Some([])
    else if |text| < 4 then None
    else
      match Group(text[0], text[1], text[2], text[3])
      case None => None
      case Some(front) =>
        match Decoded(text[4..])
        case None => None
        case Some(back) => Some(front + back)
  }

  /** A shift up and a cut to a byte drop the high bits. */
  lemma LowByte(b: int, c: int)
    requires 0 <= b < 64 && 0 <= c < 64
    ensures (b * 16 + c / 4) % 256 == Second(b, c)
    ensures (b * 64 + c) % 256 == Third(b, c)
  {
    Radix.FloorUnique(b * 16 + c / 4, 256, b / 16, Second(b, c));
    Radix.FloorUnique(b * 64 + c, 256, b / 4, Third(b, c));
  }

  /** What the first `done` characters of the text have to do with the output so far. */
  ghost predicate Progress(text: string, done: nat, written: seq<Byte>) {
    done <= |text| &&
    Decoded(text) == match Decoded(text[done..])
                     case None => None
                     case Some(back) => Some(written + back)
  }

  lemma ProgressStart(text: string)
    ensures Progress(text, 0, [])
  {
    assert text[0..] == text;
    if Decoded(text).Some? {
      assert [] + Decoded(text).value == Decoded(text).value;
    }
  }

  lemma ProgressStep(text: string, done: nat, written: seq<Byte>)
    requires Progress(text, done, written) && done + 4 <= |text|
    ensures var g := Group(text[done], text[done + 1], text[done + 2], text[done + 3]);
            if g.None? then Decoded(text).None? else Progress(text, done + 4, written + g.value)
  {
    var rest := text[done..];
    assert rest[4..] == text[done + 4..];
    var g := Group(text[done], text[done + 1], text[done + 2], text[done + 3]);
    if g.Some? && Decoded(rest[4..]).Some? {
      assert written + (g.value + Decoded(rest[4..]).value) == (written + g.value) + Decoded(rest[4..]).value;
    }
  }

  /** `t` is `s` with `w` written from `at` up to `o`. */
  ghost predicate Wrote(s: seq<Byte>, t: seq<Byte>, at: nat, o: nat, w: seq<Byte>) {
    |s| == |t| && o == at + |w| <= |s| && t[..o] == s[..at] + w && t[o..] == s[o..]
  }

  lemma WroteNothing(s: seq<Byte>, at: nat)
    requires at <= |s|
    ensures Wrote(s, s, at, at, [])
  {
    assert s[..at] + [] == s[..at];
  }

  lemma WroteMore(s: seq<Byte>, t: seq<Byte>, at: nat, o: nat, w: seq<Byte>, v: Byte)
    requires Wrote(s, t, at, o, w) && o < |s|
    ensures Wrote(s, t[o := v], at, o + 1, w + [v])
  {
    var u := t[o := v];
    assert u[..o + 1] == t[..o] + [v];
    assert s[..at] + (w + [v]) == (s[..at] + w) + [v];
    assert u[o + 1..] == t[o..][1..] && s[o + 1..] == s[o..][1..];
  }

  /** One checked write: `if (o >= outcap) return -1; out[o++] = v`. */
  method Put(out: array<Byte>, outcap: nat, o: nat, v: Byte, ghost s: seq<Byte>, ghost at: nat, ghost w: seq<Byte>)
    returns (fits: bool, o': nat)
    requires o <= outcap <= out.Length && Wrote(s, out[..], at, o, w)
    modifies out
    ensures fits == (o < outcap) && o' == (if fits then o + 1 else o)
    ensures Wrote(s, out[..], at, o', if fits then w + [v] else w)
  {
    fits, o' := o < outcap, o;
    if fits {
      WroteMore(s, out[..], at, o, w, v);
      out[o] := v;
      o' := o + 1;
    }
  }

  /** The body of the loop: one group of four characters, its bytes written as far as they fit. */
  method DecodeGroup(p: char, q: char, r: char, s: char, out: array<Byte>, outcap: nat, at: nat)
    returns (ok: bool, o: nat)
    requires at <= outcap <= out.Length
    modifies out
    ensures at <= o <= outcap && Wrote(old(out[..]), out[..], at, o, out[at..o])
    ensures ok <==> Group(p, q, r, s).Some? && at + |Group(p, q, r, s).value| <= outcap
    ensures ok ==> out[at..o] == Group(p, q, r, s).value
  {
    o := at;
    ghost var was, w: seq<Byte> := out[..], [];
    WroteNothing(was, at);
    assert out[at..at] == [];
    var a, b := ValueOf(p), ValueOf(q);
    var c := if r == '=' then 0 else ValueOf(r);
    var d := if s == '=' then 0 else ValueOf(s);
    if a < 0 || b < 0 || c < 0 || d < 0 { return false, o; }
    var x, y, z := Joined(a, b, c, d);
    ok, o := Put(out, outcap, o, x, was, at, w);
    w := if ok then w + [x] else w;
    if ok && r != '=' {
      ok, o := Put(out, outcap, o, y, was, at, w);
      w := if ok then w + [y] else w;
    }
    if ok && s != '=' {
      ok, o := Put(out, outcap, o, z, was, at, w);
      w := if ok then w + [z] else w;
    }
    assert out[at..o] == w by {
      assert out[..o][at..] == w;
    }
  }

  /** The three bytes, with the high bits that the cast to a byte drops. */
  method Joined(a: int, b: int, c: int, d: int) returns (x: Byte, y: Byte, z: Byte)
    requires 0 <= a < 64 && 0 <= b < 64 && 0 <= c < 64 && 0 <= d < 64
    ensures x == First(a, b) && y == Second(b, c) && z == Third(c, d)
  {
    ByteRange(a, b, c, d);
    LowByte(b, c);
    LowByte(c, d);
    x := a * 4 + b / 16;
    y := (b * 16 + c / 4) % 256;
    z := (c * 64 + d) % 256;
  }

  /** What was written before is still there, and so is what lies behind. */
  lemma StillThere(s: seq<Byte>, t: seq<Byte>, at: nat, o: nat, w: seq<Byte>)
    requires Wrote(s, t, at, o, w)
    ensures t[..o] == s[..at] + w && t[o..] == s[at..][o - at..]
    ensures forall k :: o <= k < |s| ==> t[k] == s[k]
  {
    assert t[o..] == s[o..] == s[at..][o - at..];
    forall k | o <= k < |s| ensures t[k] == s[k] {
      assert t[k] == t[o..][k - o] && s[k] == s[o..][k - o];
    }
  }

  /** b64decode: the number of bytes or -1; nothing at or beyond `outcap` is written. */
  method Decode(text: string, out: array<Byte>, outcap: nat) returns (n: int)
    requires outcap <= out.Length
    modifies out
    ensures n == match Decoded(text)
                 case None => -1
                 case Some(bytes) => if |bytes| <= outcap then |bytes| else -1
    ensures n >= 0 ==> out[..n] == Decoded(text).value && out[n..] == old(out[n..])
    ensures out[outcap..] == old(out[outcap..])
  {
    LengthOfDecodable(text);
    if |text| % 4 != 0 { return -1; }
    var o: nat, i := 0, 0;
    ghost var left := |text| / 4;
    ProgressStart(text);
    while i < |text|
      invariant |text| == i + 4 * left && o <= outcap
      invariant Progress(text, i, out[..o])
      invariant out[o..] == old(out[o..])
    {
      ghost var written := out[..o];
      ProgressStep(text, i, written);
      ghost var before := out[..];
      var ok, o' := DecodeGroup(text[i], text[i + 1], text[i + 2], text[i + 3], out, outcap, o);
      StillThere(before, out[..], o, o', out[o..o']);
      if !ok { return -1; }
      i, o, left := i + 4, o', left - 1;
    }
    assert text[i..] == [];
    assert Decoded(text).value == out[..o];
    return o;
  }

  lemma {:induction false} LengthOfDecodable(text: string)
    ensures Decoded(text).Some? ==> |text| % 4 == 0
  {
    if |text| >= 4 {
      LengthOfDecodable(text[4..]);
      FourOn(|text|);
    }
  }

  // ---- which texts are decoded ----

  /** A character that the decoder takes at position `k`. */
  predicate Taken(text: string, k: nat)
    requires k < |text|
  {
    ValueOf(text[k]) >= 0 || (k % 4 >= 2 && text[k] == '=')
  }

  /** Whole groups of four, and '=' only in the last two places of a group, any group. */
  lemma {:induction false} DecodedWhen(text: string)
    ensures Decoded(text).Some? <==> |text| % 4 == 0 && forall k :: 0 <= k < |text| ==> Taken(text, k)
  {
    LengthOfDecodable(text);
    if |text| >= 4 {
      var rest := text[4..];
      DecodedWhen(rest);
      FirstTaken(text);
      forall k | 4 <= k < |text| ensures Taken(text, k) == Taken(rest, k - 4) {
        FourOn(k);
      }
      if forall k :: 0 <= k < |text| ==> Taken(text, k) {
        forall k | 0 <= k < |rest| ensures Taken(rest, k) {
          assert Taken(text, k + 4);
        }
      }
    }
  }

  lemma FourOn(k: int)
    ensures k % 4 == (k - 4) % 4
  {}

  lemma FirstTaken(text: string)
    requires |text| >= 4
    ensures Group(text[0], text[1], text[2], text[3]).Some?
       <==> Taken(text, 0) && Taken(text, 1) && Taken(text, 2) && Taken(text, 3)
  {}

  // ---- the standard encoding ----

  /** Section 4 of RFC 4648: three bytes to four characters, the last group padded with '='. */
  function Encode(bytes: seq<Byte>): (text: string) {
    if |bytes| == 0 then ""
    else if |bytes| == 1 then
      SixBits(bytes[0], 0, 0);
      [CharOf(Six0(bytes[0])), CharOf(Six1(bytes[0], 0)), '=', '=']
    else if |bytes| == 2 then
      SixBits(bytes[0], bytes[1], 0);
      [CharOf(Six0(bytes[0])), CharOf(Six1(bytes[0], bytes[1])), CharOf(Six2(bytes[1], 0)), '=']
    else
      SixBits(bytes[0], bytes[1], bytes[2]);
      [CharOf(Six0(bytes[0])), CharOf(Six1(bytes[0], bytes[1])),
       CharOf(Six2(bytes[1], bytes[2])), CharOf(Six3(bytes[2]))]
      + Encode(bytes[3..])
  }

  /** Decoding undoes encoding. */
  lemma {:induction false} DecodeEncoded(bytes: seq<Byte>)
    ensures Decoded(Encode(bytes)) == Some(bytes)
  {
    if |bytes| == 1 {
      var x := bytes[0];
      SixBits(x, 0, 0);
      FromOneByte(x, Six0(x), Six1(x, 0));
      LastOne(x, Six0(x), Six1(x, 0));
      assert bytes == [x];
    } else if |bytes| == 2 {
      var x, y := bytes[0], bytes[1];
      SixBits(x, y, 0);
      FromTwoBytes(x, y, Six0(x), Six1(x, y), Six2(y, 0));
      LastTwo(x, y, Six0(x), Six1(x, y), Six2(y, 0));
      assert bytes == [x, y];
    } else if |bytes| >= 3 {
      var four := FrontGroup(bytes);
      DecodeEncoded(bytes[3..]);
      GroupThenRest(four, bytes[..3], Encode(bytes[3..]), bytes[3..]);
      assert bytes == bytes[..3] + bytes[3..];
    }
  }

  /** The characters of the first three bytes make up these bytes. */
  lemma FrontGroup(bytes: seq<Byte>) returns (four: string)
    requires |bytes| >= 3
    ensures Encode(bytes) == four + Encode(bytes[3..])
    ensures |four| == 4 && Group(four[0], four[1], four[2], four[3]) == Some(bytes[..3])
  {
    var x, y, z := bytes[0], bytes[1], bytes[2];
    var a, b, c, d := Six0(x), Six1(x, y), Six2(y, z), Six3(z);
    SixBits(x, y, z);
    FromBytes(x, y, z, a, b, c, d);
    FullGroup(a, b, c, d, x, y, z);
    four := [CharOf(a), CharOf(b), CharOf(c), CharOf(d)];
    assert bytes[..3] == [x, y, z];
  }

  lemma GroupThenRest(four: string, g: seq<Byte>, rest: string, back: seq<Byte>)
    requires |four| == 4 && Group(four[0], four[1], four[2], four[3]) == Some(g) && Decoded(rest) == Some(back)
    ensures Decoded(four + rest) == Some(g + back)
  {
    assert (four + rest)[4..] == rest;
  }

  lemma LastOne(x: Byte, a: int, b: int)
    requires 0 <= a < 64 && 0 <= b < 64 && First(a, b) == x
    ensures Decoded([CharOf(a), CharOf(b), '=', '=']) == Some([x])
  {
    ShortGroups(a, b, 0, x, 0);
    OneGroup(CharOf(a), CharOf(b), '=', '=');
  }

  lemma LastTwo(x: Byte, y: Byte, a: int, b: int, c: int)
    requires 0 <= a < 64 && 0 <= b < 64 && 0 <= c < 64 && First(a, b) == x && Second(b, c) == y
    ensures Decoded([CharOf(a), CharOf(b), CharOf(c), '=']) == Some([x, y])
  {
    ShortGroups(a, b, c, x, y);
    OneGroup(CharOf(a), CharOf(b), CharOf(c), '=');
  }

  /** Values written in the alphabet decode to the bytes they make up. */
  lemma FullGroup(a: int, b: int, c: int, d: int, x: Byte, y: Byte, z: Byte)
    requires 0 <= a < 64 && 0 <= b < 64 && 0 <= c < 64 && 0 <= d < 64
    requires First(a, b) == x && Second(b, c) == y && Third(c, d) == z
    ensures Group(CharOf(a), CharOf(b), CharOf(c), CharOf(d)) == Some([x, y, z])
  {
    AlphabetInverse('=', a);
    AlphabetInverse('=', b);
    AlphabetInverse('=', c);
    AlphabetInverse('=', d);
  }

  lemma ShortGroups(a: int, b: int, c: int, x: Byte, y: Byte)
    requires 0 <= a < 64 && 0 <= b < 64 && 0 <= c < 64 && First(a, b) == x
    ensures Group(CharOf(a), CharOf(b), '=', '=') == Some([x])
    ensures Second(b, c) == y ==> Group(CharOf(a), CharOf(b), CharOf(c), '=') == Some([x, y])
  {
    AlphabetInverse('=', a);
    AlphabetInverse('=', b);
    AlphabetInverse('=', c);
  }

  lemma OneGroup(p: char, q: char, r: char, s: char)
    ensures Decoded([p, q, r, s]) == Group(p, q, r, s)
  {
    assert [p, q, r, s][4..] == [];
    if Group(p, q, r, s).Some? {
      assert Group(p, q, r, s).value + [] == Group(p, q, r, s).value;
    }
  }

  /** A group of the standard encoding: '=' only in the last group, and there in the last
      place or the last two, with the bits that fall away zero. */
  predicate CanonicalGroup(p: char, q: char, r: char, s: char, last: bool) {
    if r == '=' then last && s == '=' && ValueOf(q) % 16 == 0
    else if s == '=' then last && ValueOf(r) % 4 == 0
    else true
  }

  predicate Canonical(text: string) {
    |text| >= 4 ==>
      CanonicalGroup(text[0], text[1], text[2], text[3], |text| == 4) && Canonical(text[4..])
  }

  /** A group is what its bytes encode to just when it is canonical. */
  lemma GroupEncodes(p: char, q: char, r: char, s: char)
    requires Group(p, q, r, s).Some?
    ensures Encode(Group(p, q, r, s).value) == [p, q, r, s] <==> CanonicalGroup(p, q, r, s, true)
  {
    var a, b, c, d := ValueOf(p), ValueOf(q), Padded(r), Padded(s);
    ByteRange(a, b, c, d);
    FromSix(a, b, c, d);
    AlphabetInverse(p, a);
    AlphabetInverse(q, b);
    AlphabetInverse(r, c);
    AlphabetInverse(s, d);
    AlphabetInverse(q, b / 16 * 16);
    AlphabetInverse(r, c / 4 * 4);
    if r == '=' && s != '=' {
      EncodeBegins([First(a, b), Third(c, d)]);
    }
  }

  /** Three bytes or more begin with four characters of the alphabet, two with three. */
  lemma EncodeBegins(bytes: seq<Byte>)
    requires bytes != []
    ensures |bytes| < 3 ==> |Encode(bytes)| == 4
    ensures |bytes| >= 2 ==> |Encode(bytes)| >= 4 && Encode(bytes)[2] != '='
    ensures |bytes| >= 3 ==> Encode(bytes)[3] != '='
  {
    if |bytes| == 2 {
      SixBits(bytes[0], bytes[1], 0);
      AlphabetInverse('=', Six2(bytes[1], 0));
    } else if |bytes| >= 3 {
      SixBits(bytes[0], bytes[1], bytes[2]);
      AlphabetInverse('=', Six2(bytes[1], bytes[2]));
      AlphabetInverse('=', Six3(bytes[2]));
    }
  }

  lemma FullGroupFirst(g: seq<Byte>, back: seq<Byte>)
    requires |g| == 3
    ensures Encode(g + back) == Encode(g) + Encode(back) && |Encode(g)| == 4
  {
    assert (g + back)[3..] == back && g[3..] == [];
    assert Encode(g) == Encode(g)[..4] + [];
  }

  lemma SameTail(front: string, x: string, y: string)
    ensures front + x == front + y <==> x == y
  {
    if front + x == front + y {
      assert x == (front + x)[|front|..] && y == (front + y)[|front|..];
    }
  }

  /** The decoder accepts more than the standard encoding, and exactly the canonical texts are
      the ones that encoding its result gives back. */
  lemma {:induction false} EncodeDecoded(text: string)
    requires Decoded(text).Some?
    ensures Encode(Decoded(text).value) == text <==> Canonical(text)
  {
    if |text| >= 4 {
      var g, back := Group(text[0], text[1], text[2], text[3]).value, Decoded(text[4..]).value;
      var four := [text[0], text[1], text[2], text[3]];
      assert text == four + text[4..];
      GroupEncodes(text[0], text[1], text[2], text[3]);
      if |g| == 3 {
        EncodeDecoded(text[4..]);
        FullGroupFirst(g, back);
        SameTail(four, Encode(back), text[4..]);
      } else if |text| == 4 {
        assert g + back == g;
      } else {
        LengthOfDecodable(text);
        EncodeBegins(g + back);
      }
    }
  }

  /** '=' in the middle is accepted, though no encoding has it there. */
  lemma MisplacedPadding()
    ensures Decoded("QQ==QQ==") == Some([65, 65]) && !Canonical("QQ==QQ==")
    ensures Encode([65, 65]) == "QUE="
  {
    assert ValueOf('Q') == 16;
    var t := "QQ==QQ==";
    assert t[..4] + t[4..] == t && t[4..] == ['Q', 'Q', '=', '='];
    OneGroup('Q', 'Q', '=', '=');
    assert [65] + [65] == [65, 65];
  }
}
