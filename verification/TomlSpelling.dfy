// The ways to spell a text in a basic string, and that all of them denote the text.

module TomlSpelling {
  import opened Wrappers
  import opened Utf8
  import opened TomlString
  import Radix

  datatype Spelling = Raw | Short | Hex4 | Hex8

  // ---- hexadecimal ----

  function HexChar(v: int): (c: char)
    requires 0 <= v < 16
    ensures HexDigit(c) == v
  {
    if v < 10 then (v + '0' as int) as char else (v - 10 + 'A' as int) as char
  }

  /** The last `n` digits, and what is above them. */
  function HexText(v: nat, n: nat): (s: string)
    ensures |s| == n
  {
    if n == 0 then "" else HexText(v / 16, n - 1) + [HexChar(v % 16)]
  }

  function Above(v: nat, n: nat): nat {
    if n == 0 then v else Above(v / 16, n - 1)
  }

  lemma {:induction false} NothingAbove(v: nat, n: nat)
    requires v < Radix.Pow(16, n)
    ensures Above(v, n) == 0
  {
    if n > 0 {
      NothingAbove(v / 16, n - 1);
    }
  }

  lemma {:induction false} HexMore(acc: nat, s: string, t: string, n: nat)
    requires |s| == n && t != ""
    ensures HexFrom(acc, s + t, n + 1) ==
            match HexFrom(acc, s, n)
            case None => None
            case Some(v) => if HexDigit(t[0]) < 0 then None else Some(v * 16 + HexDigit(t[0]))
    decreases n
  {
    if n == 0 {
      assert s + t == t;
    } else {
      assert (s + t)[1..] == s[1..] + t;
      if HexDigit(s[0]) >= 0 {
        HexMore(acc * 16 + HexDigit(s[0]), s[1..], t, n - 1);
      }
    }
  }

  lemma {:induction false} HexPrefix(acc: nat, s: string, t: string)
    ensures HexFrom(acc, s + t, |s|) == HexFrom(acc, s, |s|)
    decreases |s|
  {
    if s != "" {
      assert (s + t)[1..] == s[1..] + t;
      if HexDigit(s[0]) >= 0 {
        HexPrefix(acc * 16 + HexDigit(s[0]), s[1..], t);
      }
    }
  }

  /** Reading the digits gives the number. */
  lemma {:induction false} HexReads(v: nat, n: nat)
    ensures HexFrom(Above(v, n), HexText(v, n), n) == Some(v)
  {
    if n > 0 {
      HexReads(v / 16, n - 1);
      HexMore(Above(v, n), HexText(v / 16, n - 1), [HexChar(v % 16)], n - 1);
    }
  }

  lemma {:induction false} HexBound(acc: nat, s: string, n: nat)
    requires HexFrom(acc, s, n).Some?
    ensures HexFrom(acc, s, n).value < (acc + 1) * Radix.Pow(16, n)
    decreases n
  {
    if n > 0 {
      var next, w := acc * 16 + HexDigit(s[0]), Radix.Pow(16, n - 1);
      HexBound(next, s[1..], n - 1);
      Radix.PowPositive(16, n - 1);
      HexBoundStep(acc, next, w);
    }
  }

  lemma HexBoundStep(acc: nat, next: nat, w: int)
    requires next <= acc * 16 + 15 && w > 0
    ensures (next + 1) * w <= (acc + 1) * (16 * w)
  {
    var d := (acc + 1) * 16 - (next + 1);
    assert d * w >= 0;
    assert (acc + 1) * (16 * w) == ((acc + 1) * 16) * w == (next + 1) * w + d * w;
  }

  // ---- spelling a code ----

  /** The letter of a short escape. */
  function Letter(code: int): Option<char> {
    if code == 8 then Some('b')
    else if code == 9 then Some('t')
    else if code == 10 then Some('n')
    else if code == 12 then Some('f')
    else if code == 13 then Some('r')
    else if code == 34 then Some('"')
    else if code == 92 then Some('\\')
    else None
  }

  /** Whether a code may be spelled in a way: raw unless it is the backslash, the quote or a
      control character other than tab, short if there is a letter for it, with four digits if they are
      enough. */
  predicate Spellable(code: int, how: Spelling) {
    Encodable(code) &&
    match how
    case Raw => code != 92 && code != 34 && (code <= 0x7F ==> !Forbidden(code as char, false))
    case Short => Letter(code).Some?
    case Hex4 => code <= 0xFFFF
    case Hex8 => true
  }

  function Spell(code: int, how: Spelling): string
    requires Spellable(code, how)
  {
    match how
    case Raw => Encode(code).value
    case Short => ['\\', Letter(code).value]
    case Hex4 => ['\\', 'u'] + HexText(code, 4)
    case Hex8 => ['\\', 'U'] + HexText(code, 8)
  }

  lemma ShortDenotes(code: int, rest: string)
    requires Spellable(code, Short)
    ensures NormBasic(Spell(code, Short) + rest, false) == Prepend(Encode(code).value, NormBasic(rest, false))
  {
    var s := Spell(code, Short) + rest;
    assert s[1..] == [Letter(code).value] + rest && s[2..] == rest;
    assert Encode(code).value == [code as char];
    assert Unit(s, false) == Some(Piece([code as char], 2));
  }

  lemma HexDenotes(code: int, n: nat, letter: char, rest: string)
    requires Encodable(code) && code < Radix.Pow(16, n)
    requires (letter == 'u' && n == 4) || (letter == 'U' && n == 8)
    ensures NormBasic(['\\', letter] + HexText(code, n) + rest, false) == Prepend(Encode(code).value, NormBasic(rest, false))
  {
    var s := ['\\', letter] + HexText(code, n) + rest;
    assert s[1..][1..] == HexText(code, n) + rest && s[2 + n..] == rest;
    NothingAbove(code, n);
    HexReads(code, n);
    HexPrefix(0, HexText(code, n), rest);
    assert CodePiece(HexText(code, n) + rest, n) == Some(Piece(Encode(code).value, 2 + n));
    assert Unit(s, false) == CodePiece(s[1..][1..], n);
  }

  lemma RawDenotes(code: int, rest: string)
    requires Spellable(code, Raw)
    ensures NormBasic(Spell(code, Raw) + rest, false) == Prepend(Encode(code).value, NormBasic(rest, false))
  {
    RawPlain(code);
    PlainCopied(Encode(code).value, rest, false);
  }

  lemma {:induction false} TailHigh(code: nat, k: nat)
    ensures forall i :: 0 <= i < k ==> Tail(code, k)[i] as int >= 0x80
  {
    if k > 0 {
      TailHigh(code / 64, k - 1);
    }
  }

  /** The bytes of a code that may stand raw are plain. */
  lemma RawPlain(code: int)
    requires Spellable(code, Raw)
    ensures Plain(Encode(code).value, false)
  {
    var k := Continuations(code);
    LeadFits(code);
    TailHigh(code, k);
  }

  // ---- spelling a text ----

  type Item = (int, Spelling)

  ghost predicate AllSpellable(items: seq<Item>) {
    forall k :: 0 <= k < |items| ==> Spellable(items[k].0, items[k].1)
  }

  function Codes(items: seq<Item>): (codes: seq<int>)
    requires AllSpellable(items)
    ensures |codes| == |items| && forall k :: 0 <= k < |codes| ==> codes[k] == items[k].0 && Encodable(codes[k])
  {
    seq(|items|, k requires 0 <= k < |items| => items[k].0)
  }

  function SpellAll(items: seq<Item>): string
    requires AllSpellable(items)
  {
    if items == [] then "" else Spell(items[0].0, items[0].1) + SpellAll(items[1..])
  }

  lemma SpellDenotes(code: int, how: Spelling, rest: string)
    requires Spellable(code, how)
    ensures NormBasic(Spell(code, how) + rest, false) == Prepend(Encode(code).value, NormBasic(rest, false))
  {
    assert Radix.Pow(16, 4) == 0x10000 && Radix.Pow(16, 8) == 0x10000 * Radix.Pow(16, 4);
    match how
    case Raw => RawDenotes(code, rest);
    case Short => ShortDenotes(code, rest);
    case Hex4 => HexDenotes(code, 4, 'u', rest);
    case Hex8 => HexDenotes(code, 8, 'U', rest);
  }

  /** Whatever way each code of a list is spelled, the string denotes the UTF-8 of the list, and
      decoding it recovers the list. */
  lemma {:induction false} SpellingDenotes(items: seq<Item>)
    requires AllSpellable(items)
    ensures NormBasic(SpellAll(items), false) == Some(EncodeAll(Codes(items)))
    ensures DecodeAll(EncodeAll(Codes(items))) == Some(Codes(items))
  {
    DecodeAllEncoded(Codes(items));
    if items != [] {
      SpellingDenotes(items[1..]);
      assert Codes(items)[1..] == Codes(items[1..]);
      SpellDenotes(items[0].0, items[0].1, SpellAll(items[1..]));
    }
  }

  // ---- as a value in quotes ----

  ghost predicate NoNul(s: string) {
    forall k :: 0 <= k < |s| ==> s[k] as int != 0
  }

  lemma {:induction false} CStringWhole(s: string)
    requires NoNul(s)
    ensures CString(s) == s
  {
    if s != "" {
      CStringWhole(s[1..]);
      assert s == [s[0]] + s[1..];
    }
  }

  lemma {:induction false} EncodedNoNul(codes: seq<int>)
    requires forall k :: 0 <= k < |codes| ==> Encodable(codes[k]) && codes[k] != 0
    ensures NoNul(EncodeAll(codes))
  {
    if codes != [] {
      EncodedNoNul(codes[1..]);
      var c := codes[0];
      LeadFits(c);
      TailHigh(c, Continuations(c));
    }
  }

  lemma SpellBegins(code: int, how: Spelling)
    requires Spellable(code, how)
    ensures Spell(code, how) != "" && Spell(code, how)[0] != '"'
  {
    LeadFits(code);
  }

  function Quoted(body: string): string {
    ['"'] + body + ['"']
  }

  lemma QuotedParts(body: string)
    ensures |Quoted(body)| == |body| + 2 && Quoted(body)[0] == '"' && Quoted(body)[|body| + 1] == '"'
    ensures Quoted(body)[1..|body| + 1] == body
    ensures body != "" ==> Quoted(body)[1] == body[0]
  {}

  /** toml_rtos of a body in quotes that does not itself begin with one. */
  lemma QuotedValue(body: string, text: string)
    requires body == "" || body[0] != '"'
    requires NormBasic(body, false) == Some(text) && NoNul(text)
    ensures Rtos(Quoted(body)) == Some(text)
  {
    QuotedParts(body);
    CStringWhole(text);
    var src := Quoted(body);
    assert !Triple(src, '"');
    assert Norm(body, '"', false) == Some(text);
    assert |src| - 1 == |body| + 1;
  }

  /** The value of a quoted text, for codes other than zero, is the text. */
  lemma QuotedDenotes(items: seq<Item>)
    requires AllSpellable(items) && forall k :: 0 <= k < |items| ==> items[k].0 != 0
    ensures Rtos(Quoted(SpellAll(items))) == Some(EncodeAll(Codes(items)))
  {
    SpellingDenotes(items);
    EncodedNoNul(Codes(items));
    if items != [] {
      SpellBegins(items[0].0, items[0].1);
    }
    QuotedValue(SpellAll(items), EncodeAll(Codes(items)));
  }

  // ---- when a text denotes itself ----

  lemma UnitShrinks(src: string, multi: bool)
    requires src != "" && src[0] == '\\' && Unit(src, multi).Some?
    ensures |Unit(src, multi).value.text| < Unit(src, multi).value.taken
  {
    var s := src[1..];
    UnitSize(src, multi);
    if s[0] == 'u' && !(multi && LineEnds(s)) {
      HexBound(0, s[1..], 4);
      assert Radix.Pow(16, 4) == 0x10000;
    }
  }

  /** Unescaping never lengthens, and shortens what has a backslash. */
  lemma {:induction false} NormLength(src: string, multi: bool)
    requires NormBasic(src, multi).Some?
    ensures |NormBasic(src, multi).value| <= |src|
    ensures |NormBasic(src, multi).value| == |src| ==> Plain(src, multi)
    decreases |src|
  {
    if src != "" {
      var u := Unit(src, multi).value;
      UnitSize(src, multi);
      NormLength(src[u.taken..], multi);
      if src[0] == '\\' {
        UnitShrinks(src, multi);
      } else {
        PlainFrom(src, multi);
      }
    }
  }

  lemma PlainFrom(src: string, multi: bool)
    requires src != "" && src[0] != '\\' && !Forbidden(src[0], multi)
    ensures Plain(src[1..], multi) ==> Plain(src, multi)
  {
    assert src == [src[0]] + src[1..];
  }

  /** A text denotes itself exactly when it is plain. */
  lemma DenotesItselfIff(src: string, multi: bool)
    ensures NormBasic(src, multi) == Some(src) <==> Plain(src, multi)
  {
    if NormBasic(src, multi).Some? {
      NormLength(src, multi);
    }
    if Plain(src, multi) {
      PlainCopied(src, "", multi);
      assert src + "" == src;
    }
  }
}
