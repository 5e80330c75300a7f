// Unescaping of TOML strings: basic and literal, on one line or several, and the raw value of
// a key turned into a string. Texts are bytes, that is characters below 256.

module TomlString {
  import opened Wrappers
  import opened Utf8

  /** The characters that must not stand in a string as they are; tab may. */
  predicate Control(c: char) {
    c as int <= 0x08 || 0x0a <= c as int <= 0x1f || c as int == 0x7f
  }

  /** A control character that is not a line end in a string of several lines. */
  predicate Forbidden(c: char, multi: bool) {
    Control(c) && !(multi && (c == '\r' || c == '\n'))
  }

  // ---- literal strings ----

  /** norm_lit_str: a copy, if no character is forbidden. */
  function NormLit(src: string, multi: bool): Option<string> {
    if exists k :: 0 <= k < |src| && Forbidden(src[k], multi) then None else Some(src)
  }

  // ---- basic strings, unit by unit ----

  /** strspn */
  function Span(s: string, of: string): (n: nat)
    ensures n <= |s|
  {
    if s != "" && s[0] in of then 1 + Span(s[1..], of) else 0
  }

  /** Only blanks up to the end of the line. */
  predicate LineEnds(s: string) {
    Span(s, " \t\r") < |s| && s[Span(s, " \t\r")] == '\n'
  }

  /** Upper-case hexadecimal digits only. */
  function HexDigit(c: char): (v: int)
    ensures -1 <= v < 16
  {
    if '0' <= c <= '9' then c as int - '0' as int
    else if 'A' <= c <= 'F' then c as int - 'A' as int + 10
    else -1
  }

  /** `n` more digits after those that gave `acc`. */
  function HexFrom(acc: nat, s: string, n: nat): Option<nat>
    decreases n
  {
    if n == 0 then Some(acc)
    else if s == "" || HexDigit(s[0]) < 0 then None
    else HexFrom(acc * 16 + HexDigit(s[0]), s[1..], n - 1)
  }

  /** The character that a letter after the backslash stands for. */
  function Escaped(c: char): Option<char> {
    if c == 'b' then Some(8 as char)
    else if c == 't' then Some('\t')
    else if c == 'n' then Some('\n')
    else if c == 'f' then Some(12 as char)
    else if c == 'r' then Some('\r')
    else if c == '"' then Some('"')
    else if c == '\\' then Some('\\')
    else None
  }

  /** What a unit produces, and how much of the source it takes. */
  datatype Piece = Piece(text: string, taken: nat)

  function CodePiece(s: string, n: nat): (r: Option<Piece>)
    ensures r.Some? ==> r.value.taken == 2 + n
  {
    match HexFrom(0, s, n)
    case None => None
    case Some(code) =>
      match Encode(code)
      case None => None
      case Some(bytes) => Some(Piece(bytes, 2 + n))
  }

  /** What follows a backslash. */
  function EscapePiece(s: string, multi: bool): (r: Option<Piece>)
  {
    if s == "" then None
    else if multi && LineEnds(s) then Some(Piece("", 1 + Span(s, " \t\r\n")))
    else if s[0] == 'u' then CodePiece(s[1..], 4)
    else if s[0] == 'U' then CodePiece(s[1..], 8)
    else
      match Escaped(s[0])
      case None => None
      case Some(c) => Some(Piece([c], 2))
  }

  /** The first unit of a basic string. */
  function Unit(src: string, multi: bool): Option<Piece>
    requires src != ""
  {
    if src[0] == '\\' then EscapePiece(src[1..], multi)
    else if Forbidden(src[0], multi) then None
    else Some(Piece([src[0]], 1))
  }

  lemma {:induction false} HexTakes(acc: nat, s: string, n: nat)
    requires HexFrom(acc, s, n).Some?
    ensures n <= |s|
    decreases n
  {
    if n > 0 {
      HexTakes(acc * 16 + HexDigit(s[0]), s[1..], n - 1);
    }
  }

  /** A unit takes something, not more than there is, and produces at most six bytes. */
  lemma UnitSize(src: string, multi: bool)
    requires src != "" && Unit(src, multi).Some?
    ensures 1 <= Unit(src, multi).value.taken <= |src| && |Unit(src, multi).value.text| <= 6
  {
    if src[0] == '\\' {
      var s := src[1..];
      if multi && LineEnds(s) {
      } else if s[0] == 'u' {
        HexTakes(0, s[1..], 4);
      } else if s[0] == 'U' {
        HexTakes(0, s[1..], 8);
      }
    }
  }

  /** norm_basic_str: the text that the source denotes. */
  function NormBasic(src: string, multi: bool): Option<string>
    decreases |src|
  {
    if src == "" then Some("")
    else
      match Unit(src, multi)
      case None => None
      case Some(piece) =>
        UnitSize(src, multi);
        Prepend(piece.text, NormBasic(src[piece.taken..], multi))
  }

  function Prepend(s: string, r: Option<string>): Option<string> {
    match r
    case None => None
    case Some(t) => Some(s + t)
  }

  lemma PrependTwice(s: string, t: string, r: Option<string>)
    ensures Prepend(s, Prepend(t, r)) == Prepend(s + t, r) && Prepend("", r) == r
  {
    if r.Some? {
      assert s + (t + r.value) == s + t + r.value;
      assert "" + r.value == r.value;
    }
  }

  // ---- the loops, on a growing buffer ----

  method CountSpan(s: string, of: string) returns (n: nat)
    ensures n == Span(s, of)
  {
    n := 0;
    while n < |s| && s[n] in of
      invariant n <= |s| && Span(s, of) == n + Span(s[n..], of)
    {
      assert s[n..][1..] == s[n + 1..];
      n := n + 1;
    }
  }

  /** The loop over the hexadecimal digits. */
  method ReadHex(s: string, n: nat) returns (r: Option<nat>)
    ensures r == HexFrom(0, s, n)
  {
    var ucs: nat := 0;
    assert s[0..] == s;
    for i := 0 to n
      invariant i <= |s| && HexFrom(0, s, n) == HexFrom(ucs, s[i..], n - i)
    {
      if i == |s| { return None; }
      var v := HexDigit(s[i]);
      if v < 0 { return None; }
      assert s[i..][1..] == s[i + 1..];
      ucs := ucs * 16 + v;
    }
    return Some(ucs);
  }

  /** A code written as `n` digits, put into the buffer as UTF-8. */
  method PutCode(s: string, n: nat, dst: array<char>, off: nat) returns (ok: bool, off': nat)
    requires off + 6 <= dst.Length
    modifies dst
    ensures ok <==> CodePiece(s, n).Some?
    ensures ok ==> off' == off + |CodePiece(s, n).value.text| <= off + 6
                   && dst[..off'] == old(dst[..off]) + CodePiece(s, n).value.text
  {
    var ucs := ReadHex(s, n);
    if ucs.None? { return false, off; }
    var w := UcsToUtf8(ucs.value, dst, off);
    if w == -1 { return false, off; }
    assert dst[..off + w] == dst[..off] + dst[off..off + w];
    return true, off + w;
  }

  /** One turn of the loop: a unit read at `sp` and written at `off`. */
  method PutUnit(src: string, multi: bool, dst: array<char>, off: nat) returns (ok: bool, taken: nat, off': nat)
    requires src != "" && off + 6 <= dst.Length
    modifies dst
    ensures ok <==> Unit(src, multi).Some?
    ensures ok ==> taken == Unit(src, multi).value.taken && off' <= off + 6
                   && off' == off + |Unit(src, multi).value.text|
                   && dst[..off'] == old(dst[..off]) + Unit(src, multi).value.text
  {
    var ch := src[0];
    ok, taken, off' := false, 1, off;
    if ch != '\\' {
      if Forbidden(ch, multi) { return; }
      dst[off] := ch;
      return true, 1, off + 1;
    }
    var s := src[1..];
    if s == "" { return; }
    if multi {
      var k := CountSpan(s, " \t\r");
      if k < |s| && s[k] == '\n' {
        var skip := CountSpan(s, " \t\r\n");
        return true, 1 + skip, off;
      }
    }
    if s[0] == 'u' || s[0] == 'U' {
      var nhex := if s[0] == 'u' then 4 else 8;
      ok, off' := PutCode(s[1..], nhex, dst, off);
      return ok, 2 + nhex, off';
    }
    var c := Escaped(s[0]);
    if c.None? { return; }
    dst[off] := c.value;
    return true, 2, off + 1;
  }

  /** expand: a longer copy. */
  method Expand(p: array<char>, newsz: nat) returns (s: array<char>)
    requires p.Length <= newsz
    ensures fresh(s) && s.Length == newsz && s[..p.Length] == p[..]
  {
    s := new char[newsz];
    for i := 0 to p.Length
      invariant s[..i] == p[..i]
    {
      s[i] := p[i];
    }
  }

  /** The text so far and the text to come make up the whole. */
  ghost predicate Midway(src: string, multi: bool, sp: nat, written: string) {
    sp <= |src| && NormBasic(src, multi) == Prepend(written, NormBasic(src[sp..], multi))
  }

  lemma MidwayStart(src: string, multi: bool)
    ensures Midway(src, multi, 0, "")
  {
    assert src[0..] == src;
    PrependTwice("", "", NormBasic(src, multi));
  }

  lemma MidwayStops(src: string, multi: bool, sp: nat, written: string)
    requires sp < |src| && Midway(src, multi, sp, written) && Unit(src[sp..], multi).None?
    ensures NormBasic(src, multi).None?
  {}

  lemma MidwayStep(src: string, multi: bool, sp: nat, written: string, text: string, taken: nat)
    requires sp < |src| && Midway(src, multi, sp, written) && Unit(src[sp..], multi) == Some(Piece(text, taken))
    ensures 1 <= taken && Midway(src, multi, sp + taken, written + text)
  {
    var here := src[sp..];
    UnitSize(here, multi);
    assert here[taken..] == src[sp + taken..];
    assert NormBasic(here, multi) == Prepend(text, NormBasic(here[taken..], multi));
    PrependTwice(written, text, NormBasic(src[sp + taken..], multi));
  }

  lemma MidwayEnd(src: string, multi: bool, written: string)
    requires Midway(src, multi, |src|, written)
    ensures NormBasic(src, multi) == Some(written)
  {
    assert src[|src|..] == "";
    assert written + "" == written;
  }

  /** The slack: room for one more turn of the loop. */
  method MakeRoom(p: array<char>, off: nat) returns (dst: array<char>)
    requires off <= p.Length
    ensures (dst == p || fresh(dst)) && off < dst.Length - 10 && dst[..off] == p[..off]
    ensures dst.Length == if off >= p.Length - 10 then p.Length + 50 else p.Length
  {
    dst := p;
    if off >= p.Length - 10 {
      dst := Expand(p, p.Length + 50);
      assert dst[..off] == dst[..p.Length][..off];
    }
  }

  /** One turn of the loop, on the state of the loop. */
  method Turn(src: string, multi: bool, sp: nat, dst: array<char>, off: nat) returns (ok: bool, sp': nat, off': nat)
    requires sp < |src| && off + 6 <= dst.Length && Midway(src, multi, sp, dst[..off])
    modifies dst
    ensures !ok ==> NormBasic(src, multi) == None
    ensures ok ==> sp < sp' && off' <= off + 6 && Midway(src, multi, sp', dst[..off'])
  {
    ghost var written := dst[..off];
    var taken;
    ok, taken, off' := PutUnit(src[sp..], multi, dst, off);
    sp' := sp + taken;
    if ok {
      MidwayStep(src, multi, sp, written, Unit(src[sp..], multi).value.text, taken);
    } else {
      MidwayStops(src, multi, sp, written);
    }
  }

  /** norm_basic_str: no write passes the buffer, which grows by fifty while fewer than eleven
      places are left. */
  method NormBasicStr(src: string, multi: bool) returns (r: Option<string>)
    ensures r == NormBasic(src, multi)
  {
    var dst: array<char> := new char[0];
    var off: nat, sp: nat := 0, 0;
    MidwayStart(src, multi);
    while true
      invariant fresh(dst) && off <= dst.Length && sp <= |src| && Midway(src, multi, sp, dst[..off])
      decreases |src| - sp
    {
      dst := MakeRoom(dst, off);
      if sp >= |src| { break; }
      var ok;
      ok, sp, off := Turn(src, multi, sp, dst, off);
      if !ok { return None; }
    }
    MidwayEnd(src, multi, dst[..off]);
    r := Some(dst[..off]);
    dst[off] := 0 as char;
  }

  /** norm_lit_str */
  method NormLitStr(src: string, multi: bool) returns (r: Option<string>)
    ensures r == NormLit(src, multi)
  {
    var dst: array<char> := new char[0];
    var off: nat := 0;
    while true
      invariant fresh(dst) && off <= |src| && off <= dst.Length && dst[..off] == src[..off]
      invariant forall k :: 0 <= k < off ==> !Forbidden(src[k], multi)
      decreases |src| - off
    {
      dst := MakeRoom(dst, off);
      if off >= |src| { break; }
      var ch := src[off];
      if Forbidden(ch, multi) { return None; }
      dst[off] := ch;
      off := off + 1;
    }
    assert dst[..off] == src;
    r := Some(dst[..off]);
    dst[off] := 0 as char;
  }

  // ---- raw values ----

  /** What a C string holds of a buffer. */
  function CString(s: string): (r: string)
    ensures |r| <= |s|
  {
    if s == "" || s[0] as int == 0 then "" else [s[0]] + CString(s[1..])
  }

  function Norm(src: string, quote: char, multi: bool): Option<string> {
    if quote == '\'' then NormLit(src, multi) else NormBasic(src, multi)
  }

  function AsCString(r: Option<string>): Option<string> {
    match r
    case None => None
    case Some(s) => Some(CString(s))
  }

  predicate Triple(src: string, quote: char) {
    |src| >= 3 && src[1] == quote && src[2] == quote
  }

  /** The inside of a triple-quoted string: one line end at its start is dropped. */
  function AfterNewline(s: string): string {
    if |s| >= 1 && s[0] == '\n' then s[1..]
    else if |s| >= 2 && s[0] == '\r' && s[1] == '\n' then s[2..]
    else s
  }

  /** toml_rtos: the string that a raw value denotes, none if it is not a string. */
  function Rtos(src: string): Option<string> {
    if src == "" || (src[0] != '\'' && src[0] != '"') then None
    else if Triple(src, src[0]) then
      if |src| >= 6 && src[|src| - 3..] == [src[0], src[0], src[0]] then
        AsCString(Norm(AfterNewline(src[3..|src| - 3]), src[0], true))
      else None
    else if |src| >= 2 && src[|src| - 1] == src[0] then
      AsCString(Norm(src[1..|src| - 1], src[0], false))
    else None
  }

  method TomlRtos(src: string) returns (r: Option<string>)
    ensures r == Rtos(src)
  {
    if src == "" { return None; }
    var qchar := src[0];
    if !(qchar == '\'' || qchar == '"') { return None; }
    var body, multi := "", false;
    if |src| >= 3 && qchar == src[1] && qchar == src[2] {
      multi := true;
      if !(|src| >= 6 && src[|src| - 3] == qchar && src[|src| - 2] == qchar && src[|src| - 1] == qchar) {
        assert |src| >= 6 ==> src[|src| - 3..] != [qchar, qchar, qchar];
        return None;
      }
      assert src[|src| - 3..] == [qchar, qchar, qchar];
      body := AfterNewline(src[3..|src| - 3]);
    } else {
      if !(|src| >= 2 && src[|src| - 1] == qchar) { return None; }
      body := src[1..|src| - 1];
    }
    var t;
    if qchar == '\'' {
      t := NormLitStr(body, multi);
    } else {
      t := NormBasicStr(body, multi);
    }
    return AsCString(t);
  }

  // ---- what is denoted ----

  /** A text that stands for itself: no backslash and nothing forbidden. */
  predicate Plain(s: string, multi: bool) {
    forall k :: 0 <= k < |s| ==> s[k] != '\\' && !Forbidden(s[k], multi)
  }

  lemma PlainUnit(c: char, t: string, multi: bool)
    requires c != '\\' && !Forbidden(c, multi)
    ensures NormBasic([c] + t, multi) == Prepend([c], NormBasic(t, multi))
  {
    assert ([c] + t)[1..] == t;
  }

  /** Plain text in front is copied. */
  lemma {:induction false} PlainCopied(s: string, rest: string, multi: bool)
    requires Plain(s, multi)
    ensures NormBasic(s + rest, multi) == Prepend(s, NormBasic(rest, multi))
  {
    if s == "" {
      assert s + rest == rest;
      PrependTwice("", "", NormBasic(rest, multi));
    } else {
      var c, t := s[0], s[1..];
      assert s == [c] + t && s + rest == [c] + (t + rest);
      PlainCopied(t, rest, multi);
      PlainUnit(c, t + rest, multi);
      PrependTwice([c], t, NormBasic(rest, multi));
    }
  }
}
