// Values as they may be written in a TOML document: texts in double quotes in any mix of
// spellings, arrays and inline tables with any layout, and how their tokens are read.

module TomlValues {
  import opened Wrappers
  import Utf8
  import opened TomlString
  import opened TomlLexer
  import opened TomlTree
  import opened TomlParser
  import opened AnswersText
  import TomlSpelling

  // ---- values and their layout ----

  /** What may stand between the tokens of an array: blanks, line ends, and comments to the end
      of a line. */
  datatype Filler = Space(c: char) | LineEnd | Comment(text: string)

  datatype Val =
    | Txt(items: seq<TomlSpelling.Item>)
    | Lst(elems: seq<Elem>, lastComma: bool, end: seq<Filler>)
    | Tbl(fields: seq<Field>, lastComma: bool, blanks: string)

  datatype Elem = Elem(before: seq<Filler>, val: Val, after: seq<Filler>)

  /** `key = value` with blanks in the four places. */
  datatype Field = Field(before: string, key: string, mid: string, behind: string, val: Val, after: string)

  predicate Blanks(s: string) {
    forall k :: 0 <= k < |s| ==> Skipped(s[k])
  }

  predicate RightFiller(g: seq<Filler>) {
    forall k :: 0 <= k < |g| ==>
      match g[k]
      case Space(c) => Skipped(c)
      case LineEnd => true
      case Comment(text) => '\n' !in text
  }

  /** A text that can be written: no code is zero, and no three single quotes stand in a row, which
      the scanner refuses even in double quotes. */
  ghost predicate RightText(items: seq<TomlSpelling.Item>) {
    && TomlSpelling.AllSpellable(items)
    && (forall k :: 0 <= k < |items| ==> items[k].0 != 0)
    && (forall k :: 0 <= k < |TomlSpelling.SpellAll(items)| ==> !ThreeSingle(TomlSpelling.SpellAll(items), k))
  }

  /** A bare key that does not look like a date. */
  predicate PlainKey(k: string) {
    k != "" && BareKey(k) && !DateLike(k)
  }

  ghost predicate Right(v: Val) {
    match v
    case Txt(items) => RightText(items)
    case Lst(elems, _, end) => RightFiller(end) && forall k :: 0 <= k < |elems| ==> RightElem(elems[k])
    case Tbl(fields, _, blanks) =>
      Blanks(blanks) && DistinctKeys(fields) && forall k :: 0 <= k < |fields| ==> RightField(fields[k])
  }

  ghost predicate RightElem(e: Elem) {
    RightFiller(e.before) && Right(e.val) && RightFiller(e.after)
  }

  ghost predicate DistinctKeys(fields: seq<Field>) {
    forall j, k :: 0 <= j < k < |fields| ==> fields[j].key != fields[k].key
  }

  ghost predicate RightField(f: Field) {
    && Blanks(f.before) && PlainKey(f.key) && Blanks(f.mid) && Blanks(f.behind) && Right(f.val) && Blanks(f.after)
  }

  // ---- the text in front of another ----

  function ShowFiller(g: seq<Filler>, tail: string): string {
    if g == [] then tail
    else
      match g[0]
      case Space(c) => [c] + ShowFiller(g[1..], tail)
      case LineEnd => ['\n'] + ShowFiller(g[1..], tail)
      case Comment(text) => ['#'] + (text + (['\n'] + ShowFiller(g[1..], tail)))
  }

  ghost function Show(v: Val, tail: string): string
    requires Right(v)
    decreases v, 0
  {
    match v
    case Txt(items) => TomlSpelling.Quoted(TomlSpelling.SpellAll(items)) + tail
    case Lst(elems, lastComma, end) => ['['] + ShowElems(elems, lastComma, ShowFiller(end, [']'] + tail))
    case Tbl(fields, lastComma, blanks) => ['{'] + ShowFields(fields, lastComma, blanks + (['}'] + tail))
  }

  ghost function ShowElem(e: Elem, tail: string): string
    requires RightElem(e)
    decreases e, 1
  {
    ShowFiller(e.before, Show(e.val, ShowFiller(e.after, tail)))
  }

  /** Elements with commas between them, and one behind the last if `lastComma`. */
  ghost function ShowElems(es: seq<Elem>, lastComma: bool, tail: string): string
    requires forall k :: 0 <= k < |es| ==> RightElem(es[k])
    decreases es, |es|
  {
    if es == [] then tail
    else ShowElem(es[0], Separated(|es| > 1 || lastComma, ShowElems(es[1..], lastComma, tail)))
  }

  function Separated(put: bool, tail: string): string {
    if put then [','] + tail else tail
  }

  ghost function ShowField(f: Field, tail: string): string
    requires RightField(f)
    decreases f, 1
  {
    f.before + (f.key + (f.mid + (['='] + (f.behind + Show(f.val, f.after + tail)))))
  }

  ghost function ShowFields(fs: seq<Field>, lastComma: bool, tail: string): string
    requires forall k :: 0 <= k < |fs| ==> RightField(fs[k])
    decreases fs, |fs|
  {
    if fs == [] then tail
    else ShowField(fs[0], Separated(|fs| > 1 || lastComma, ShowFields(fs[1..], lastComma, tail)))
  }

  // ---- tokens of a quoted text ----

  /** A character that the scanner of a double-quoted string passes over. */
  predicate Passed(s: string, i: nat) {
    i < |s| && s[i] != '\\' && s[i] != '\n' && s[i] != '"' && !ThreeSingle(s, i)
  }

  lemma {:induction false} PassedOver(s: string, i: nat, n: nat)
    requires i + n <= |s| && forall k :: i <= k < i + n ==> Passed(s, k)
    ensures BasicEnd(s, i, Outside) == BasicEnd(s, i + n, Outside)
    decreases n
  {
    if n > 0 {
      assert Passed(s, i);
      PassedOver(s, i + 1, n - 1);
    }
  }

  lemma {:induction false} HexPassed(s: string, i: nat, n: nat)
    requires 1 <= n && i + n <= |s| && forall k :: i <= k < i + n ==> IsHex(s[k])
    ensures BasicEnd(s, i, Digits(n)) == BasicEnd(s, i + n, Outside)
    decreases n
  {
    assert IsHex(s[i]);
    if n > 1 {
      HexPassed(s, i + 1, n - 1);
    }
  }

  lemma EscapePassed(s: string, i: nat, n: nat)
    requires i + 2 + n <= |s| && s[i] == '\\' && forall k :: i + 2 <= k < i + 2 + n ==> IsHex(s[k])
    requires if n == 0 then s[i + 1] in "btnfr\"\\" else (s[i + 1] == 'u' && n == 4) || (s[i + 1] == 'U' && n == 8)
    ensures BasicEnd(s, i, Outside) == BasicEnd(s, i + 2 + n, Outside)
  {
    assert BasicEnd(s, i, Outside) == BasicEnd(s, i + 1, Behind);
    if n > 0 {
      assert 'u' !in "btnfr\"\\" && 'U' !in "btnfr\"\\";
      HexPassed(s, i + 2, n);
    }
  }

  lemma {:induction false} HexTextIsHex(v: nat, n: nat)
    ensures forall k :: 0 <= k < n ==> IsHex(TomlSpelling.HexText(v, n)[k])
  {
    if n > 0 {
      HexTextIsHex(v / 16, n - 1);
      HexCharIsHex(v % 16);
    }
  }

  lemma HexCharIsHex(v: int)
    requires 0 <= v < 16
    ensures IsHex(TomlSpelling.HexChar(v))
  {
    var c, digits := TomlSpelling.HexChar(v), "0123456789ABCDEF";
    assert c == digits[v];
  }

  /** The bytes of a code that stands raw are passed over. */
  lemma RawPasses(code: int)
    requires TomlSpelling.Spellable(code, TomlSpelling.Raw)
    ensures var bytes := Utf8.Encode(code).value;
            forall k :: 0 <= k < |bytes| ==> bytes[k] != '\\' && bytes[k] != '\n' && bytes[k] != '"'
  {
    TomlSpelling.RawPlain(code);
    Utf8.LeadFits(code);
    TomlSpelling.TailHigh(code, Utf8.Continuations(code));
    var bytes := Utf8.Encode(code).value;
    assert forall k :: 0 <= k < |bytes| ==> bytes[k] != '\\' && !Forbidden(bytes[k], false);
  }

  /** The scanner passes over what a code is spelled as. */
  lemma SpellPassed(s: string, i: nat, code: int, how: TomlSpelling.Spelling)
    requires TomlSpelling.Spellable(code, how) && i + |TomlSpelling.Spell(code, how)| <= |s|
    requires s[i..i + |TomlSpelling.Spell(code, how)|] == TomlSpelling.Spell(code, how)
    requires forall k :: i <= k < i + |TomlSpelling.Spell(code, how)| ==> !ThreeSingle(s, k)
    ensures BasicEnd(s, i, Outside) == BasicEnd(s, i + |TomlSpelling.Spell(code, how)|, Outside)
  {
    var spelled := TomlSpelling.Spell(code, how);
    assert forall k :: 0 <= k < |spelled| ==> s[i + k] == s[i..i + |spelled|][k] == spelled[k];
    match how
    case Raw =>
      RawPasses(code);
      forall k | i <= k < i + |spelled| ensures Passed(s, k) {
        assert s[k] == spelled[k - i];
      }
      PassedOver(s, i, |spelled|);
    case Short =>
      assert s[i] == spelled[0] && s[i + 1] == spelled[1];
      EscapePassed(s, i, 0);
    case Hex4 =>
      HexSpelled(s, i, code, 4, 'u', spelled);
    case Hex8 =>
      HexSpelled(s, i, code, 8, 'U', spelled);
  }

  lemma HexSpelled(s: string, i: nat, code: nat, n: nat, letter: char, spelled: string)
    requires spelled == ['\\', letter] + TomlSpelling.HexText(code, n)
    requires (letter == 'u' && n == 4) || (letter == 'U' && n == 8)
    requires i + |spelled| <= |s| && forall k :: 0 <= k < |spelled| ==> s[i + k] == spelled[k]
    ensures BasicEnd(s, i, Outside) == BasicEnd(s, i + |spelled|, Outside)
  {
    HexTextIsHex(code, n);
    assert s[i] == spelled[0] && s[i + 1] == spelled[1];
    forall k | i + 2 <= k < i + 2 + n ensures IsHex(s[k]) {
      assert s[i + (k - i)] == spelled[k - i] == TomlSpelling.HexText(code, n)[k - i - 2];
    }
    EscapePassed(s, i, n);
  }

  lemma FrontOf(s: string, i: nat, a: string, b: string, c: string)
    requires i <= |s| && s[i..] == a + b + c
    ensures i + |a| + |b| <= |s| && s[i..i + |a|] == a && s[i + |a|..] == b + c
  {
    assert s[i..i + |a|] == s[i..][..|a|];
    assert s[i + |a|..] == s[i..][|a|..];
  }

  /** The scanner passes over a spelled text. */
  lemma {:induction false} TextPassed(s: string, i: nat, items: seq<TomlSpelling.Item>, tail: string)
    requires TomlSpelling.AllSpellable(items) && i <= |s| && s[i..] == TomlSpelling.SpellAll(items) + tail
    requires forall k :: i <= k < i + |TomlSpelling.SpellAll(items)| ==> !ThreeSingle(s, k)
    ensures i + |TomlSpelling.SpellAll(items)| <= |s|
    ensures BasicEnd(s, i, Outside) == BasicEnd(s, i + |TomlSpelling.SpellAll(items)|, Outside)
    decreases |items|
  {
    if items != [] {
      var first := TomlSpelling.Spell(items[0].0, items[0].1);
      FrontOf(s, i, first, TomlSpelling.SpellAll(items[1..]), tail);
      SpellPassed(s, i, items[0].0, items[0].1);
      TextPassed(s, i + |first|, items[1..], tail);
    }
  }

  /** What may follow a value: anything but a double quote. */
  predicate Follows(tail: string) {
    tail == "" || tail[0] != '"'
  }

  /** The scanner finds the closing quote of a spelled text. */
  lemma TextEnds(items: seq<TomlSpelling.Item>, tail: string)
    requires RightText(items)
    ensures var body := TomlSpelling.SpellAll(items);
            BasicEnd(TomlSpelling.Quoted(body) + tail, 1, Outside) == Some(|body| + 1)
  {
    var body := TomlSpelling.SpellAll(items);
    var s := TomlSpelling.Quoted(body) + tail;
    assert s[1..] == body + (['"'] + tail);
    assert s[|body| + 1] == '"' && forall k :: 1 <= k <= |body| ==> s[k] == body[k - 1];
    forall k | 1 <= k < 1 + |body| ensures !ThreeSingle(s, k) {
      assert !ThreeSingle(body, k - 1);
    }
    TextPassed(s, 1, items, ['"'] + tail);
  }

  lemma NotTripled(items: seq<TomlSpelling.Item>, tail: string)
    requires RightText(items) && Follows(tail)
    ensures var s := TomlSpelling.Quoted(TomlSpelling.SpellAll(items)) + tail;
            |s| >= 2 && s[0] == '"' && (|s| >= 3 ==> s[1] != '"' || s[2] != '"')
  {
    var body := TomlSpelling.SpellAll(items);
    var s := TomlSpelling.Quoted(body) + tail;
    TomlSpelling.QuotedParts(body);
    if items == [] {
      assert |s| >= 3 ==> s[2] == tail[0];
    } else {
      TomlSpelling.SpellBegins(items[0].0, items[0].1);
      assert s[1] == body[0];
    }
  }

  lemma BasicToken(s: string, n: nat, dot: bool)
    requires |s| >= 2 && s[0] == '"' && (|s| >= 3 ==> s[1] != '"' || s[2] != '"') && BasicEnd(s, 1, Outside) == Some(n)
    ensures NextToken(s, dot) == Some(Token(Str, s[..n + 1], s[n + 1..], false))
  {
    assert ScanString(s, dot) == Some(n + 1);
  }

  /** A spelled text in quotes is read as one token. */
  lemma TextToken(items: seq<TomlSpelling.Item>, tail: string, dot: bool)
    requires RightText(items) && Follows(tail)
    ensures var q := TomlSpelling.Quoted(TomlSpelling.SpellAll(items));
            NextToken(q + tail, dot) == Some(Token(Str, q, tail, false))
  {
    var q := TomlSpelling.Quoted(TomlSpelling.SpellAll(items));
    TextEnds(items, tail);
    NotTripled(items, tail);
    BasicToken(q + tail, |q| - 1, dot);
    assert (q + tail)[..|q|] == q && (q + tail)[|q|..] == tail;
  }

  // ---- other tokens ----

  lemma MarkToken(c: char, tail: string, dot: bool)
    requires c != '#' && Mark(c, dot).Some?
    ensures NextToken([c] + tail, dot) == Some(Token(Mark(c, dot).value, [c], tail, false))
  {
    assert ([c] + tail)[1..] == tail;
  }

  lemma SpaceSkipped(c: char, tail: string, dot: bool)
    requires Skipped(c)
    ensures NextToken([c] + tail, dot) == NextToken(tail, dot)
  {
    assert ([c] + tail)[1..] == tail;
  }

  lemma {:induction false} BlanksSkipped(b: string, tail: string, dot: bool)
    requires Blanks(b)
    ensures NextToken(b + tail, dot) == NextToken(tail, dot)
  {
    if b == "" {
      assert b + tail == tail;
    } else {
      assert b + tail == [b[0]] + (b[1..] + tail);
      SpaceSkipped(b[0], b[1..] + tail, dot);
      BlanksSkipped(b[1..], tail, dot);
    }
  }

  lemma {:induction false} RestOfLine(text: string, tail: string)
    requires '\n' !in text
    ensures LineRest(text + (['\n'] + tail)) == |text|
  {
    if text == "" {
      assert text + (['\n'] + tail) == ['\n'] + tail;
    } else {
      assert (text + (['\n'] + tail))[1..] == text[1..] + (['\n'] + tail);
      RestOfLine(text[1..], tail);
    }
  }

  lemma CommentToken(text: string, tail: string, dot: bool)
    requires '\n' !in text
    ensures NextToken(['#'] + (text + (['\n'] + tail)), dot) == Some(Token(Newline, ['\n'], tail, false))
  {
    var s := text + (['\n'] + tail);
    RestOfLine(text, tail);
    assert (['#'] + s)[1..] == s && s[|text|..] == ['\n'] + tail;
    MarkToken('\n', tail, dot);
  }

  // ---- keys ----

  /** What stands behind a key: a blank, the equals sign, a closing bracket or a dot. */
  predicate BehindKey(tail: string) {
    tail != "" && (Skipped(tail[0]) || tail[0] == '=' || tail[0] == ']' || tail[0] == '.')
  }

  lemma KeyNotStamp(k: string, tail: string)
    requires PlainKey(k) && BehindKey(tail)
    ensures !DateLike(k + tail) && !TimeLike(k + tail)
  {
    var s := k + tail;
    assert s[|k|] == tail[0];
    assert forall i :: 0 <= i < |k| ==> s[i] == k[i];
  }

  /** A plain key is read as one token. */
  lemma PlainKeyToken(k: string, tail: string)
    requires PlainKey(k) && BehindKey(tail)
    ensures NextToken(k + tail, true) == Some(Token(Str, k, tail, false))
    ensures NormalizeKey(k) == Some(k)
  {
    var s := k + tail;
    KeyNotStamp(k, tail);
    assert s[0] == k[0] && KeyChar(k[0]);
    BareSpanStops(k, tail, true);
    StringToken(s, true, |k|);
    assert s[..|k|] == k && s[|k|..] == tail;
  }
}
