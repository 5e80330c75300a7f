// The tokenizer of the TOML parser. Where the source keeps a pointer into the text, the model
// keeps the rest of the text from there on; the end of the rest is the NUL of the source.

module TomlLexer {
  import opened Wrappers
  import opened TomlString

  datatype Kind = Dot | Comma | Equal | LBrace | RBrace | Newline | LBracket | RBracket | Str

  /** A token, the text behind it, and whether it is the line end put at the end of the text. */
  datatype Token = Token(kind: Kind, text: string, after: string, eof: bool)

  // ---- pieces of strings ----

  /** strstr for three times the same character, from `k` on. */
  function FindThree(s: string, c: char, k: nat): (r: Option<nat>)
    ensures r.Some? ==> k <= r.value && r.value + 3 <= |s|
    decreases |s| - k
  {
    if k + 3 > |s| then None
    else if s[k] == c && s[k + 1] == c && s[k + 2] == c then Some(k)
    else FindThree(s, c, k + 1)
  }

  /** The last place where the three can stand if more of them follow. */
  function LastThree(s: string, c: char, q: nat): (r: nat)
    requires q + 3 <= |s|
    ensures q <= r && r + 3 <= |s|
    decreases |s| - q
  {
    if q + 3 < |s| && s[q + 3] == c then LastThree(s, c, q + 1) else q
  }

  /** Three double quotes without a backslash in front. */
  function FindUnescaped(s: string, k: nat): (r: Option<nat>)
    requires k >= 1
    ensures r.Some? ==> k <= r.value && r.value + 3 <= |s|
    decreases |s| - k
  {
    match FindThree(s, '"', k)
    case None => None
    case Some(q) => if s[q - 1] == '\\' then FindUnescaped(s, q + 1) else Some(q)
  }

  /** Where the scanner of a double-quoted string stands in an escape: behind the backslash, or
      with so many hexadecimal digits to come. */
  datatype Escape = Outside | Behind | Digits(left: nat)

  predicate IsHex(c: char) {
    c in "0123456789ABCDEF"
  }

  /** Inside an escape: where the next character leads, if it is right. */
  function EscapeStep(e: Escape, c: char): Option<Escape> {
    match e
    case Outside => Some(if c == '\\' then Behind else Outside)
    case Behind =>
      if c in "btnfr\"\\" then Some(Outside)
      else if c == 'u' then Some(Digits(4))
      else if c == 'U' then Some(Digits(8))
      else None
    case Digits(n) =>
      if !IsHex(c) then None else Some(if n <= 1 then Outside else Digits(n - 1))
  }

  /** The check of the escapes in a triple-quoted string, up to `end`; a backslash may also end
      the line. */
  predicate EscapesRight(s: string, i: nat, end: nat, e: Escape)
    requires i <= end <= |s|
    decreases end - i
  {
    if i == end then e == Outside
    else
      match EscapeStep(e, s[i])
      case Some(next) => EscapesRight(s, i + 1, end, next)
      case None => e == Behind && LineEnds(s[i..]) && EscapesRight(s, i + 1, end, Outside)
  }

  /** The closing quote of a double-quoted string on one line. */
  function BasicEnd(s: string, i: nat, e: Escape): (r: Option<nat>)
    ensures r.Some? ==> i <= r.value < |s|
    decreases |s| - i
  {
    if i >= |s| then None
    else if e != Outside then
      match EscapeStep(e, s[i])
      case None => None
      case Some(next) => BasicEnd(s, i + 1, next)
    else if s[i] == '\\' then BasicEnd(s, i + 1, Behind)
    else if s[i] == '\'' then
      if i + 2 < |s| && s[i + 1] == '\'' && s[i + 2] == '\'' then None else BasicEnd(s, i + 1, Outside)
    else if s[i] == '\n' then None
    else if s[i] == '"' then Some(i)
    else BasicEnd(s, i + 1, Outside)
  }

  /** The closing quote of a single-quoted string. */
  function LiteralEnd(s: string, i: nat): (r: Option<nat>)
    ensures r.Some? ==> i <= r.value < |s|
    decreases |s| - i
  {
    if i >= |s| || s[i] == '\n' then None
    else if s[i] == '\'' then Some(i)
    else LiteralEnd(s, i + 1)
  }

  predicate Digit(c: char) { '0' <= c <= '9' }

  /** scan_digits found `n` digits at `i`. */
  predicate DigitsAt(s: string, i: nat, n: nat) {
    i + n <= |s| && forall k :: i <= k < i + n ==> Digit(s[k])
  }

  predicate DateLike(s: string) {
    && DigitsAt(s, 0, 4) && |s| > 4 && s[4] == '-'
    && DigitsAt(s, 5, 2) && |s| > 7 && s[7] == '-' && DigitsAt(s, 8, 2)
  }

  predicate TimeLike(s: string) {
    && DigitsAt(s, 0, 2) && |s| > 2 && s[2] == ':'
    && DigitsAt(s, 3, 2) && |s| > 5 && s[5] == ':' && DigitsAt(s, 6, 2)
  }

  /** The length without the spaces at the end. */
  function WithoutSpaces(s: string, n: nat): (r: nat)
    requires n <= |s|
    ensures r <= n
  {
    if n > 0 && s[n - 1] == ' ' then WithoutSpaces(s, n - 1) else n
  }

  predicate BareChar(c: char, dot: bool) {
    'A' <= c <= 'Z' || 'a' <= c <= 'z' || Digit(c) || c == '+' || c == '-' || c == '_' || (c == '.' && !dot)
  }

  /** The length of a bare key or value, which may be zero. */
  function BareSpan(s: string, dot: bool): (n: nat)
    ensures n <= |s|
  {
    if s != "" && BareChar(s[0], dot) then 1 + BareSpan(s[1..], dot) else 0
  }

  // ---- tokens ----

  function ThreeEnd(s: string): (r: Option<nat>)
    ensures r.Some? ==> r.value <= |s|
  {
    match FindThree(s, '\'', 3)
    case None => None
    case Some(q) => Some(LastThree(s, '\'', q) + 3)
  }

  function ThreeDoubleEnd(s: string): (r: Option<nat>)
    ensures r.Some? ==> r.value <= |s|
  {
    match FindUnescaped(s, 3)
    case None => None
    case Some(q) =>
      var last := LastThree(s, '"', q);
      if EscapesRight(s, 3, last, Outside) then Some(last + 3) else None
  }

  /** One more than an index, if there is one. */
  function Past(r: Option<nat>): Option<nat> {
    match r
    case None => None
    case Some(k) => Some(k + 1)
  }

  const STAMP := "0123456789.:+-Tt Zz"

  /** scan_string: the length of the string token at the beginning of `s`. */
  function ScanString(s: string, dot: bool): (r: Option<nat>)
    ensures r.Some? ==> r.value <= |s|
  {
    if "'''" <= s then ThreeEnd(s)
    else if "\"\"\"" <= s then ThreeDoubleEnd(s)
    else if s != "" && s[0] == '\'' then Past(LiteralEnd(s, 1))
    else if s != "" && s[0] == '"' then Past(BasicEnd(s, 1, Outside))
    else if DateLike(s) || TimeLike(s) then Some(WithoutSpaces(s, Span(s, STAMP)))
    else Some(BareSpan(s, dot))
  }

  /** The kind of a token of one character. */
  function Mark(c: char, dot: bool): Option<Kind> {
    if dot && c == '.' then Some(Dot)
    else if c == ',' then Some(Comma)
    else if c == '=' then Some(Equal)
    else if c == '{' then Some(LBrace)
    else if c == '}' then Some(RBrace)
    else if c == '[' then Some(LBracket)
    else if c == ']' then Some(RBracket)
    else if c == '\n' then Some(Newline)
    else None
  }

  predicate Skipped(c: char) { c == '\r' || c == ' ' || c == '\t' }

  /** The length of the rest of the line. */
  function LineRest(s: string): (n: nat)
    ensures n <= |s|
  {
    if s != "" && s[0] != '\n' then 1 + LineRest(s[1..]) else 0
  }

  const END := Token(Newline, "", "", true)

  /** next_token: the token that begins `s`, after blanks and comments. */
  function NextToken(s: string, dot: bool): Option<Token>
    decreases |s|
  {
    if s == "" then Some(END)
    else if s[0] == '#' then NextToken(s[1..][LineRest(s[1..])..], dot)
    else if Mark(s[0], dot).Some? then Some(Token(Mark(s[0], dot).value, [s[0]], s[1..], false))
    else if Skipped(s[0]) then NextToken(s[1..], dot)
    else
      match ScanString(s, dot)
      case None => None
      case Some(n) => Some(Token(Str, s[..n], s[n..], false))
  }

  // ---- what a token is ----

  /** How much text there is from the token on. */
  function Left(tok: Token): nat { |tok.text| + |tok.after| }

  /** Only string tokens can be empty, apart from the end; the end has nothing behind it. */
  ghost predicate WellFormed(tok: Token) {
    && (tok.eof ==> tok == END)
    && (!tok.eof && tok.kind != Str ==> |tok.text| == 1)
    && (!tok.eof && tok.kind == LBracket ==> tok.text == "[")
  }

  lemma {:induction false} NextTokenFits(s: string, dot: bool)
    requires NextToken(s, dot).Some?
    ensures WellFormed(NextToken(s, dot).value) && Left(NextToken(s, dot).value) <= |s|
    decreases |s|
  {
    if s != "" {
      if s[0] == '#' {
        NextTokenFits(s[1..][LineRest(s[1..])..], dot);
      } else if Mark(s[0], dot).None? && Skipped(s[0]) {
        NextTokenFits(s[1..], dot);
      }
    }
  }

  /** A string token can be empty: the scanner stops at once at a character it does not know. */
  lemma EmptyString()
    ensures NextToken("!", true) == Some(Token(Str, "", "!", false))
  {}
}
