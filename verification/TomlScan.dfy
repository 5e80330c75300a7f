// The loops of the tokenizer, each against what it looks for.

module TomlScan {
  import opened Wrappers
  import opened TomlString
  import opened TomlLexer

  method Strstr(s: string, c: char, k: nat) returns (r: Option<nat>)
    ensures r == FindThree(s, c, k)
  {
    var q := k;
    while q + 3 <= |s|
      invariant FindThree(s, c, k) == FindThree(s, c, q)
      decreases |s| - q
    {
      if s[q] == c && s[q + 1] == c && s[q + 2] == c { return Some(q); }
      q := q + 1;
    }
    return None;
  }

  method SkipQuotes(s: string, c: char, q: nat) returns (r: nat)
    requires q + 3 <= |s|
    ensures r == LastThree(s, c, q)
  {
    r := q;
    while r + 3 < |s| && s[r + 3] == c
      invariant r + 3 <= |s| && LastThree(s, c, q) == LastThree(s, c, r)
    {
      r := r + 1;
    }
  }

  /** The search for the closing triple double quote. */
  method StrstrUnescaped(s: string, k: nat) returns (r: Option<nat>)
    requires k >= 1
    ensures r == FindUnescaped(s, k)
  {
    var q := k;
    while true
      invariant q >= 1 && FindUnescaped(s, k) == FindUnescaped(s, q)
      decreases |s| - q
    {
      r := Strstr(s, '"', q);
      if r.None? { return; }
      if s[r.value - 1] != '\\' { return; }
      q := r.value + 1;
    }
  }

  /** The two variables of the source for where it stands in an escape. */
  ghost function EscapeOf(escape: bool, hexreq: nat): Escape {
    if escape then Behind else if hexreq > 0 then Digits(hexreq) else Outside
  }

  /** The check of the escapes in a triple-quoted string. */
  method CheckEscapes(s: string, end: nat) returns (ok: bool)
    requires 3 <= end <= |s|
    ensures ok == EscapesRight(s, 3, end, Outside)
  {
    var hexreq: nat, escape := 0, false;
    var p := 3;
    while p < end
      invariant p <= end && (escape ==> hexreq == 0)
      invariant EscapesRight(s, 3, end, Outside) == EscapesRight(s, p, end, EscapeOf(escape, hexreq))
    {
      if escape {
        escape := false;
        if s[p] in "btnfr\"\\" {
        } else if s[p] == 'u' {
          hexreq := 4;
        } else if s[p] == 'U' {
          hexreq := 8;
        } else {
          var k := CountSpan(s[p..], " \t\r");
          if !(k < |s[p..]| && s[p..][k] == '\n') { return false; }
        }
      } else if hexreq > 0 {
        if !(s[p] in "0123456789ABCDEF") { return false; }
        hexreq := hexreq - 1;
      } else if s[p] == '\\' {
        escape := true;
      }
      p := p + 1;
    }
    return !escape && hexreq == 0;
  }

  /** The scanner of a double-quoted string on one line. */
  method ScanBasic(s: string) returns (r: Option<nat>)
    requires s != ""
    ensures r == BasicEnd(s, 1, Outside)
  {
    var hexreq: nat, escape := 0, false;
    var p := 1;
    while p < |s|
      invariant p <= |s| && (escape ==> hexreq == 0)
      invariant BasicEnd(s, 1, Outside) == BasicEnd(s, p, EscapeOf(escape, hexreq))
    {
      if escape {
        escape := false;
        if s[p] in "btnfr\"\\" {
        } else if s[p] == 'u' {
          hexreq := 4;
        } else if s[p] == 'U' {
          hexreq := 8;
        } else {
          return None;
        }
      } else if hexreq > 0 {
        if !(s[p] in "0123456789ABCDEF") { return None; }
        hexreq := hexreq - 1;
      } else if s[p] == '\\' {
        escape := true;
      } else if s[p] == '\'' {
        if p + 2 < |s| && s[p + 1] == '\'' && s[p + 2] == '\'' { return None; }
      } else if s[p] == '\n' {
        return None;
      } else if s[p] == '"' {
        return Some(p);
      }
      p := p + 1;
    }
    return None;
  }

  method ScanLiteral(s: string) returns (r: Option<nat>)
    requires s != ""
    ensures r == LiteralEnd(s, 1)
  {
    var p := 1;
    while p < |s| && s[p] != '\n' && s[p] != '\''
      invariant p <= |s| && LiteralEnd(s, 1) == LiteralEnd(s, p)
    {
      p := p + 1;
    }
    return if p < |s| && s[p] == '\'' then Some(p) else None;
  }

  method ScanBare(s: string, dot: bool) returns (n: nat)
    ensures n == BareSpan(s, dot)
  {
    n := 0;
    while n < |s| && BareChar(s[n], dot)
      invariant n <= |s| && BareSpan(s, dot) == n + BareSpan(s[n..], dot)
    {
      assert s[n..][1..] == s[n + 1..];
      n := n + 1;
    }
  }

  method ScanStamp(s: string) returns (n: nat)
    ensures n == WithoutSpaces(s, Span(s, STAMP))
  {
    n := CountSpan(s, STAMP);
    while n > 0 && s[n - 1] == ' '
      invariant n <= |s| && WithoutSpaces(s, Span(s, STAMP)) == WithoutSpaces(s, n)
    {
      n := n - 1;
    }
  }

  /** scan_digits, as far as finding digits goes. */
  method FindDigits(s: string, i: nat, n: nat) returns (found: bool)
    ensures found == DigitsAt(s, i, n)
  {
    var k := 0;
    while k < n && i + k < |s| && Digit(s[i + k])
      invariant k <= n && (i + k <= |s| || k == 0) && forall j :: i <= j < i + k ==> j < |s| && Digit(s[j])
    {
      k := k + 1;
    }
    found := k == n && i + n <= |s|;
  }

  /** scan_date and scan_time */
  method LooksLikeStamp(s: string) returns (r: bool)
    ensures r == (DateLike(s) || TimeLike(s))
  {
    var year := FindDigits(s, 0, 4);
    var month := false;
    if year && |s| > 4 && s[4] == '-' { month := FindDigits(s, 5, 2); }
    var day := false;
    if month && |s| > 7 && s[7] == '-' { day := FindDigits(s, 8, 2); }
    if day { return true; }
    var hour := FindDigits(s, 0, 2);
    var minute := false;
    if hour && |s| > 2 && s[2] == ':' { minute := FindDigits(s, 3, 2); }
    var second := false;
    if minute && |s| > 5 && s[5] == ':' { second := FindDigits(s, 6, 2); }
    return second;
  }

  /** scan_string */
  method Scan(s: string, dot: bool) returns (r: Option<nat>)
    ensures r == ScanString(s, dot)
  {
    if "'''" <= s {
      var q := Strstr(s, '\'', 3);
      if q.None? { return None; }
      var last := SkipQuotes(s, '\'', q.value);
      return Some(last + 3);
    }
    if "\"\"\"" <= s {
      var q := StrstrUnescaped(s, 3);
      if q.None? { return None; }
      var last := SkipQuotes(s, '"', q.value);
      var ok := CheckEscapes(s, last);
      return if ok then Some(last + 3) else None;
    }
    if s != "" && s[0] == '\'' {
      r := ScanLiteral(s);
      return Past(r);
    }
    if s != "" && s[0] == '"' {
      r := ScanBasic(s);
      return Past(r);
    }
    var stamp := LooksLikeStamp(s);
    var n;
    if stamp {
      n := ScanStamp(s);
    } else {
      n := ScanBare(s, dot);
    }
    return Some(n);
  }

  /** next_token, on the text behind the token that is eaten. */
  method Next(s: string, dot: bool) returns (r: Option<Token>)
    ensures r == NextToken(s, dot)
  {
    var p := 0;
    assert s[0..] == s;
    while p < |s|
      invariant p <= |s| && NextToken(s, dot) == NextToken(s[p..], dot)
    {
      var c := s[p];
      assert s[p..][1..] == s[p + 1..];
      if c == '#' {
        var n := CountLine(s[p + 1..]);
        assert s[p + 1..][n..] == s[p + 1 + n..];
        p := p + 1 + n;
      } else if Mark(c, dot).Some? {
        return Some(Token(Mark(c, dot).value, [c], s[p + 1..], false));
      } else if Skipped(c) {
        p := p + 1;
      } else {
        r := NextString(s[p..], dot);
        return;
      }
    }
    return Some(END);
  }

  method NextString(s: string, dot: bool) returns (r: Option<Token>)
    requires s != "" && s[0] != '#' && Mark(s[0], dot).None? && !Skipped(s[0])
    ensures r == NextToken(s, dot)
  {
    var n := Scan(s, dot);
    if n.None? { return None; }
    return Some(Token(Str, s[..n.value], s[n.value..], false));
  }

  method CountLine(s: string) returns (n: nat)
    ensures n == LineRest(s)
  {
    n := 0;
    while n < |s| && s[n] != '\n'
      invariant n <= |s| && LineRest(s) == n + LineRest(s[n..])
    {
      assert s[n..][1..] == s[n + 1..];
      n := n + 1;
    }
  }
}
