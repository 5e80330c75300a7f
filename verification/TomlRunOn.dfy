// A text that is put between double quotes without escaping, as the printer of answers.toml does
// it, and that begins like a triple-quoted string: the string can run on behind the closing
// quote, over the lines that follow. Whatever lines follow, it does not denote the text.

module TomlRunOn {
  import opened Wrappers
  import opened TomlString
  import opened TomlSpelling

  /** The quote and the line end behind the text. */
  predicate Closing(e: string) {
    |e| == 2 && e[0] == '"' && e[1] == '\n'
  }

  /** The inside of such a string: a text, the quote and the line end behind it, and what follows. */
  function RunOn(x: string, e: string, r: string): string {
    x + (e + r)
  }

  /** What may follow a written line: nothing, or neither a double quote nor a backslash. */
  predicate Follows(r: string) {
    r == "" || (r[0] != '"' && r[0] != '\\' && r[0] as int != 0)
  }

  // ---- units do not reach over a quote or a backslash ----

  predicate Stops(b: string) {
    b != "" && (b[0] == '"' || b[0] == '\\')
  }

  lemma {:induction false} SpanFront(s: string, b: string, of: string)
    requires b != "" && b[0] !in of
    ensures Span(s + b, of) == Span(s, of)
  {
    if s == "" {
      assert s + b == b;
    } else {
      assert (s + b)[1..] == s[1..] + b;
      SpanFront(s[1..], b, of);
    }
  }

  lemma {:induction false} HexFront(acc: nat, s: string, b: string, n: nat)
    requires Stops(b) && HexFrom(acc, s + b, n).Some?
    ensures HexFrom(acc, s, n) == HexFrom(acc, s + b, n)
    decreases n
  {
    if n > 0 {
      if s == "" {
        assert (s + b)[0] == b[0];
      } else {
        assert (s + b)[1..] == s[1..] + b;
        HexFront(acc * 16 + HexDigit(s[0]), s[1..], b, n - 1);
      }
    }
  }

  lemma LineEndsFront(s: string, b: string)
    requires Stops(b)
    ensures LineEnds(s + b) <==> LineEnds(s)
    ensures Span(s + b, " \t\r\n") == Span(s, " \t\r\n")
  {
    SpanFront(s, b, " \t\r");
    SpanFront(s, b, " \t\r\n");
    var k := Span(s, " \t\r");
    assert (s + b)[k] == if k < |s| then s[k] else b[0];
  }

  lemma CodeFront(s: string, b: string, n: nat)
    requires Stops(b) && CodePiece(s + b, n).Some?
    ensures CodePiece(s, n) == CodePiece(s + b, n)
  {
    HexFront(0, s, b, n);
  }

  lemma EscapeFront(s: string, b: string)
    requires Stops(b) && s != "" && EscapePiece(s + b, true).Some?
    ensures EscapePiece(s, true) == EscapePiece(s + b, true)
  {
    LineEndsFront(s, b);
    assert (s + b)[0] == s[0] && (s + b)[1..] == s[1..] + b;
    if !LineEnds(s) && s[0] == 'u' {
      CodeFront(s[1..], b, 4);
    } else if !LineEnds(s) && s[0] == 'U' {
      CodeFront(s[1..], b, 8);
    }
  }

  /** The first unit of a text is the same with a quote or a backslash behind the text, unless the
      text is a backslash alone. */
  lemma UnitFront(a: string, b: string)
    requires Stops(b) && a != "" && a != "\\" && Unit(a + b, true).Some?
    ensures Unit(a, true) == Unit(a + b, true)
  {
    assert (a + b)[0] == a[0] && (a + b)[1..] == a[1..] + b;
    if a[0] == '\\' {
      EscapeFront(a[1..], b);
    }
  }

  /** One unit taken off the front. */
  lemma NormFront(a: string, b: string) returns (text: string, taken: nat)
    requires Stops(b) && a != "" && a != "\\" && NormBasic(a + b, true).Some?
    ensures Unit(a, true) == Some(Piece(text, taken)) && 1 <= taken <= |a|
    ensures NormBasic(a, true) == Prepend(text, NormBasic(a[taken..], true))
    ensures NormBasic(a + b, true) == Prepend(text, NormBasic(a[taken..] + b, true))
  {
    UnitFront(a, b);
    UnitSize(a, true);
    var u := Unit(a, true).value;
    text, taken := u.text, u.taken;
    assert (a + b)[taken..] == a[taken..] + b;
  }

  // ---- what the string denotes ----

  /** `p` is what `x` denotes, or what it denotes without a last backslash. */
  ghost predicate Denotes(x: string, p: string) {
    || NormBasic(x, true) == Some(p)
    || (x != "" && x[|x| - 1] == '\\' && NormBasic(x[..|x| - 1], true) == Some(p))
  }

  lemma DenotesShort(x: string, p: string)
    requires Denotes(x, p)
    ensures |p| <= |x|
  {
    if NormBasic(x, true) == Some(p) {
      NormLength(x, true);
    } else {
      NormLength(x[..|x| - 1], true);
    }
  }

  /** One more unit in front. */
  lemma DenotesMore(x: string, text: string, taken: nat, p: string)
    requires x != "" && Unit(x, true) == Some(Piece(text, taken)) && taken <= |x| && Denotes(x[taken..], p)
    ensures Denotes(x, text + p)
  {
    if NormBasic(x[taken..], true) != Some(p) {
      ShorterDenotes(x, x[..|x| - 1], text, taken, p);
    }
  }

  lemma ShorterDenotes(x: string, a: string, text: string, taken: nat, p: string)
    requires x == a + "\\" && Unit(x, true) == Some(Piece(text, taken)) && taken < |x|
    requires NormBasic(x[taken..][..|x| - taken - 1], true) == Some(p)
    ensures NormBasic(a, true) == Some(text + p)
  {
    UnitSize(x, true);
    LoneBackslash(a, text, taken);
    UnitFront(a, "\\");
    assert x[taken..][..|x| - taken - 1] == a[taken..];
  }

  lemma LoneBackslash(a: string, text: string, taken: nat)
    requires Unit(a + "\\", true) == Some(Piece(text, taken)) && 1 <= taken <= |a|
    ensures a != "" && a != "\\"
  {
    var s := (a + "\\")[1..];
    assert a == "\\" ==> s == "\\" && Span(s, " \t\r") == 0;
  }

  /** A character that stands for itself. */
  lemma PlainFront(c: char, r: string)
    requires c != '\\' && !Forbidden(c, true)
    ensures NormBasic([c] + r, true) == Prepend([c], NormBasic(r, true))
  {
    assert ([c] + r)[1..] == r;
  }

  lemma ClosingFront(e: string, r: string)
    requires Closing(e)
    ensures NormBasic(e + r, true) == Prepend(e, NormBasic(r, true))
  {
    var q, n := [e[0]], [e[1]];
    assert q + (n + r) == e + r && q + n == e;
    PlainFront(e[0], n + r);
    PlainFront(e[1], r);
    PrependTwice(q, n, NormBasic(r, true));
  }

  lemma EscapedFront(b: string, e: string, r: string)
    requires Closing(e) && b == "\\"
    ensures NormBasic(b + (e + r), true) == Prepend(e, NormBasic(r, true))
  {
    var s, q, n := b + (e + r), [e[0]], [e[1]];
    assert s[1..] == e + r && s[2..] == n + r && q + n == e;
    QuoteUnit(s);
    PlainFront(e[1], r);
    PrependTwice(q, n, NormBasic(r, true));
  }

  lemma QuoteUnit(s: string)
    requires |s| >= 2 && s[0] == '\\' && s[1] == '"'
    ensures NormBasic(s, true) == Prepend(['"'], NormBasic(s[2..], true))
  {
    assert s[1..][0] == '"' && Span(s[1..], " \t\r") == 0;
    assert Unit(s, true) == Some(Piece(['"'], 2));
  }

  /** No text in front of the quote, or a backslash that escapes it. */
  lemma SplitNothing(x: string, e: string, r: string)
    requires Closing(e) && (x == "" || x == "\\")
    ensures NormBasic(RunOn(x, e, r), true) == Prepend(e, NormBasic(r, true)) && Denotes(x, "")
  {
    if x == "" {
      assert RunOn(x, e, r) == e + r;
      ClosingFront(e, r);
    } else {
      assert x[..|x| - 1] == "";
      EscapedFront(x, e, r);
    }
  }

  lemma NothingInFront(e: string, t: string)
    ensures "" + (e + t) == e + t
  {}

  lemma Regrouped(a: string, b: string, c: string)
    ensures a + (b + c) == (a + b) + c
  {}

  /** The string that runs on denotes the text up to the quote, which may be escaped by the last
      backslash of the text, the quote, the line end, and what follows. */
  lemma {:induction false} Split(x: string, e: string, r: string) returns (p: string, t: string)
    requires Closing(e) && NormBasic(RunOn(x, e, r), true).Some?
    ensures NormBasic(r, true) == Some(t) && NormBasic(RunOn(x, e, r), true) == Some(p + (e + t))
    ensures Denotes(x, p)
    decreases |x|
  {
    if x == "" || x == "\\" {
      SplitNothing(x, e, r);
      p, t := "", NormBasic(r, true).value;
      NothingInFront(e, t);
    } else {
      var text, taken := NormFront(x, e + r);
      var q;
      q, t := Split(x[taken..], e, r);
      DenotesMore(x, text, taken, q);
      p := text + q;
      Regrouped(text, q, e + t);
    }
  }

  // ---- it is not the text ----

  /** A character other than a backslash at the front stays at the front. */
  lemma HeadKept(z: string, t: string)
    requires z != "" && z[0] != '\\' && NormBasic(z, true) == Some(t)
    ensures t != "" && t[0] == z[0]
  {
    assert Unit(z, true) == Some(Piece([z[0]], 1));
  }

  lemma DenotesHead(x: string, p: string)
    requires Denotes(x, p) && x != "" && x[0] != '\\'
    ensures p != "" && p[0] == x[0]
  {
    if NormBasic(x, true) == Some(p) {
      HeadKept(x, p);
    } else {
      HeadKept(x[..|x| - 1], p);
    }
  }

  /** What follows still does so when it is unescaped. */
  lemma FollowsKept(r: string, t: string)
    requires Follows(r) && NormBasic(r, true) == Some(t)
    ensures Follows(CString(t)) && (r == "" ==> t == "")
  {
    if r != "" {
      HeadKept(r, t);
    }
  }

  lemma {:induction false} CStringCut(a: string, b: string)
    ensures if NoNul(a) then CString(a + b) == a + CString(b) else |CString(a + b)| < |a|
  {
    if a == "" {
      assert a + b == b && a + CString(b) == CString(b);
    } else {
      assert (a + b)[0] == a[0] && (a + b)[1..] == a[1..] + b;
      CStringCut(a[1..], b);
      if a[0] as int != 0 {
        assert NoNul(a) <==> NoNul(a[1..]) by {
          assert forall k :: 0 < k < |a| ==> a[k] == a[1..][k - 1];
        }
        assert [a[0]] + (a[1..] + CString(b)) == a + CString(b);
      }
    }
  }

  /** The line end that is dropped behind the opening quotes, if any. */
  predicate LineEnd(nl: string) {
    nl == "" || nl == "\n" || nl == "\r\n"
  }

  /** Too little in front of the quote. */
  lemma ShortFront(nl: string, x: string, p: string, e: string, t: string)
    requires Closing(e) && LineEnd(nl) && Denotes(x, p) && Follows(t) && |p| < 2 + |nl|
    ensures p + (e + t) != "\"\"" + nl + x
  {
    var lhs, rhs := p + (e + t), "\"\"" + nl + x;
    if |p| == 0 {
      assert lhs[1] == '\n' && rhs[1] == '"';
    } else if |p| == 1 {
      OneInFront(nl, x, p, e, t);
    } else {
      assert lhs[|p|] == '"' && rhs[|p|] == nl[|p| - 2];
    }
  }

  lemma OneInFront(nl: string, x: string, p: string, e: string, t: string)
    requires Closing(e) && LineEnd(nl) && Denotes(x, p) && Follows(t) && |p| == 1
    ensures p + (e + t) != "\"\"" + nl + x
  {
    var lhs, rhs := p + (e + t), "\"\"" + nl + x;
    DenotesShort(x, p);
    if lhs == rhs {
      assert lhs[0] == p[0] && lhs[2] == '\n' && lhs[3..] == t;
      assert rhs[0] == '"' && rhs[2] == (nl + x)[0];
      if nl == "\n" {
        assert rhs[3..] == x;
      }
      DenotesHead(x, p);
    }
  }

  /** Enough in front of the quote: the same equation for a shorter text. */
  lemma LongFront(nl: string, x: string, p: string, e: string, t: string) returns (y: string)
    requires Closing(e) && |p| >= 2 + |nl| && p + (e + t) == "\"\"" + nl + x
    ensures p == "\"\"" + nl + y && x == RunOn(y, e, t)
  {
    var m, rhs := 2 + |nl|, "\"\"" + nl + x;
    y := p[m..];
    assert rhs[..m] == "\"\"" + nl && rhs[m..] == x;
    assert (p + (e + t))[..m] == p[..m] && (p + (e + t))[m..] == y + (e + t);
  }

  /** The text in front of the quote, read as the same kind of string. */
  lemma FrontRunsOn(x: string, p: string, y: string, e: string, t: string) returns (r: string)
    requires Closing(e) && Denotes(x, p) && x == RunOn(y, e, t) && Follows(t)
    ensures Follows(r) && NormBasic(RunOn(y, e, r), true) == Some(p)
  {
    r := t;
    if NormBasic(x, true) != Some(p) {
      var n := |y| + 2;
      assert x[n - 1] == '\n' && x[n..] == t;
      r := t[..|t| - 1];
      assert x[..|x| - 1] == RunOn(y, e, r);
    }
  }

  /** Whatever follows, the string does not denote the text in front of it with two more double
      quotes. */
  lemma {:induction false} NoFix(nl: string, x: string, e: string, r: string)
    requires Closing(e) && LineEnd(nl) && Follows(r) && NormBasic(RunOn(x, e, r), true).Some?
    ensures CString(NormBasic(RunOn(x, e, r), true).value) != "\"\"" + nl + x
    decreases |x|
  {
    var p, t := Split(x, e, r);
    DenotesShort(x, p);
    CStringCut(p, e + t);
    CStringCut(e, t);
    FollowsKept(r, t);
    if CString(p + (e + t)) == "\"\"" + nl + x {
      NoFixStep(nl, x, p, e, CString(t));
    }
  }

  lemma {:induction false} NoFixStep(nl: string, x: string, p: string, e: string, t: string)
    requires Closing(e) && LineEnd(nl) && Denotes(x, p) && NoNul(p) && Follows(t)
    ensures p + (e + t) != "\"\"" + nl + x
    decreases |x|, 0
  {
    if p + (e + t) == "\"\"" + nl + x {
      if |p| < 2 + |nl| {
        ShortFront(nl, x, p, e, t);
      } else {
        var y := LongFront(nl, x, p, e, t);
        var r := FrontRunsOn(x, p, y, e, t);
        CStringWhole(p);
        NoFix(nl, y, e, r);
      }
    }
  }

  /** The line end dropped behind the opening quotes is one at the beginning of the text. */
  lemma DroppedInFront(x: string, e: string, r: string) returns (nl: string, y: string)
    requires Closing(e)
    ensures LineEnd(nl) && x == nl + y && AfterNewline(RunOn(x, e, r)) == RunOn(y, e, r)
  {
    var s := RunOn(x, e, r);
    var m := |s| - |AfterNewline(s)|;
    assert x == "" ==> s[0] == '"';
    assert |x| == 1 ==> s[1] == '"';
    nl, y := x[..m], x[m..];
    assert s[m..] == RunOn(y, e, r);
  }

  /** A text behind two double quotes is not what the string denotes that begins with the quote in
      front of it and runs on. */
  lemma RunOnDiffers(x: string, e: string, r: string)
    requires Closing(e) && Follows(r) && NormBasic(AfterNewline(RunOn(x, e, r)), true).Some?
    ensures CString(NormBasic(AfterNewline(RunOn(x, e, r)), true).value) != "\"\"" + x
  {
    var nl, y := DroppedInFront(x, e, r);
    NoFix(nl, y, e, r);
    Regrouped("\"\"", nl, y);
  }
}
