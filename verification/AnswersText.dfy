// How the lines that bp_answers_save writes are tokenized and parsed.

module AnswersText {
  import opened Wrappers
  import opened TomlString
  import opened TomlSpelling
  import opened TomlLexer
  import opened TomlParser

  // ---- keys and values that can be written ----

  /** A bare key; if it begins like a date, all of it must be what may stand in a date.
      Identifiers are of this kind. */
  predicate WritableKey(k: string) {
    k != "" && BareKey(k) && (DateLike(k) ==> InStamp(k))
  }

  predicate BareKey(k: string) {
    forall i :: 0 <= i < |k| ==> KeyChar(k[i])
  }

  predicate InStamp(k: string) {
    forall i :: 0 <= i < |k| ==> k[i] in STAMP
  }

  lemma IdentifierWritable(k: string)
    requires k != "" && BareKey(k) && !Digit(k[0])
    ensures WritableKey(k)
  {}

  /** No quote, no backslash, no control character other than tab, and no three single quotes in
      a row. */
  predicate Clean(v: string) {
    Plain(v, false) && NoQuotesFrom(v, 0)
  }

  predicate ThreeSingle(s: string, i: nat) {
    i + 2 < |s| && s[i] == '\'' && s[i + 1] == '\'' && s[i + 2] == '\''
  }

  /** From `j` on, no double quote and no three single quotes in a row. */
  predicate NoQuotesFrom(v: string, j: nat) {
    && (forall k :: j <= k < |v| ==> v[k] != '"')
    && (forall k :: j <= k < |v| ==> !ThreeSingle(v, k))
  }

  // ---- tokens ----

  lemma {:induction false} BareSpanStops(k: string, rest: string, dot: bool)
    requires forall i :: 0 <= i < |k| ==> BareChar(k[i], dot)
    requires rest != "" && !BareChar(rest[0], dot)
    ensures BareSpan(k + rest, dot) == |k|
  {
    if k == "" {
      assert k + rest == rest;
    } else {
      assert (k + rest)[1..] == k[1..] + rest;
      BareSpanStops(k[1..], rest, dot);
    }
  }

  /** What follows a bare word in the file: a blank, a line end or a bracket. */
  predicate Ends(rest: string) {
    rest != "" && (rest[0] == ' ' || rest[0] == '\n' || rest[0] == ']')
  }

  /** A bare word in front of one of these looks like a date or a time only if it is itself
      like a date. */
  lemma StampWithin(k: string, rest: string)
    requires BareKey(k) && Ends(rest)
    ensures DateLike(k + rest) <==> DateLike(k)
    ensures !TimeLike(k + rest)
  {
    var s := k + rest;
    assert s[|k|] == rest[0];
    assert forall i :: 0 <= i < |k| ==> s[i] == k[i];
  }

  lemma {:induction false} SpanOver(k: string, rest: string, of: string)
    requires forall i :: 0 <= i < |k| ==> k[i] in of
    ensures Span(k + rest, of) == |k| + Span(rest, of)
  {
    if k == "" {
      assert k + rest == rest;
    } else {
      assert (k + rest)[1..] == k[1..] + rest;
      SpanOver(k[1..], rest, of);
    }
  }

  lemma SpanStops(rest: string)
    requires Ends(rest) && (rest[0] == ' ' ==> |rest| > 1 && rest[1] !in STAMP)
    ensures Span(rest, STAMP) == if rest[0] == ' ' then 1 else 0
  {
    assert ' ' in STAMP && '\n' !in STAMP && ']' !in STAMP;
    if rest[0] == ' ' {
      assert rest[1..][0] == rest[1];
    }
  }

  /** A word of characters that may stand in a date, in front of a single blank. */
  lemma StampEnds(k: string, rest: string)
    requires k != "" && BareKey(k) && InStamp(k) && Ends(rest) && (rest[0] == ' ' ==> |rest| > 1 && rest[1] !in STAMP)
    ensures WithoutSpaces(k + rest, Span(k + rest, STAMP)) == |k|
  {
    var s := k + rest;
    SpanOver(k, rest, STAMP);
    SpanStops(rest);
    assert s[|k|] == rest[0] && s[|k| - 1] == k[|k| - 1] && KeyChar(k[|k| - 1]);
    assert WithoutSpaces(s, |k|) == |k|;
  }

  /** What follows a key in the file. */
  predicate KeyEnds(rest: string) {
    Ends(rest) && (rest[0] == ' ' ==> |rest| > 1 && rest[1] == '=')
  }

  lemma KeyScan(k: string, rest: string)
    requires WritableKey(k) && KeyEnds(rest)
    ensures ScanString(k + rest, true) == Some(|k|)
  {
    var s := k + rest;
    assert s[0] == k[0] && KeyChar(k[0]);
    StampWithin(k, rest);
    if DateLike(k) {
      StampEnds(k, rest);
    } else {
      BareSpanStops(k, rest, true);
    }
  }

  /** A string token that begins with a character of a bare key. */
  lemma StringToken(s: string, dot: bool, n: nat)
    requires s != "" && KeyChar(s[0]) && ScanString(s, dot) == Some(n)
    ensures NextToken(s, dot) == Some(Token(Str, s[..n], s[n..], false))
  {}

  /** A writable key is read as one token. */
  lemma KeyToken(k: string, rest: string)
    requires WritableKey(k) && KeyEnds(rest)
    ensures NextToken(k + rest, true) == Some(Token(Str, k, rest, false))
  {
    var s := k + rest;
    KeyScan(k, rest);
    assert s[0] == k[0] && s[..|k|] == k && s[|k|..] == rest;
    StringToken(s, true, |k|);
  }

  /** A raw value is read as one token in front of a line end. */
  ghost predicate ReadsAs(raw: string, rest: string) {
    NextToken(raw + ("\n" + rest), false) == Some(Token(Str, raw, "\n" + rest, false))
  }

  lemma WordReads(raw: string, rest: string)
    requires raw != "" && BareKey(raw) && !DateLike(raw)
    ensures ReadsAs(raw, rest)
  {
    var s := raw + ("\n" + rest);
    assert s[0] == raw[0] && KeyChar(raw[0]);
    StampWithin(raw, "\n" + rest);
    BareSpanStops(raw, "\n" + rest, false);
    assert s[..|raw|] == raw && s[|raw|..] == "\n" + rest;
    assert ScanString(s, false) == Some(|raw|);
  }

  // ---- quoted values ----

  /** From inside a clean text on, the scanner finds the closing quote. */
  lemma {:induction false} CleanEnds(v: string, rest: string, i: nat)
    requires Clean(v) && 1 <= i <= |v| + 1
    ensures BasicEnd(Quoted(v) + rest, i, Outside) == Some(|v| + 1)
    decreases |v| + 1 - i
  {
    var s := Quoted(v) + rest;
    assert s[|v| + 1] == '"';
    assert forall k :: 1 <= k <= |v| ==> s[k] == v[k - 1];
    if i <= |v| {
      assert !Forbidden(v[i - 1], false) && v[i - 1] != '\\' && v[i - 1] != '"';
      assert !ThreeSingle(v, i - 1);
      assert !ThreeSingle(s, i) by {
        assert i + 2 <= |v| ==> s[i + 1] == v[i] && s[i + 2] == v[i + 1];
      }
      CleanEnds(v, rest, i + 1);
    }
  }

  lemma QuotedIsBasic(v: string, rest: string)
    requires !Triple(Quoted(v), '"')
    ensures ScanString(Quoted(v) + ("\n" + rest), false) == Past(BasicEnd(Quoted(v) + ("\n" + rest), 1, Outside))
  {
    var q, s := Quoted(v), Quoted(v) + ("\n" + rest);
    assert s[0] == '"' && s[1] == q[1];
    assert s[2] == if |q| == 2 then '\n' else q[2];
  }

  lemma NoLeadingQuote(v: string)
    requires Clean(v)
    ensures v == "" || v[0] != '"'
    ensures !Triple(Quoted(v), '"')
  {
    QuotedParts(v);
  }

  lemma CleanReads(v: string, rest: string)
    requires Clean(v)
    ensures ReadsAs(Quoted(v), rest)
    ensures Rtos(Quoted(v)) == Some(v)
  {
    var s := Quoted(v) + ("\n" + rest);
    NoLeadingQuote(v);
    QuotedIsBasic(v, rest);
    CleanEnds(v, "\n" + rest, 1);
    assert s[..|v| + 2] == Quoted(v) && s[|v| + 2..] == "\n" + rest;
    assert s[0] == '"';
    DenotesItselfIff(v, false);
    QuotedValue(v, v);
  }

  // ---- exactly the clean values are read back ----

  lemma BasicStep(s: string, i: nat, n: nat)
    requires i < n < |s| && BasicEnd(s, i, Outside) == Some(n) && s[i] != '\\'
    ensures s[i] != '"' && !ThreeSingle(s, i) && BasicEnd(s, i + 1, Outside) == Some(n)
  {}

  lemma {:induction false} EndMeansClean(v: string, rest: string, s: string, j: nat)
    requires Plain(v, false) && j <= |v| && s == Quoted(v) + rest
    requires BasicEnd(s, j + 1, Outside) == Some(|v| + 1)
    ensures NoQuotesFrom(v, j)
    decreases |v| - j
  {
    if j < |v| {
      assert s[j + 1] == v[j];
      BasicStep(s, j + 1, |v| + 1);
      EndMeansClean(v, rest, s, j + 1);
      if j < |v| - 2 {
        assert s[j + 2] == v[j + 1] && s[j + 3] == v[j + 2];
      }
    }
  }

  lemma {:induction false} NormLiteralLength(src: string, quote: char, multi: bool)
    requires Norm(src, quote, multi).Some?
    ensures |Norm(src, quote, multi).value| <= |src|
  {
    if quote != '\'' {
      NormLength(src, multi);
    }
  }

  /** A value that makes a triple quote with the quotes around it is not read back. */
  lemma NotTriple(v: string)
    requires Rtos(Quoted(v)) == Some(v)
    ensures !Triple(Quoted(v), '"')
    ensures NormBasic(v, false).Some? && CString(NormBasic(v, false).value) == v
  {
    var src := Quoted(v);
    QuotedParts(v);
    if Triple(src, '"') {
      var body := AfterNewline(src[3..|src| - 3]);
      NormLiteralLength(body, '"', true);
    } else {
      assert |src| - 1 == |v| + 1;
      assert Norm(v, '"', false).Some?;
    }
  }

  lemma PlainIfReadBack(v: string)
    requires NormBasic(v, false).Some? && CString(NormBasic(v, false).value) == v
    ensures Plain(v, false)
  {
    NormLength(v, false);
  }

  /** What is written for the value is read as one token that denotes the value. */
  ghost predicate ReadBack(v: string, rest: string) {
    ScanString(Quoted(v) + ("\n" + rest), false) == Some(|v| + 2) && Rtos(Quoted(v)) == Some(v)
  }

  lemma CleanReadBack(v: string, rest: string)
    requires Clean(v)
    ensures ReadBack(v, rest)
  {
    NoLeadingQuote(v);
    QuotedIsBasic(v, rest);
    CleanEnds(v, "\n" + rest, 1);
    CleanReads(v, rest);
  }

  lemma QuotedEnds(v: string, rest: string)
    requires ScanString(Quoted(v) + ("\n" + rest), false) == Some(|v| + 2) && !Triple(Quoted(v), '"')
    ensures BasicEnd(Quoted(v) + ("\n" + rest), 1, Outside) == Some(|v| + 1)
  {
    QuotedIsBasic(v, rest);
  }

  lemma ReadBackClean(v: string, rest: string)
    requires ReadBack(v, rest)
    ensures Clean(v)
  {
    NotTriple(v);
    PlainIfReadBack(v);
    QuotedEnds(v, rest);
    EndMeansClean(v, "\n" + rest, Quoted(v) + ("\n" + rest), 0);
  }

  /** A value is read back as itself, with the token ending where the writer ended it, exactly
      when it is clean. */
  lemma ReadBackIff(v: string, rest: string)
    ensures ReadBack(v, rest) <==> Clean(v)
  {
    if Clean(v) {
      CleanReadBack(v, rest);
    }
    if ReadBack(v, rest) {
      ReadBackClean(v, rest);
    }
  }

  /** The key as it stands in front of the equals sign is read as one token that is the key. */
  ghost predicate KeyReadBack(k: string, rest: string) {
    NextToken(k + (" = " + rest), true) == Some(Token(Str, k, " = " + rest, false)) && NormalizeKey(k) == Some(k)
  }

  /** A key that begins like a date is cut where a date can no longer go on. */
  lemma {:induction false} SpanMeans(k: string, rest: string, of: string)
    requires Span(k + rest, of) >= |k|
    ensures forall i :: 0 <= i < |k| ==> k[i] in of
  {
    if k != "" {
      assert (k + rest)[1..] == k[1..] + rest;
      SpanMeans(k[1..], rest, of);
    }
  }

  lemma KeyReadBackWritable(k: string, rest: string)
    requires k != "" && KeyReadBack(k, rest)
    ensures WritableKey(k)
  {
    KeyIsBare(k);
    if DateLike(k) {
      DateScanned(k, " = " + rest);
      SpanMeans(k, " = " + rest, STAMP);
    }
  }

  lemma DateScanned(k: string, rest: string)
    requires k != "" && BareKey(k) && DateLike(k) && Ends(rest)
    requires NextToken(k + rest, true) == Some(Token(Str, k, rest, false))
    ensures Span(k + rest, STAMP) >= |k|
  {
    var s := k + rest;
    assert s[0] == k[0] && KeyChar(k[0]);
    StampWithin(k, rest);
    assert ScanString(s, true) == Some(WithoutSpaces(s, Span(s, STAMP)));
  }

  /** A key that stands for itself is not quoted: the quotes would be gone. */
  lemma KeyIsBare(k: string)
    requires NormalizeKey(k) == Some(k)
    ensures BareKey(k)
  {
    if k != "" && (k[0] == '\'' || k[0] == '"') {
      var multi := Triple(k, k[0]);
      var body := Inside(k, if multi then 3 else 1);
      NormLiteralLength(body, '"', multi);
    }
  }

  lemma EmptyKey(rest: string)
    ensures !KeyReadBack("", rest)
  {
    var s, t := " = " + rest, "= " + rest;
    assert "" + s == s && s[1..] == t && t[0] == '=';
    assert NextToken(s, true) == NextToken(t, true);
    assert NextToken(t, true).value.kind == Equal;
  }

  /** A key is read back as itself exactly when it is writable. */
  lemma KeyReadBackIff(k: string, rest: string)
    ensures KeyReadBack(k, rest) <==> WritableKey(k)
  {
    if k == "" {
      EmptyKey(rest);
    } else if WritableKey(k) {
      KeyToken(k, " = " + rest);
      assert KeyChar(k[0]);
    } else if KeyReadBack(k, rest) {
      KeyReadBackWritable(k, rest);
    }
  }
}
