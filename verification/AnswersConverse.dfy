// The converse of the round trip: a store that is not clean is not what its file is read as.

module AnswersConverse {
  import opened Wrappers
  import opened Pairs
  import opened Answers
  import opened TomlString
  import opened TomlSpelling
  import opened TomlLexer
  import opened TomlTree
  import opened TomlParser
  import opened TomlDocument
  import opened TomlGrowth
  import opened TomlRunOn
  import opened AnswersText
  import opened AnswersFile
  import opened AnswersRoundTrip
  import opened AnswersStore

  // ---- where the token of a value ends ----

  predicate ThreeDouble(s: string, p: nat) {
    p + 3 <= |s| && s[p] == '"' && s[p + 1] == '"' && s[p + 2] == '"'
  }

  lemma {:induction false} FoundThree(s: string, k: nat)
    requires FindThree(s, '"', k).Some?
    ensures ThreeDouble(s, FindThree(s, '"', k).value)
    decreases |s| - k
  {
    if !ThreeDouble(s, k) {
      FoundThree(s, k + 1);
    }
  }

  lemma {:induction false} FoundUnescaped(s: string, k: nat)
    requires k >= 1 && FindUnescaped(s, k).Some?
    ensures ThreeDouble(s, FindUnescaped(s, k).value)
    decreases |s| - k
  {
    FoundThree(s, k);
    var q := FindThree(s, '"', k).value;
    if s[q - 1] == '\\' {
      FoundUnescaped(s, q + 1);
    }
  }

  lemma {:induction false} LastIsThree(s: string, q: nat)
    requires ThreeDouble(s, q)
    ensures ThreeDouble(s, LastThree(s, '"', q))
    decreases |s| - q
  {
    if q + 3 < |s| && s[q + 3] == '"' {
      LastIsThree(s, q + 1);
    }
  }

  /** The written value and what follows it in the file. */
  function Behind(v: string, rest: string): string {
    Quoted(v) + ("\n" + rest)
  }

  lemma LineEndAt(v: string, rest: string)
    ensures |Behind(v, rest)| == |v| + 3 + |rest| && Behind(v, rest)[|v| + 2] == '\n'
    ensures Behind(v, rest)[0] == '"' && Behind(v, rest)[|v| + 1] == '"'
    ensures Behind(v, rest)[..|v| + 2] == Quoted(v) && Behind(v, rest)[|v| + 3..] == rest
    ensures Behind(v, rest)[1..|v| + 1] == v
  {
    QuotedParts(v);
  }

  /** A string on one line ends before the line does. */
  lemma {:induction false} EndsInLine(s: string, i: nat, e: Escape, m: nat)
    requires i <= m < |s| && s[m] == '\n' && BasicEnd(s, i, e).Some?
    ensures BasicEnd(s, i, e).value < m
    decreases m - i
  {
    if i < m {
      if e != Outside {
        EndsInLine(s, i + 1, EscapeStep(e, s[i]).value, m);
      } else if s[i] == '\\' {
        EndsInLine(s, i + 1, TomlLexer.Behind, m);
      } else if s[i] != '"' {
        EndsInLine(s, i + 1, Outside, m);
      }
    }
  }

  /** A string token that is not triple-quoted does not reach behind the value, and one that is
      ends with three double quotes. */
  lemma TokenEnds(v: string, rest: string, n: nat)
    requires ScanString(Behind(v, rest), false) == Some(n)
    ensures n >= 2
    ensures if "\"\"\"" <= Behind(v, rest) then n >= 6 && ThreeDouble(Behind(v, rest), n - 3) else n <= |v| + 2
  {
    var s := Behind(v, rest);
    LineEndAt(v, rest);
    if "\"\"\"" <= s {
      FoundUnescaped(s, 3);
      LastIsThree(s, FindUnescaped(s, 3).value);
    } else {
      EndsInLine(s, 1, Outside, |v| + 2);
    }
  }

  // ---- what the token denotes ----

  /** A string between double quotes denotes no more than is between them. */
  lemma ShorterThanQuoted(raw: string)
    requires |raw| >= 2 && raw[0] == '"' && Rtos(raw).Some?
    ensures |Rtos(raw).value| <= |raw| - 2
  {
    if Triple(raw, '"') {
      NormLiteralLength(AfterNewline(raw[3..|raw| - 3]), '"', true);
    } else {
      NormLiteralLength(raw[1..|raw| - 1], '"', false);
    }
  }

  /** A token that ends in its line does not denote a value that is not clean. */
  lemma ShortToken(v: string, rest: string, n: nat)
    requires ScanString(Behind(v, rest), false) == Some(n) && 2 <= n <= |v| + 2 && !Clean(v)
    ensures n <= |Behind(v, rest)| && Rtos(Behind(v, rest)[..n]) != Some(v)
  {
    var raw := Behind(v, rest)[..n];
    LineEndAt(v, rest);
    if Rtos(raw) == Some(v) {
      ShorterThanQuoted(raw);
      assert n == |v| + 2 && raw == Quoted(v);
      ReadBackIff(v, rest);
    }
  }

  /** Where a token begins and ends that runs on over the following lines. */
  lemma LongParts(v: string, rest: string, n: nat)
    requires "\"\"\"" <= Behind(v, rest) && n >= 6 && ThreeDouble(Behind(v, rest), n - 3) && n > |v| + 2
    ensures n - 3 >= |v| + 3 && v != "" && v[0] == '"'
    ensures if |v| == 1 then Behind(v, rest)[3..n - 3] == "\n" + rest[..n - |v| - 6]
            else v == "\"\"" + v[2..] && Behind(v, rest)[3..n - 3] == RunOn(v[2..], "\"\n", rest[..n - |v| - 6])
  {
    var s, m := Behind(v, rest), n - 3;
    LineEndAt(v, rest);
    assert s[1] == '"' && s[2] == '"' && s[m] == '"' && s[m + 1] == '"' && s[m + 2] == '"';
    assert s[1..|v| + 1] == v;
    if |v| >= 2 {
      assert v[1] == s[2];
      assert s[3..] == v[2..] + ("\"\n" + rest);
      assert s[3..m] == v[2..] + ("\"\n" + rest[..m - |v| - 3]);
    } else {
      assert s[3..] == "\n" + rest;
    }
  }

  /** A triple-quoted string denotes its inside, unescaped. */
  lemma TripleDenotes(raw: string, s: string, n: nat)
    requires 6 <= n <= |s| && raw == s[..n] && s[0] == '"' && s[1] == '"' && s[2] == '"' && ThreeDouble(s, n - 3)
    ensures Rtos(raw) == AsCString(NormBasic(AfterNewline(s[3..n - 3]), true))
  {
    assert raw[3..n - 3] == s[3..n - 3] && raw[n - 3..] == ['"', '"', '"'];
  }

  /** The inside of a string that runs on does not denote the value. */
  lemma LongInside(v: string, body: string, r: string)
    requires Follows(r) && v != "" && v[0] == '"' && NormBasic(AfterNewline(body), true).Some?
    requires if |v| == 1 then body == "\n" + r else v == "\"\"" + v[2..] && body == RunOn(v[2..], "\"\n", r)
    ensures CString(NormBasic(AfterNewline(body), true).value) != v
  {
    if |v| == 1 {
      LoneQuote(v, r);
    } else {
      RunOnDiffers(v[2..], "\"\n", r);
    }
  }

  /** A token that runs on over the following lines does not denote the value. */
  lemma LongToken(v: string, rest: string, n: nat)
    requires Follows(rest) && ScanString(Behind(v, rest), false) == Some(n) && n > |v| + 2
    ensures n <= |Behind(v, rest)| && Rtos(Behind(v, rest)[..n]) != Some(v)
  {
    var s := Behind(v, rest);
    TokenEnds(v, rest, n);
    LongParts(v, rest, n);
    TripleDenotes(s[..n], s, n);
    if NormBasic(AfterNewline(s[3..n - 3]), true).Some? {
      LongInside(v, s[3..n - 3], rest[..n - |v| - 6]);
    }
  }

  /** A value that is a double quote alone. */
  lemma LoneQuote(v: string, r: string)
    requires |v| == 1 && v[0] == '"' && Follows(r) && NormBasic(AfterNewline("\n" + r), true).Some?
    ensures CString(NormBasic(AfterNewline("\n" + r), true).value) != v
  {
    assert AfterNewline("\n" + r) == r;
    FollowsKept(r, NormBasic(r, true).value);
  }

  /** A value that is not clean is not what its token denotes, wherever the token ends. */
  lemma DirtyValue(v: string, rest: string, n: nat)
    requires Follows(rest) && ScanString(Behind(v, rest), false) == Some(n) && !Clean(v)
    ensures n <= |Behind(v, rest)| && Rtos(Behind(v, rest)[..n]) != Some(v)
  {
    if n <= |v| + 2 {
      TokenEnds(v, rest, n);
      ShortToken(v, rest, n);
    } else {
      LongToken(v, rest, n);
    }
  }

  lemma ValueToken(v: string, rest: string, n: nat)
    requires ScanString(Behind(v, rest), false) == Some(n)
    ensures n <= |Behind(v, rest)|
    ensures NextToken(Behind(v, rest), false) == Some(Token(Str, Behind(v, rest)[..n], Behind(v, rest)[n..], false))
  {
    LineEndAt(v, rest);
  }

  lemma NoValueToken(v: string, rest: string)
    requires ScanString(Behind(v, rest), false).None?
    ensures NextToken(Behind(v, rest), false).None?
  {
    LineEndAt(v, rest);
  }

  // ---- the line of the value ----

  /** An entry with a bare key and a string. */
  lemma EntryRaw(tab: Table, k: string, value: string, raw: string, after: string)
    requires WritableKey(k) && NextToken(value, false) == Some(Token(Str, raw, after, false))
    requires ParseKeyval(tab, Token(Str, k, " = " + value, false)).Some?
    ensures ParseKeyval(tab, Token(Str, k, " = " + value, false)).value.0 == AddValue(tab, k, raw)
  {
    EqualToken(value);
    BareName(k);
    assert Advance(Token(Str, k, " = " + value, false), true) == Some(Token(Equal, "=", " " + value, false));
    assert Advance(Token(Equal, "=", " " + value, false), false) == Some(Token(Str, raw, after, false));
  }

  lemma EntryNone(tab: Table, k: string, value: string)
    requires WritableKey(k) && NextToken(value, false).None?
    ensures ParseKeyval(tab, Token(Str, k, " = " + value, false)).None?
  {
    EqualToken(value);
    assert Advance(Token(Str, k, " = " + value, false), true) == Some(Token(Equal, "=", " " + value, false));
    assert Advance(Token(Equal, "=", " " + value, false), false).None?;
  }

  /** If the line is an entry at all, it is one of another value. */
  lemma DirtyEntry(tab: Table, k: string, v: string, rest: string) returns (raw: string)
    requires WritableKey(k) && !Clean(v) && Follows(rest)
    requires ParseKeyval(tab, Token(Str, k, " = " + Behind(v, rest), false)).Some?
    ensures Rtos(raw) != Some(v)
    ensures ParseKeyval(tab, Token(Str, k, " = " + Behind(v, rest), false)).value.0 == AddValue(tab, k, raw)
  {
    if ScanString(Behind(v, rest), false).None? {
      NoValueToken(v, rest);
      EntryNone(tab, k, Behind(v, rest));
    }
    var n := ScanString(Behind(v, rest), false).value;
    ValueToken(v, rest, n);
    DirtyValue(v, rest, n);
    raw := Behind(v, rest)[..n];
    EntryRaw(tab, k, Behind(v, rest), raw, Behind(v, rest)[n..]);
  }

  // ---- the tree at the end ----

  /** The text read under a key of a section. */
  function TextIn(root: Table, name: string, k: string): Option<string> {
    match TableIn(root, name)
    case None => None
    case Some(tab) => StringIn(tab, k)
  }

  lemma PartDistinct(a: seq<string>, b: seq<string>, c: seq<string>)
    requires NoDuplicates(a + b + c)
    ensures NoDuplicates(b)
  {
    var ks := a + b + c;
    forall i, j | 0 <= i < j < |b| ensures b[i] != b[j] {
      assert ks[|a| + i] == b[i] && ks[|a| + j] == b[j];
    }
  }

  lemma FoundAt<T>(s: seq<Named<T>>, i: nat)
    requires NoDuplicates(Names(s)) && i < |s|
    ensures Index(s, s[i].0) == Some(i)
  {
    forall j, k | 0 <= j < k < |s| ensures s[j].0 != s[k].0 {
      assert s[j].0 == Names(s)[j] && s[k].0 == Names(s)[k];
    }
    IndexDistinct(s, i);
  }

  /** Where a section and an entry of it are in a valid tree. */
  lemma FoundThere(root: Table, i: nat, m: nat)
    requires Valid(root) && i < |root.tabs| && m < |root.tabs[i].1.kvals|
    ensures TextIn(root, root.tabs[i].0, root.tabs[i].1.kvals[m].0) == Rtos(root.tabs[i].1.kvals[m].1)
  {
    var tab := root.tabs[i].1;
    assert Names(root.kvals) + Names(root.arrs) + Names(root.tabs) + [] == TomlTree.Keys(root);
    PartDistinct(Names(root.kvals) + Names(root.arrs), Names(root.tabs), []);
    FoundAt(root.tabs, i);
    assert [] + Names(tab.kvals) + (Names(tab.arrs) + Names(tab.tabs)) == TomlTree.Keys(tab);
    PartDistinct([], Names(tab.kvals), Names(tab.arrs) + Names(tab.tabs));
    FoundAt(tab.kvals, m);
  }

  /** A value put into a section is there at the end. */
  lemma StaysThere(root: Table, i: nat, k: string, raw: string, end: Table)
    requires i < |root.tabs| && Valid(end)
    requires Within(PutTable(root, i, AddValue(root.tabs[i].1, k, raw)), end)
    ensures TextIn(end, root.tabs[i].0, k) == Rtos(raw)
  {
    var root1, m := PutTable(root, i, AddValue(root.tabs[i].1, k, raw)), |root.tabs[i].1.kvals|;
    assert root1.tabs[i].1.kvals[m] == (k, raw);
    assert root1.tabs[i].0 == end.tabs[i].0 && Within(root1.tabs[i].1, end.tabs[i].1);
    assert end.tabs[i].1.kvals[m] == (k, raw);
    FoundThere(end, i, m);
  }

  /** A line with a value that is not clean: whatever the whole file is read as, the value is not
      read under its key. */
  lemma DirtyLine(root: Table, name: string, i: nat, k: string, v: string, rest: string)
    requires Current(root, name, i) && At(root, [name]).Some? && root.tabs[i].0 == name
    requires WritableKey(k) && !Clean(v) && Follows(rest)
    requires Doc(root, [name], Line((k, Text(v))) + rest).Some?
    ensures TextIn(Doc(root, [name], Line((k, Text(v))) + rest).value, name, k) != Some(v)
  {
    var tok := Token(Str, k, " = " + Behind(v, rest), false);
    CurrentAt(root, name, i);
    LineParts((k, Text(v)), rest);
    KeyToken(k, " = " + Behind(v, rest));
    assert Advance(Token(Newline, "", Line((k, Text(v))) + rest, false), true) == Some(tok);
    var raw := DirtyEntry(root.tabs[i].1, k, v, rest);
    EntryStays(root, [name], tok);
    StaysThere(root, i, k, raw, ParseLines(root, [name], tok).value);
  }

  /** What an entry has made of the current table is within the tree at the end. */
  lemma EntryStays(root: Table, path: seq<string>, tok: Token)
    requires WellFormed(tok) && tok.kind == Str && !tok.eof && Valid(root) && At(root, path).Some?
    requires ParseLines(root, path, tok).Some?
    ensures ParseKeyval(At(root, path).value, tok).Some?
    ensures Within(Replace(root, path, ParseKeyval(At(root, path).value, tok).value.0), ParseLines(root, path, tok).value)
  {
    var (cur, end) := ParseKeyval(At(root, path).value, tok).value;
    EntryKeeps(root, path, tok);
    LinesOnlyAdd(Replace(root, path, cur), path, Advance(end, true).value);
  }

  // ---- reading it ----

  lemma {:induction false} SetGets(s: seq<Pair>, key: string, val: string, other: string)
    ensures Get(Set(s, key, val), other) == if other == key then Some(val) else Get(s, other)
    decreases |s|
  {
    if s != [] {
      if s[0].0 == key {
        assert Set(s, key, val)[1..] == s[1..];
      } else {
        SetGets(s[1..], key, val, other);
        assert Set(s, key, val)[1..] == Set(s[1..], key, val);
      }
    }
  }

  /** What is read for a key of a section is the text under it. */
  lemma {:induction false} ReadIsText(tab: Table, n: nat, s: seq<Pair>, k: string, v: string)
    requires Get(ReadPairs(tab, n, s), k) == Some(v)
    ensures Get(s, k) == Some(v) || StringIn(tab, k) == Some(v)
    decreases |TomlTree.Keys(tab)| - n
  {
    KeyInEnumerates(tab, n);
    if KeyIn(tab, n).Some? {
      var key := KeyIn(tab, n).value;
      if StringIn(tab, key).Some? {
        ReadIsText(tab, n + 1, Set(s, key, StringIn(tab, key).value), k, v);
        SetGets(s, key, StringIn(tab, key).value, k);
      } else {
        ReadIsText(tab, n + 1, s, k, v);
      }
    }
  }

  lemma SectionIsText(root: Table, name: string, k: string, v: string)
    requires Get(ReadSection(root, name), k) == Some(v)
    ensures TextIn(root, name, k) == Some(v)
  {
    ReadIsText(TableIn(root, name).value, 0, [], k, v);
  }

  // ---- the three sections ----

  /** What the file gives is nothing, or a tree in which the text is not under the key. */
  ghost predicate Lost(r: Option<Table>, name: string, k: string, v: string) {
    r.Some? ==> TextIn(r.value, name, k) != Some(v)
  }

  /** A section with a line that is not clean behind clean ones. */
  lemma DirtySection(root: Table, path: seq<string>, name: string, m: seq<Entry>, k: string, v: string, rest: string)
    requires Valid(root) && At(root, path).Some? && WritableKey(name) && CheckKey(root, name) == Nowhere
    requires WritableAfter(TomlTree.EMPTY, m) && (forall j :: 0 <= j < |m| ==> m[j].0 != k)
    requires WritableKey(k) && !Clean(v) && Follows(rest)
    ensures Lost(Doc(root, path, Header(name) + (Lines(m) + (Line((k, Text(v))) + rest))), name, k, v)
  {
    var i, back := |root.tabs|, Line((k, Text(v))) + rest;
    var root1 := AddTable(root, name, TomlTree.EMPTY);
    var root2 := PutTable(root1, i, Section(m));
    HeaderDoc(root, path, name, Lines(m) + back);
    LinesKeep(root1, name, i, m);
    LinesParse(root1, name, i, m, back, root2);
    SectionValues(m);
    if Doc(root2, [name], back).Some? {
      DirtyLine(root2, name, i, k, v, rest);
    }
  }

  lemma DirtyFirst(x: string, m: seq<Entry>, k: string, v: string, rest: string)
    requires WritableKey(x) && WritableAfter(TomlTree.EMPTY, m) && (forall j :: 0 <= j < |m| ==> m[j].0 != k)
    requires WritableKey(k) && !Clean(v) && Follows(rest)
    requires Valid(TomlTree.EMPTY) && At(TomlTree.EMPTY, []).Some?
    ensures Lost(Doc(TomlTree.EMPTY, [], Header(x) + (Lines(m) + (Line((k, Text(v))) + rest))), x, k, v)
  {
    NameAbsent(TomlTree.EMPTY, x);
    DirtySection(TomlTree.EMPTY, [], x, m, k, v, rest);
  }

  /** The same behind one more section. */
  lemma DirtyBehind(root: Table, path: seq<string>, x: string, m: seq<Entry>, y: string, front: seq<Entry>,
                    k: string, v: string, rest: string)
    requires Valid(root) && At(root, path).Some? && root.kvals == [] && root.arrs == []
    requires forall j :: 0 <= j < |root.tabs| ==> root.tabs[j].0 != x && root.tabs[j].0 != y
    requires WritableKey(x) && WritableKey(y) && x != y && WritableAfter(TomlTree.EMPTY, m)
    requires WritableAfter(TomlTree.EMPTY, front) && (forall j :: 0 <= j < |front| ==> front[j].0 != k)
    requires WritableKey(k) && !Clean(v) && Follows(rest)
    ensures Lost(Doc(root, path, Header(x) + (Lines(m) + ("\n"
      + (Header(y) + (Lines(front) + (Line((k, Text(v))) + rest)))))), y, k, v)
  {
    var root1 := AddTable(root, x, Section(m));
    NameAbsent(root, x);
    SectionAndBlank(root, path, x, m, Header(y) + (Lines(front) + (Line((k, Text(v))) + rest)));
    NameAbsent(root1, y);
    DirtySection(root1, [x], y, front, k, v, rest);
  }

  lemma DirtySecond(x: string, m: seq<Entry>, y: string, front: seq<Entry>, k: string, v: string, rest: string)
    requires WritableKey(x) && WritableKey(y) && x != y && WritableAfter(TomlTree.EMPTY, m)
    requires WritableAfter(TomlTree.EMPTY, front) && (forall j :: 0 <= j < |front| ==> front[j].0 != k)
    requires WritableKey(k) && !Clean(v) && Follows(rest)
    requires Valid(TomlTree.EMPTY) && At(TomlTree.EMPTY, []).Some?
    ensures Lost(Doc(TomlTree.EMPTY, [], Header(x) + (Lines(m) + ("\n"
      + (Header(y) + (Lines(front) + (Line((k, Text(v))) + rest)))))), y, k, v)
  {
    DirtyBehind(TomlTree.EMPTY, [], x, m, y, front, k, v, rest);
  }

  lemma DirtyThird(x: string, m: seq<Entry>, y: string, s: seq<Entry>, z: string, front: seq<Entry>, k: string, v: string,
                   rest: string)
    requires WritableKey(x) && WritableKey(y) && WritableKey(z) && x != y && x != z && y != z
    requires WritableAfter(TomlTree.EMPTY, m) && WritableAfter(TomlTree.EMPTY, s)
    requires WritableAfter(TomlTree.EMPTY, front) && (forall j :: 0 <= j < |front| ==> front[j].0 != k)
    requires WritableKey(k) && !Clean(v) && Follows(rest)
    requires Valid(TomlTree.EMPTY) && At(TomlTree.EMPTY, []).Some?
    ensures Lost(Doc(TomlTree.EMPTY, [], Header(x) + (Lines(m) + ("\n" + (Header(y) + (Lines(s) + ("\n"
      + (Header(z) + (Lines(front) + (Line((k, Text(v))) + rest))))))))), z, k, v)
  {
    NameAbsent(TomlTree.EMPTY, x);
    SectionAndBlank(TomlTree.EMPTY, [], x, m, Header(y) + (Lines(s) + ("\n"
      + (Header(z) + (Lines(front) + (Line((k, Text(v))) + rest))))));
    DirtyBehind(AddTable(TomlTree.EMPTY, x, Section(m)), [x], y, s, z, front, k, v, rest);
  }

  /** A whole file. */
  lemma ParseIsDoc(text: string)
    requires NoNul(text)
    ensures Valid(TomlTree.EMPTY) && At(TomlTree.EMPTY, []).Some? && Parse(text) == Doc(TomlTree.EMPTY, [], text)
  {
    CStringWhole(text);
    EmptyValid();
  }

  // ---- whole stores ----

  /** Distinct keys that can be written, with any values. */
  ghost predicate Keyed(s: seq<Pair>) {
    Distinct(s) && forall i :: 0 <= i < |s| ==> WritableKey(s[i].0)
  }

  /** Lines are followed by a key, or by what follows them all. */
  lemma LinesFollow(s: seq<Pair>, rest: string)
    requires (forall i :: 0 <= i < |s| ==> WritableKey(s[i].0)) && Follows(rest)
    ensures Follows(Lines(Texts(s)) + rest)
  {
    if s == [] {
      assert Lines(Texts(s)) + rest == rest;
    } else {
      var e := (s[0].0, Text(s[0].1));
      assert KeyChar(s[0].0[0]);
      LineParts(e, "");
      assert (Lines(Texts(s)) + rest)[0] == Line(e)[0] == s[0].0[0];
    }
  }

  lemma RestFollows(s: seq<Pair>, n: nat, rest: string)
    requires Keyed(s) && n < |s| && Follows(rest)
    ensures Follows(Lines(Texts(s[n + 1..])) + rest)
  {
    var back := s[n + 1..];
    forall i | 0 <= i < |back| ensures WritableKey(back[i].0) {
      assert back[i] == s[n + 1 + i];
    }
    LinesFollow(back, rest);
  }

  /** The file behind the lines of the answers. */
  function BehindAnswers(a: Record): string {
    "\n" + (Header("stage_status") + (Lines(Texts(a.status)) + ""))
  }

  /** The file behind the line of answer `n`. */
  function AfterAnswer(a: Record, n: nat): string
    requires n < |a.answers|
  {
    Lines(Texts(a.answers[n + 1..])) + BehindAnswers(a)
  }

  lemma FrontWritable(s: seq<Pair>, n: nat)
    requires Keyed(s) && n < |s| && forall j :: 0 <= j < n ==> Clean(s[j].1)
    ensures WritableAfter(TomlTree.EMPTY, Texts(s[..n]))
    ensures forall j :: 0 <= j < n ==> Texts(s[..n])[j].0 != s[n].0
    ensures Get(s, s[n].0) == Some(s[n].1)
  {
    PairsWritable(s[..n]);
    GetFirst(s, s[n].0, n);
  }

  lemma SplitAt(s: seq<Pair>, n: nat, rest: string)
    requires n < |s|
    ensures Lines(Texts(s)) + rest == Lines(Texts(s[..n])) + (Line((s[n].0, Text(s[n].1))) + (Lines(Texts(s[n + 1..])) + rest))
  {
    assert s == s[..n] + [s[n]] + s[n + 1..];
    SplitLines(s[..n], s[n], s[n + 1..], rest);
  }

  /** The first value that is not clean is an answer: it is not read back. */
  lemma DirtyAnswer(a: Record, n: nat)
    requires (a.flavor.Some? ==> Clean(a.flavor.value)) && Keyed(a.answers) && NoNul(Save(a))
    requires n < |a.answers| && !Clean(a.answers[n].1) && forall j :: 0 <= j < n ==> Clean(a.answers[j].1)
    ensures Load(Save(a)) != a
  {
    var k, v, front := a.answers[n].0, a.answers[n].1, Texts(a.answers[..n]);
    ParseIsDoc(Save(a));
    SaveParts(a);
    SplitAt(a.answers, n, BehindAnswers(a));
    WordsWritable();
    MetaOnly(a);
    FrontWritable(a.answers, n);
    RestFollows(a.answers, n, BehindAnswers(a));
    DirtySecond("meta", MetaEntries(a), "answers", front, k, v, AfterAnswer(a, n));
    NotRead(Save(a), a, k, v);
  }

  lemma NotRead(text: string, a: Record, k: string, v: string)
    requires Lost(Parse(text), "answers", k, v) && Get(a.answers, k) == Some(v)
    ensures Load(text) != a
  {
    if Parse(text).Some? && Load(text) == a {
      SectionIsText(Parse(text).value, "answers", k, v);
    }
  }

  /** The first value that is not clean is a status. */
  lemma DirtyStatus(a: Record, n: nat)
    requires (a.flavor.Some? ==> Clean(a.flavor.value)) && SaveablePairs(a.answers) && Keyed(a.status) && NoNul(Save(a))
    requires n < |a.status| && !Clean(a.status[n].1) && forall j :: 0 <= j < n ==> Clean(a.status[j].1)
    ensures Load(Save(a)) != a
  {
    var k, v, front := a.status[n].0, a.status[n].1, Texts(a.status[..n]);
    ParseIsDoc(Save(a));
    SaveParts(a);
    SplitAt(a.status, n, "");
    WordsWritable();
    MetaOnly(a);
    PairsWritable(a.answers);
    FrontWritable(a.status, n);
    RestFollows(a.status, n, "");
    DirtyThird("meta", MetaEntries(a), "answers", Texts(a.answers), "stage_status", front, k, v,
               Lines(Texts(a.status[n + 1..])) + "");
    StatusNotRead(Save(a), a, k, v);
  }

  lemma StatusNotRead(text: string, a: Record, k: string, v: string)
    requires Lost(Parse(text), "stage_status", k, v) && Get(a.status, k) == Some(v)
    ensures Load(text) != a
  {
    if Parse(text).Some? && Load(text) == a {
      SectionIsText(Parse(text).value, "stage_status", k, v);
    }
  }

  /** The first section: the schema, the flavor and the flags. */
  function FlagEntries(a: Record): seq<Entry> {
    [("install_done", Word(Truth(a.installDone))), ("oobe_done", Word(Truth(a.oobeDone)))]
  }

  const SCHEMA: seq<Entry> := [("schema", Word("1"))]

  lemma MetaSplit(a: Record, rest: string)
    requires a.flavor.Some?
    ensures Lines(MetaEntries(a)) + rest
         == Lines(SCHEMA) + (Line(("flavor", Text(a.flavor.value))) + (Lines(FlagEntries(a)) + rest))
  {
    var e := ("flavor", Text(a.flavor.value));
    assert MetaEntries(a) == SCHEMA + ([e] + FlagEntries(a));
    LinesConcat(SCHEMA, [e] + FlagEntries(a));
    assert ([e] + FlagEntries(a))[1..] == FlagEntries(a);
    Regroup(Lines(SCHEMA), Line(e) + Lines(FlagEntries(a)), rest);
    Regroup(Line(e), Lines(FlagEntries(a)), rest);
  }

  /** The file behind the lines of the first section. */
  function BehindMeta(a: Record): string {
    "\n" + (Header("answers") + (Lines(Texts(a.answers)) + BehindAnswers(a)))
  }

  /** The flavor is not clean. */
  lemma DirtyFlavor(a: Record)
    requires a.flavor.Some? && !Clean(a.flavor.value) && NoNul(Save(a))
    ensures Load(Save(a)) != a
  {
    ParseIsDoc(Save(a));
    SaveParts(a);
    MetaSplit(a, BehindMeta(a));
    WordsWritable();
    SchemaWritable();
    FlagsFollow(a, BehindMeta(a));
    DirtyFirst("meta", SCHEMA, "flavor", a.flavor.value, Lines(FlagEntries(a)) + BehindMeta(a));
    FlavorNotRead(Save(a), a);
  }

  lemma FlagsFollow(a: Record, rest: string)
    ensures Follows(Lines(FlagEntries(a)) + rest)
  {
    var e := ("install_done", Word(Truth(a.installDone)));
    assert FlagEntries(a)[0] == e;
    LineParts(e, "");
    assert Line(e)[0] == 'i';
    assert (Lines(FlagEntries(a)) + rest)[0] == 'i';
  }

  lemma SchemaWritable()
    ensures WritableAfter(TomlTree.EMPTY, SCHEMA) && forall j :: 0 <= j < |SCHEMA| ==> SCHEMA[j].0 != "flavor"
  {
    WordsWritable();
    WordFits("schema", "1");
  }

  lemma FlavorNotRead(text: string, a: Record)
    requires a.flavor.Some? && Lost(Parse(text), "meta", "flavor", a.flavor.value)
    ensures Load(text) != a
  {}

  // ---- exactly the clean stores ----

  lemma FirstDirty(s: seq<Pair>) returns (n: nat)
    requires Keyed(s) && !SaveablePairs(s)
    ensures n < |s| && !Clean(s[n].1) && forall j :: 0 <= j < n ==> Clean(s[j].1)
  {
    n := 0;
    while n < |s| && Clean(s[n].1)
      invariant n <= |s| && forall j :: 0 <= j < n ==> Clean(s[j].1)
    {
      n := n + 1;
    }
  }

  /** Every store under distinct keys that can be written, with values of any kind: loading what was
      saved gives the same store exactly when every value is clean. */
  lemma LoadSavedIff(a: Record)
    requires Keyed(a.answers) && Keyed(a.status) && NoNul(Save(a))
    ensures Load(Save(a)) == a <==> Saveable(a)
  {
    if Saveable(a) {
      LoadSaved(a);
    } else if a.flavor.Some? && !Clean(a.flavor.value) {
      DirtyFlavor(a);
    } else if !SaveablePairs(a.answers) {
      var n := FirstDirty(a.answers);
      DirtyAnswer(a, n);
    } else {
      var n := FirstDirty(a.status);
      DirtyStatus(a, n);
    }
  }
}
