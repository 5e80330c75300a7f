// The text of answers.toml: what bp_answers_save writes and what bp_answers_load makes of it.

module AnswersFile {
  import opened Wrappers
  import opened Pairs
  import opened Answers
  import opened TomlString
  import opened TomlSpelling
  import opened TomlLexer
  import opened TomlTree
  import opened TomlParser
  import opened TomlDocument
  import opened AnswersText

  // ---- writing ----

  /** What stands behind the equals sign: a bare word, or a text in quotes, not escaped. */
  datatype Written = Word(w: string) | Text(v: string)

  function RawText(x: Written): string {
    match x
    case Word(w) => w
    case Text(v) => Quoted(v)
  }

  type Entry = (string, Written)

  function Line(e: Entry): string {
    e.0 + " = " + RawText(e.1) + "\n"
  }

  function Lines(s: seq<Entry>): string {
    if s == [] then "" else Line(s[0]) + Lines(s[1..])
  }

  function Truth(b: bool): string {
    if b then "true" else "false"
  }

  function MetaEntries(a: Record): seq<Entry> {
    [("schema", Word("1"))]
    + (if a.flavor.Some? then [("flavor", Text(a.flavor.value))] else [])
    + [("install_done", Word(Truth(a.installDone))), ("oobe_done", Word(Truth(a.oobeDone)))]
  }

  function Texts(s: seq<Pair>): (es: seq<Entry>)
    ensures |es| == |s| && forall i :: 0 <= i < |s| ==> es[i] == (s[i].0, Text(s[i].1))
  {
    seq(|s|, i requires 0 <= i < |s| => (s[i].0, Text(s[i].1)))
  }

  function Header(name: string): string {
    "[" + name + "]\n"
  }

  /** bp_answers_save */
  function Save(a: Record): string {
    Header("meta") + Lines(MetaEntries(a)) + "\n"
    + Header("answers") + Lines(Texts(a.answers)) + "\n"
    + Header("stage_status") + Lines(Texts(a.status))
  }

  // ---- reading ----

  function TableIn(tab: Table, key: string): Option<Table> {
    match Index(tab.tabs, key)
    case None => None
    case Some(i) => Some(tab.tabs[i].1)
  }

  function RawIn(tab: Table, key: string): Option<string> {
    match Index(tab.kvals, key)
    case None => None
    case Some(i) => Some(tab.kvals[i].1)
  }

  function StringIn(tab: Table, key: string): Option<string> {
    match RawIn(tab, key)
    case None => None
    case Some(raw) => Rtos(raw)
  }

  /** toml_bool_in, with false for anything but a boolean. */
  function FlagIn(tab: Table, key: string): bool {
    RawIn(tab, key) == Some("true")
  }

  /** The strings among the keys from number `n` on, set one after the other. */
  function ReadPairs(tab: Table, n: nat, s: seq<Pair>): seq<Pair>
    decreases |TomlTree.Keys(tab)| - n
  {
    KeyInEnumerates(tab, n);
    match KeyIn(tab, n)
    case None => s
    case Some(k) =>
      match StringIn(tab, k)
      case None => ReadPairs(tab, n + 1, s)
      case Some(v) => ReadPairs(tab, n + 1, Set(s, k, v))
  }

  function ReadSection(root: Table, name: string): seq<Pair> {
    match TableIn(root, name)
    case None => []
    case Some(tab) => ReadPairs(tab, 0, [])
  }

  /** The store that a tree is read as. */
  function Loaded(root: Table): Record {
    var meta := TableIn(root, "meta");
    Record(
      if meta.Some? then StringIn(meta.value, "flavor") else None,
      meta.Some? && FlagIn(meta.value, "install_done"),
      meta.Some? && FlagIn(meta.value, "oobe_done"),
      ReadSection(root, "answers"), ReadSection(root, "stage_status"))
  }

  /** bp_answers_load on the text of the file: the empty store if it does not parse. */
  function Load(text: string): Record {
    match Parse(text)
    case None => Answers.EMPTY
    case Some(root) => Loaded(root)
  }

  // ---- parsing what is written, line by line ----

  /** What the parser makes of a text from the beginning of a line on. */
  function Doc(root: Table, path: seq<string>, text: string): Option<Table>
    requires Valid(root) && At(root, path).Some?
  {
    match Advance(Token(Newline, "", text, false), true)
    case None => None
    case Some(t) => ParseLines(root, path, t)
  }

  /** The parser goes on behind the end of a line. */
  lemma DocAtNewline(root: Table, path: seq<string>, text: string)
    requires Valid(root) && At(root, path).Some?
    ensures ParseLines(root, path, Token(Newline, "\n", text, false)) == Doc(root, path, text)
  {
    assert Advance(Token(Newline, "\n", text, false), true) == Advance(Token(Newline, "", text, false), true);
  }

  lemma NewlineToken(rest: string)
    ensures NextToken("\n" + rest, true) == Some(Token(Newline, "\n", rest, false))
  {
    assert ("\n" + rest)[1..] == rest;
  }

  lemma DocBlank(root: Table, path: seq<string>, rest: string)
    requires Valid(root) && At(root, path).Some?
    ensures Doc(root, path, "\n" + rest) == Doc(root, path, rest)
  {
    NewlineToken(rest);
    DocAtNewline(root, path, rest);
  }

  lemma DocEnd(root: Table, path: seq<string>)
    requires Valid(root) && At(root, path).Some?
    ensures Doc(root, path, "") == Some(root)
  {}

  ghost predicate WritableEntry(e: Entry) {
    WritableKey(e.0) &&
    match e.1
    case Word(w) => w != "" && BareKey(w) && !DateLike(w)
    case Text(v) => Clean(v)
  }

  lemma RawReads(e: Entry, rest: string)
    requires WritableEntry(e)
    ensures ReadsAs(RawText(e.1), rest)
  {
    match e.1
    case Word(w) => WordReads(w, rest);
    case Text(v) => CleanReads(v, rest);
  }

  lemma EqualToken(rest: string)
    ensures NextToken(" = " + rest, true) == Some(Token(Equal, "=", " " + rest, false))
    ensures NextToken(" " + rest, false) == NextToken(rest, false)
  {
    assert (" = " + rest)[1..] == "= " + rest && ("= " + rest)[1..] == " " + rest;
    assert (" " + rest)[1..] == rest;
  }

  lemma BareName(name: string)
    requires WritableKey(name)
    ensures name[0] != '[' && NormalizeKey(name) == Some(name)
  {
    assert KeyChar(name[0]);
  }

  lemma EntryWhen(tab: Table, tok: Token, t: Token, val: Token, end: Token, key: string)
    requires WellFormed(tok) && !tab.readonly && tok.kind == Str && NormalizeKey(tok.text) == Some(key)
    requires Advance(tok, true) == Some(t) && t.kind == Equal && Advance(t, false) == Some(val)
    requires val.kind == Str && CheckKey(tab, key) == Nowhere && Advance(val, true) == Some(end)
    ensures ParseKeyval(tab, tok) == Some((AddValue(tab, key, val.text), end))
  {}

  /** One written entry is one new value in the table. */
  lemma EntryParses(tab: Table, e: Entry, rest: string)
    requires WritableEntry(e) && !tab.readonly && CheckKey(tab, e.0) == Nowhere
    ensures ParseKeyval(tab, Token(Str, e.0, " = " + (RawText(e.1) + ("\n" + rest)), false))
         == Some((AddValue(tab, e.0, RawText(e.1)), Token(Newline, "\n", rest, false)))
  {
    var value := RawText(e.1) + ("\n" + rest);
    EqualToken(value);
    RawReads(e, rest);
    NewlineToken(rest);
    BareName(e.0);
    EntryWhen(tab, Token(Str, e.0, " = " + value, false), Token(Equal, "=", " " + value, false),
              Token(Str, RawText(e.1), "\n" + rest, false), Token(Newline, "\n", rest, false), e.0);
  }

  /** The table under a name in the root. */
  ghost predicate Current(root: Table, name: string, i: nat) {
    Valid(root) && CheckKey(root, name) == InTables(i) && !root.tabs[i].1.readonly
  }

  lemma CurrentAt(root: Table, name: string, i: nat)
    requires Current(root, name, i)
    ensures At(root, [name]) == Some(root.tabs[i].1)
    ensures forall new_ :: Replace(root, [name], new_) == PutTable(root, i, new_)
  {
    assert [name][1..] == [];
  }

  lemma CurrentPut(root: Table, name: string, i: nat, sub: Table)
    requires Current(root, name, i) && Valid(sub) && !sub.readonly
    ensures Current(PutTable(root, i, sub), name, i)
  {
    CheckPutTable(root, i, sub, name);
    PutTableValid(root, i, sub);
  }

  /** A line that is an entry, for the parser: the entry is put in place and it goes on behind. */
  lemma EntryDoc(root: Table, path: seq<string>, text: string, tok: Token, cur: Table, rest: string)
    requires Valid(root) && At(root, path).Some?
    requires NextToken(text, true) == Some(tok) && WellFormed(tok) && tok.kind == Str && !tok.eof
    requires ParseKeyval(At(root, path).value, tok) == Some((cur, Token(Newline, "\n", rest, false)))
    ensures Valid(Replace(root, path, cur)) && At(Replace(root, path, cur), path).Some?
    ensures Doc(root, path, text) == Doc(Replace(root, path, cur), path, rest)
  {
    EntryKeeps(root, path, tok);
    assert Advance(Token(Newline, "", text, false), true) == Some(tok);
    assert Advance(Token(Newline, "\n", rest, false), true) == Advance(Token(Newline, "", rest, false), true);
  }

  /** One written line in a section. */
  lemma LineParses(root: Table, name: string, i: nat, e: Entry, rest: string)
    requires Current(root, name, i) && At(root, [name]).Some? && WritableEntry(e)
    requires CheckKey(root.tabs[i].1, e.0) == Nowhere
    ensures var root1 := PutTable(root, i, AddValue(root.tabs[i].1, e.0, RawText(e.1)));
            Current(root1, name, i) && At(root1, [name]).Some?
            && Doc(root, [name], Line(e) + rest) == Doc(root1, [name], rest)
  {
    LineKeeps(root, name, i, e);
    LineDoc(root, name, i, e, rest);
  }

  lemma LineKeeps(root: Table, name: string, i: nat, e: Entry)
    requires Current(root, name, i) && CheckKey(root.tabs[i].1, e.0) == Nowhere
    ensures Current(PutTable(root, i, AddValue(root.tabs[i].1, e.0, RawText(e.1))), name, i)
    ensures At(PutTable(root, i, AddValue(root.tabs[i].1, e.0, RawText(e.1))), [name]).Some?
  {
    var cur1 := AddValue(root.tabs[i].1, e.0, RawText(e.1));
    AddValueValid(root.tabs[i].1, e.0, RawText(e.1));
    CurrentPut(root, name, i, cur1);
    CurrentAt(PutTable(root, i, cur1), name, i);
  }

  lemma Regroup(a: string, b: string, c: string)
    ensures (a + b) + c == a + (b + c)
  {}

  lemma FourParts(a: string, b: string, c: string, d: string, e: string)
    ensures a + b + c + d + e == a + (b + (c + (d + e)))
  {
    Regroup(a + b + c, d, e);
    Regroup(a + b, c, d + e);
    Regroup(a, b, c + (d + e));
  }

  lemma LineParts(e: Entry, rest: string)
    ensures Line(e) + rest == e.0 + (" = " + (RawText(e.1) + ("\n" + rest)))
  {
    FourParts(e.0, " = ", RawText(e.1), "\n", rest);
  }

  lemma LineToken(e: Entry, back: string, rest: string)
    requires WritableEntry(e) && back == " = " + (RawText(e.1) + ("\n" + rest))
    ensures NextToken(Line(e) + rest, true) == Some(Token(Str, e.0, back, false))
  {
    LineParts(e, rest);
    KeyToken(e.0, back);
  }

  lemma LineDoc(root: Table, name: string, i: nat, e: Entry, rest: string)
    requires Current(root, name, i) && At(root, [name]).Some? && WritableEntry(e)
    requires CheckKey(root.tabs[i].1, e.0) == Nowhere
    requires Valid(PutTable(root, i, AddValue(root.tabs[i].1, e.0, RawText(e.1))))
    requires At(PutTable(root, i, AddValue(root.tabs[i].1, e.0, RawText(e.1))), [name]).Some?
    ensures Doc(root, [name], Line(e) + rest)
         == Doc(PutTable(root, i, AddValue(root.tabs[i].1, e.0, RawText(e.1))), [name], rest)
  {
    var cur := root.tabs[i].1;
    var back := " = " + (RawText(e.1) + ("\n" + rest));
    CurrentAt(root, name, i);
    LineToken(e, back, rest);
    EntryParses(cur, e, rest);
    EntryDoc(root, [name], Line(e) + rest, Token(Str, e.0, back, false), AddValue(cur, e.0, RawText(e.1)), rest);
  }

  // ---- sections ----

  /** The values of a section put into a table. */
  function AddAll(tab: Table, s: seq<Entry>): Table
    decreases |s|
  {
    if s == [] then tab else AddAll(AddValue(tab, s[0].0, RawText(s[0].1)), s[1..])
  }

  /** An entry that can be written behind those of the table. */
  ghost predicate Fits(tab: Table, e: Entry) {
    WritableEntry(e) && CheckKey(tab, e.0) == Nowhere
  }

  /** Entries that can be written one after the other behind those of the table. */
  ghost predicate WritableAfter(tab: Table, s: seq<Entry>) {
    && (forall j :: 0 <= j < |s| ==> Fits(tab, s[j]))
    && (forall j, k :: 0 <= j < k < |s| ==> s[j].0 != s[k].0)
  }

  lemma AddedAbsent(tab: Table, key: string, raw: string, other: string)
    requires CheckKey(tab, other) == Nowhere && key != other
    ensures CheckKey(AddValue(tab, key, raw), other) == Nowhere
  {
    NowhereIffAbsent(tab, other);
    NowhereIffAbsent(AddValue(tab, key, raw), other);
    NamesSnoc(tab.kvals, key, raw);
  }

  lemma WritableRest(tab: Table, s: seq<Entry>)
    requires s != [] && WritableAfter(tab, s)
    ensures WritableAfter(AddValue(tab, s[0].0, RawText(s[0].1)), s[1..])
  {
    var rest := s[1..];
    forall j | 0 <= j < |rest| ensures Fits(AddValue(tab, s[0].0, RawText(s[0].1)), rest[j]) {
      assert Fits(tab, s[j + 1]);
      AddedAbsent(tab, s[0].0, RawText(s[0].1), s[j + 1].0);
    }
  }

  lemma PutTwice(root: Table, i: nat, x: Table, y: Table)
    requires i < |root.tabs|
    ensures PutTable(PutTable(root, i, x), i, y) == PutTable(root, i, y)
  {
    assert root.tabs[i := (root.tabs[i].0, x)][i := (root.tabs[i].0, y)] == root.tabs[i := (root.tabs[i].0, y)];
  }

  lemma PutSame(root: Table, i: nat)
    requires i < |root.tabs|
    ensures PutTable(root, i, root.tabs[i].1) == root
  {
    assert root.tabs[i := (root.tabs[i].0, root.tabs[i].1)] == root.tabs;
  }

  /** The values of a section keep the tree valid and its table the current one. */
  lemma {:induction false} LinesKeep(root: Table, name: string, i: nat, s: seq<Entry>)
    requires Current(root, name, i) && WritableAfter(root.tabs[i].1, s)
    ensures Current(PutTable(root, i, AddAll(root.tabs[i].1, s)), name, i)
    ensures At(PutTable(root, i, AddAll(root.tabs[i].1, s)), [name]).Some?
    decreases |s|
  {
    var cur := root.tabs[i].1;
    if s == [] {
      PutSame(root, i);
      CurrentAt(root, name, i);
    } else {
      var cur1 := AddValue(cur, s[0].0, RawText(s[0].1));
      assert Fits(cur, s[0]);
      LineKeeps(root, name, i, s[0]);
      WritableRest(cur, s);
      LinesKeep(PutTable(root, i, cur1), name, i, s[1..]);
      PutTwice(root, i, cur1, AddAll(cur1, s[1..]));
    }
  }

  /** The lines of a section, read one after the other. */
  lemma {:induction false} LinesParse(root: Table, name: string, i: nat, s: seq<Entry>, rest: string, root1: Table)
    requires Current(root, name, i) && At(root, [name]).Some? && WritableAfter(root.tabs[i].1, s)
    requires root1 == PutTable(root, i, AddAll(root.tabs[i].1, s)) && Valid(root1) && At(root1, [name]).Some?
    ensures Doc(root, [name], Lines(s) + rest) == Doc(root1, [name], rest)
    decreases |s|
  {
    var cur := root.tabs[i].1;
    if s == [] {
      assert Lines(s) + rest == rest;
      PutSame(root, i);
    } else {
      var cur1 := AddValue(cur, s[0].0, RawText(s[0].1));
      Regroup(Line(s[0]), Lines(s[1..]), rest);
      assert Fits(cur, s[0]);
      LineParses(root, name, i, s[0], Lines(s[1..]) + rest);
      WritableRest(cur, s);
      PutTwice(root, i, cur1, AddAll(cur1, s[1..]));
      LinesParse(PutTable(root, i, cur1), name, i, s[1..], rest, root1);
    }
  }

  // ---- headers ----

  lemma OpenBracket(name: string, rest: string)
    ensures NextToken(Header(name) + rest, true) == Some(Token(LBracket, "[", name + "]\n" + rest, false))
  {
    var s := Header(name) + rest;
    assert s[0] == '[' && s[1..] == name + "]\n" + rest;
  }

  lemma NameToken(name: string, rest: string)
    requires WritableKey(name)
    ensures NextToken(name + "]\n" + rest, true) == Some(Token(Str, name, "]\n" + rest, false))
  {
    assert name + "]\n" + rest == name + ("]\n" + rest);
    KeyToken(name, "]\n" + rest);
  }

  lemma CloseBracket(rest: string)
    ensures NextToken("]\n" + rest, true) == Some(Token(RBracket, "]", "\n" + rest, false))
  {
    assert ("]\n" + rest)[1..] == "\n" + rest;
  }

  lemma HeaderKeysWhen(tok: Token, key: Token, close: Token, name: string)
    requires WellFormed(tok) && tok.kind == LBracket && Advance(tok, true) == Some(key)
    requires key.kind == Str && NormalizeKey(key.text) == Some(name) && Advance(key, true) == Some(close)
    requires close.kind == RBracket
    ensures HeaderKeys(tok, false) == Some(([name], close))
  {}

  /** The keys of a written header. */
  lemma HeaderKeysParse(name: string, rest: string)
    requires WritableKey(name)
    ensures Second(Token(LBracket, "[", name + "]\n" + rest, false)) != "["
    ensures HeaderKeys(Token(LBracket, "[", name + "]\n" + rest, false), false)
         == Some(([name], Token(RBracket, "]", "\n" + rest, false)))
  {
    NameToken(name, rest);
    CloseBracket(rest);
    BareName(name);
    var text := name + "]\n" + rest;
    SecondOf("[", text);
    HeaderKeysWhen(Token(LBracket, "[", text, false), Token(Str, name, "]\n" + rest, false),
                   Token(RBracket, "]", "\n" + rest, false), name);
  }

  lemma SecondOf(bracket: string, text: string)
    requires |bracket| == 1 && text != "" && text[0] != '['
    ensures Second(Token(LBracket, bracket, text, false)) != "["
  {
    assert (bracket + text)[1] == text[0];
  }

  /** A written header, up to its line end. */
  lemma HeaderParses(root: Table, name: string, rest: string)
    requires WritableKey(name) && CheckKey(root, name) == Nowhere
    ensures ParseSelect(root, Token(LBracket, "[", name + "]\n" + rest, false))
         == Some((AddTable(root, name, TomlTree.EMPTY), [name], Token(Newline, "\n", rest, false)))
  {
    HeaderKeysParse(name, rest);
    HeaderFinish(root, name, rest);
  }

  lemma HeaderFinish(root: Table, name: string, rest: string)
    requires CheckKey(root, name) == Nowhere
    ensures FinishSelect(root, [name], Token(RBracket, "]", "\n" + rest, false), false)
         == Some((AddTable(root, name, TomlTree.EMPTY), [name], Token(Newline, "\n", rest, false)))
  {
    NewlineToken(rest);
    assert CloseHeader(Token(RBracket, "]", "\n" + rest, false), false) == Some(Token(Newline, "\n", rest, false));
    assert [name][..0] == [];
    assert Select(root, [], name, false) == Some(AddTable(root, name, TomlTree.EMPTY));
  }

  /** A header opens its section. */
  lemma HeaderDoc(root: Table, path: seq<string>, name: string, rest: string)
    requires Valid(root) && At(root, path).Some? && WritableKey(name) && CheckKey(root, name) == Nowhere
    ensures var root1 := AddTable(root, name, TomlTree.EMPTY);
            Current(root1, name, |root.tabs|) && At(root1, [name]).Some?
            && Doc(root, path, Header(name) + rest) == Doc(root1, [name], rest)
  {
    var root1 := AddTable(root, name, TomlTree.EMPTY);
    OpenBracket(name, rest);
    HeaderParses(root, name, rest);
    EmptyValid();
    AddTableValid(root, name, TomlTree.EMPTY);
    CheckAdded(root, name, TomlTree.EMPTY, Arr(NoKind, []));
    CurrentAt(root1, name, |root.tabs|);
    HeaderStep(root, path, Header(name) + rest, Token(LBracket, "[", name + "]\n" + rest, false), root1, [name], rest);
  }

  lemma HeaderStep(root: Table, path: seq<string>, text: string, tok: Token, root1: Table, path1: seq<string>, rest: string)
    requires Valid(root) && At(root, path).Some? && Valid(root1) && At(root1, path1).Some?
    requires NextToken(text, true) == Some(tok) && WellFormed(tok) && tok.kind == LBracket && !tok.eof
    requires ParseSelect(root, tok) == Some((root1, path1, Token(Newline, "\n", rest, false)))
    ensures Doc(root, path, text) == Doc(root1, path1, rest)
  {
    assert Advance(Token(Newline, "", text, false), true) == Some(tok);
    DocAtNewline(root1, path1, rest);
  }

  /** The table that a section becomes. */
  function Section(s: seq<Entry>): Table {
    AddAll(TomlTree.EMPTY, s)
  }

  lemma PutAdded(root: Table, name: string, x: Table, y: Table)
    ensures PutTable(AddTable(root, name, x), |root.tabs|, y) == AddTable(root, name, y)
  {
    assert (root.tabs + [(name, x)])[|root.tabs| := (name, y)] == root.tabs + [(name, y)];
  }

  /** A header and its lines: a new table in the root, and the parser goes on behind. */
  lemma SectionDoc(root: Table, path: seq<string>, name: string, s: seq<Entry>, rest: string)
    requires Valid(root) && At(root, path).Some? && WritableKey(name) && CheckKey(root, name) == Nowhere
    requires WritableAfter(TomlTree.EMPTY, s)
    ensures Valid(AddTable(root, name, Section(s))) && At(AddTable(root, name, Section(s)), [name]).Some?
    ensures Doc(root, path, Header(name) + (Lines(s) + rest)) == Doc(AddTable(root, name, Section(s)), [name], rest)
  {
    HeaderDoc(root, path, name, Lines(s) + rest);
    PutAdded(root, name, TomlTree.EMPTY, Section(s));
    LinesKeep(AddTable(root, name, TomlTree.EMPTY), name, |root.tabs|, s);
    LinesParse(AddTable(root, name, TomlTree.EMPTY), name, |root.tabs|, s, rest, AddTable(root, name, Section(s)));
  }
}
