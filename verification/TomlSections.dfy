// Whole documents of written values are read back: the lines in front of the first header, and
// below each header `[name]` or `[[name]]` the lines of its table.

module TomlSections {
  import opened Wrappers
  import opened TomlLexer
  import opened TomlTree
  import opened TomlParser
  import opened TomlInvariant
  import opened TomlDocument
  import opened TomlValues
  import opened TomlReadBack
  import TomlSpelling
  import TomlString

  // ---- lines ----

  /** A line of a document: what stands above it, the field, and a comment behind it. */
  datatype DocLine = DocLine(above: seq<Filler>, field: Field, comment: Option<string>)

  ghost predicate RightLine(d: DocLine) {
    RightFiller(d.above) && RightField(d.field) && (d.comment.Some? ==> '\n' !in d.comment.value)
  }

  function LineClose(comment: Option<string>, tail: string): string {
    match comment
    case None => ['\n'] + tail
    case Some(text) => ['#'] + (text + (['\n'] + tail))
  }

  ghost function ShowLine(d: DocLine, tail: string): string
    requires RightLine(d)
  {
    ShowFiller(d.above, ShowField(d.field, LineClose(d.comment, tail)))
  }

  ghost function ShowLines(ds: seq<DocLine>, tail: string): string
    requires forall k :: 0 <= k < |ds| ==> RightLine(ds[k])
  {
    if ds == [] then tail else ShowLine(ds[0], ShowLines(ds[1..], tail))
  }

  function FieldsOf(ds: seq<DocLine>): (fs: seq<Field>)
    ensures |fs| == |ds| && forall k :: 0 <= k < |ds| ==> fs[k] == ds[k].field
  {
    seq(|ds|, k requires 0 <= k < |ds| => ds[k].field)
  }

  lemma LineCloses(comment: Option<string>, tail: string, dot: bool)
    requires comment.Some? ==> '\n' !in comment.value
    ensures Follows(LineClose(comment, tail))
    ensures NextToken(LineClose(comment, tail), dot) == Some(Token(Newline, ['\n'], tail, false))
  {
    match comment
    case None => MarkToken('\n', tail, dot);
    case Some(text) => CommentToken(text, tail, dot);
  }

  // ---- the main loop ----

  /** The main loop from a text on. */
  function Main(root: Table, path: seq<string>, s: string): Option<Table>
    requires Valid(root) && At(root, path).Some?
  {
    match First(s, true)
    case None => None
    case Some(t) => ParseLines(root, path, t)
  }

  lemma MainAtLine(root: Table, path: seq<string>, s: string, tail: string)
    requires Valid(root) && At(root, path).Some? && NextToken(s, true) == Some(Token(Newline, ['\n'], tail, false))
    ensures Main(root, path, s) == Main(root, path, tail)
  {
    AdvanceIsFirst(Token(Newline, ['\n'], tail, false), true);
  }

  /** A blank, a line end or a comment in front of a text. */
  lemma MainPiece(root: Table, path: seq<string>, g: Filler, rest: string)
    requires Valid(root) && At(root, path).Some? && RightFiller([g])
    ensures Main(root, path, ShowFiller([g], rest)) == Main(root, path, rest)
  {
    assert [g][1..] == [] && [g][0] == g && ShowFiller([], rest) == rest;
    match g
    case Space(c) => SpaceSkipped(c, rest, true);
    case LineEnd =>
      MarkToken('\n', rest, true);
      MainAtLine(root, path, ['\n'] + rest, rest);
    case Comment(text) =>
      CommentToken(text, rest, true);
      MainAtLine(root, path, ['#'] + (text + (['\n'] + rest)), rest);
  }

  lemma {:induction false} MainFiller(root: Table, path: seq<string>, g: seq<Filler>, tail: string)
    requires Valid(root) && At(root, path).Some? && RightFiller(g)
    ensures Main(root, path, ShowFiller(g, tail)) == Main(root, path, tail)
    decreases |g|
  {
    if g != [] {
      var rest := ShowFiller(g[1..], tail);
      assert [g[0]][0] == g[0] && ShowFiller([g[0]][1..], rest) == rest;
      assert ShowFiller(g, tail) == ShowFiller([g[0]], rest);
      MainPiece(root, path, g[0], rest);
      MainFiller(root, path, g[1..], tail);
    }
  }

  /** An entry of the current table, up to its line end. */
  lemma MainEntry(root: Table, path: seq<string>, s: string, tok: Token, cur: Table, tail: string)
    requires Valid(root) && At(root, path).Some? && First(s, true) == Some(tok) && tok.kind == Str && !tok.eof
    requires ParseKeyval(At(root, path).value, tok) == Some((cur, Token(Newline, ['\n'], tail, false)))
    ensures Valid(Replace(root, path, cur)) && At(Replace(root, path, cur), path) == Some(cur)
    ensures Main(root, path, s) == Main(Replace(root, path, cur), path, tail)
  {
    EntryKeeps(root, path, tok);
    AdvanceIsFirst(Token(Newline, ['\n'], tail, false), true);
  }

  /** A table that the lines can be put into. */
  ghost predicate Takes(tab: Table, fs: seq<Field>) {
    && !tab.readonly && DistinctKeys(fs)
    && (forall k :: 0 <= k < |fs| ==> RightField(fs[k]) && CheckKey(tab, fs[k].key) == Nowhere)
  }

  lemma MainLine(root: Table, path: seq<string>, d: DocLine, tail: string)
    requires Valid(root) && At(root, path).Some? && RightLine(d)
    requires !At(root, path).value.readonly && CheckKey(At(root, path).value, d.field.key) == Nowhere
    ensures var cur := Put(At(root, path).value, d.field);
            && Valid(Replace(root, path, cur)) && At(Replace(root, path, cur), path) == Some(cur)
            && Main(root, path, ShowLine(d, tail)) == Main(Replace(root, path, cur), path, tail)
  {
    var close := LineClose(d.comment, tail);
    LineCloses(d.comment, tail, true);
    var tok := FieldParses(At(root, path).value, d.field, close, Token(Newline, ['\n'], tail, false));
    MainFiller(root, path, d.above, ShowField(d.field, close));
    MainEntry(root, path, ShowField(d.field, close), tok, Put(At(root, path).value, d.field), tail);
  }

  lemma PutSame(tab: Table, i: nat, arr: Arr)
    ensures i < |tab.tabs| ==> PutTable(tab, i, tab.tabs[i].1) == tab
    ensures i < |tab.arrs| ==> PutArray(tab, i, tab.arrs[i].1) == tab
    ensures LastTable(arr).Some? ==> PutLast(arr, LastTable(arr).value) == arr
  {
    assert i < |tab.tabs| ==> tab.tabs[i := (tab.tabs[i].0, tab.tabs[i].1)] == tab.tabs;
    assert i < |tab.arrs| ==> tab.arrs[i := (tab.arrs[i].0, tab.arrs[i].1)] == tab.arrs;
    assert LastTable(arr).Some? ==> arr.items[|arr.items| - 1 := arr.items[|arr.items| - 1]] == arr.items;
  }

  lemma {:induction false} ReplaceSame(tab: Table, path: seq<string>)
    requires At(tab, path).Some?
    ensures Replace(tab, path, At(tab, path).value) == tab
    decreases |path|
  {
    if path != [] {
      match CheckKey(tab, path[0])
      case InTables(i) =>
        ReplaceSame(tab.tabs[i].1, path[1..]);
        PutSame(tab, i, Arr(NoKind, []));
      case InArrays(i) =>
        ReplaceSame(LastTable(tab.arrs[i].1).value, path[1..]);
        PutSame(tab, i, tab.arrs[i].1);
    }
  }

  lemma PutTwice(tab: Table, i: nat, x: Table, y: Table, a: Arr, b: Arr)
    ensures i < |tab.tabs| ==> PutTable(PutTable(tab, i, x), i, y) == PutTable(tab, i, y)
    ensures i < |tab.arrs| ==> PutArray(PutArray(tab, i, a), i, b) == PutArray(tab, i, b)
    ensures a.items != [] ==> PutLast(PutLast(a, x), y) == PutLast(a, y)
  {
    assert i < |tab.tabs| ==>
      tab.tabs[i := (tab.tabs[i].0, x)][i := (tab.tabs[i].0, y)] == tab.tabs[i := (tab.tabs[i].0, y)];
    assert i < |tab.arrs| ==>
      tab.arrs[i := (tab.arrs[i].0, a)][i := (tab.arrs[i].0, b)] == tab.arrs[i := (tab.arrs[i].0, b)];
    var n := |a.items| - 1;
    assert n >= 0 ==> a.items[n := SubTable(x)][n := SubTable(y)] == a.items[n := SubTable(y)];
  }

  lemma {:induction false} ReplaceTwice(tab: Table, path: seq<string>, x: Table, y: Table)
    requires At(tab, path).Some? && At(Replace(tab, path, x), path).Some?
    ensures Replace(Replace(tab, path, x), path, y) == Replace(tab, path, y)
    decreases |path|
  {
    if path != [] {
      match CheckKey(tab, path[0])
      case InTables(i) =>
        var sub := Replace(tab.tabs[i].1, path[1..], x);
        CheckPutTable(tab, i, sub, path[0]);
        ReplaceTwice(tab.tabs[i].1, path[1..], x, y);
        PutTwice(tab, i, sub, Replace(sub, path[1..], y), Arr(NoKind, []), Arr(NoKind, []));
      case InArrays(i) =>
        var last := LastTable(tab.arrs[i].1).value;
        ReplacedThere(last, path[1..], x);
        ReplaceTwice(last, path[1..], x, y);
        LastTwice(tab, i, path[0], Replace(last, path[1..], x), Replace(Replace(last, path[1..], x), path[1..], y));
    }
  }

  lemma LastTwice(tab: Table, i: nat, key: string, x: Table, y: Table)
    requires i < |tab.arrs| && LastTable(tab.arrs[i].1).Some?
    ensures var arr := tab.arrs[i].1;
            var tab1 := PutArray(tab, i, PutLast(arr, x));
            && CheckKey(tab1, key) == CheckKey(tab, key) && LastTable(tab1.arrs[i].1) == Some(x)
            && PutArray(tab1, i, PutLast(tab1.arrs[i].1, y)) == PutArray(tab, i, PutLast(arr, y))
  {
    var arr := tab.arrs[i].1;
    CheckPutArray(tab, i, PutLast(arr, x), key);
    PutTwice(tab, i, x, y, arr, arr);
    PutTwice(tab, i, x, y, PutLast(arr, x), PutLast(arr, y));
  }

  lemma TakesRest(tab: Table, ds: seq<DocLine>)
    requires ds != [] && Takes(tab, FieldsOf(ds))
    ensures FieldsOf(ds[1..]) == FieldsOf(ds)[1..] && Takes(Put(tab, ds[0].field), FieldsOf(ds[1..]))
  {
    PutLeaves(tab, FieldsOf(ds));
    assert FieldsOf(ds[1..]) == FieldsOf(ds)[1..];
  }

  /** The lines of a table are put into it one after the other. */
  lemma {:induction false} MainLines(root: Table, path: seq<string>, ds: seq<DocLine>, tail: string)
    requires Valid(root) && At(root, path).Some? && forall k :: 0 <= k < |ds| ==> RightLine(ds[k])
    requires Takes(At(root, path).value, FieldsOf(ds))
    ensures var root1 := Replace(root, path, TableFrom(At(root, path).value, FieldsOf(ds)));
            && Valid(root1) && At(root1, path).Some?
            && Main(root, path, ShowLines(ds, tail)) == Main(root1, path, tail)
    decreases |ds|
  {
    var cur := At(root, path).value;
    if ds == [] {
      ReplaceSame(root, path);
    } else {
      var next := Put(cur, ds[0].field);
      MainLine(root, path, ds[0], ShowLines(ds[1..], tail));
      TakesRest(cur, ds);
      MainLines(Replace(root, path, next), path, ds[1..], tail);
      ReplaceTwice(root, path, next, TableFrom(next, FieldsOf(ds[1..])));
    }
  }

  // ---- headers ----

  /** A header `[name]` or `[[name]]` with what stands above it and behind it, and the lines below. */
  datatype Section = Section(above: seq<Filler>, double: bool, name: string, comment: Option<string>,
                             lines: seq<DocLine>)

  ghost predicate RightSection(s: Section) {
    && RightFiller(s.above) && PlainKey(s.name) && (s.comment.Some? ==> '\n' !in s.comment.value)
    && (forall k :: 0 <= k < |s.lines| ==> RightLine(s.lines[k])) && DistinctKeys(FieldsOf(s.lines))
  }

  function Closing(double: bool, tail: string): string {
    if double then [']'] + ([']'] + tail) else [']'] + tail
  }

  function Header(double: bool, name: string, tail: string): string {
    var rest := name + Closing(double, tail);
    if double then ['['] + (['['] + rest) else ['['] + rest
  }

  ghost function ShowSection(s: Section, tail: string): string
    requires RightSection(s)
  {
    ShowFiller(s.above, Header(s.double, s.name, LineClose(s.comment, ShowLines(s.lines, tail))))
  }

  /** The end of a header up to its line end. */
  lemma HeaderCloses(double: bool, tail: string, end: Token) returns (close: Token)
    requires First(tail, true) == Some(end) && end.kind == Newline
    ensures NextToken(Closing(double, tail), true) == Some(close)
    ensures WellFormed(close) && close.kind == RBracket && CloseHeader(close, double) == Some(end)
  {
    var rest := if double then [']'] + tail else tail;
    MarkToken(']', rest, true);
    close := Token(RBracket, [']'], rest, false);
    AdvanceIsFirst(close, true);
    if double {
      MarkToken(']', tail, true);
      var last := Token(RBracket, [']'], tail, false);
      AdvanceIsFirst(last, true);
      assert (close.text + close.after)[1..2] == "]";
    }
  }

  /** The key of a header, from the token on. */
  lemma PathOfOne(tok: Token, name: string, close: Token)
    requires WellFormed(tok) && tok.kind == Str && NormalizeKey(tok.text) == Some(name)
    requires First(tok.after, true) == Some(close) && close.kind == RBracket
    ensures FillPath(tok, 0) == Some(([name], close))
  {
    AdvanceIsFirst(tok, true);
  }

  lemma BracketToken(after: string) returns (tok: Token)
    requires after != ""
    ensures NextToken(['['] + after, true) == Some(tok) && tok == Token(LBracket, ['['], after, false)
    ensures WellFormed(tok) && (Second(tok) == "[" <==> after[0] == '[')
  {
    MarkToken('[', after, true);
    tok := Token(LBracket, ['['], after, false);
    assert (tok.text + tok.after)[1..2] == [after[0]];
  }

  /** The first tokens of a header. */
  lemma HeaderOpens(double: bool, name: string, rest: string) returns (tok: Token)
    requires PlainKey(name) && BehindKey(rest)
    ensures NextToken(if double then ['['] + (['['] + (name + rest)) else ['['] + (name + rest), true) == Some(tok)
    ensures WellFormed(tok) && tok.kind == LBracket && !tok.eof && (Second(tok) == "[" <==> double)
    ensures HeaderStart(tok, double) == Some(Token(Str, name, rest, false))
  {
    PlainKeyToken(name, rest);
    assert (name + rest)[0] == name[0] && KeyChar(name[0]);
    var inner := BracketToken(name + rest);
    AdvanceIsFirst(inner, true);
    tok := inner;
    if double {
      tok := BracketToken(['['] + (name + rest));
      AdvanceIsFirst(tok, true);
    }
  }

  /** parse_select on a written header. */
  lemma HeaderSelects(root: Table, double: bool, name: string, tail: string, end: Token) returns (tok: Token)
    requires PlainKey(name) && First(tail, true) == Some(end) && end.kind == Newline
    requires OpenLast(root, name, double).Some?
    ensures NextToken(Header(double, name, tail), true) == Some(tok)
    ensures WellFormed(tok) && tok.kind == LBracket && !tok.eof
    ensures ParseSelect(root, tok) == Some((OpenLast(root, name, double).value, [name], end))
  {
    var close := HeaderCloses(double, tail, end);
    tok := HeaderOpens(double, name, Closing(double, tail));
    PlainKeyToken(name, Closing(double, tail));
    PathOfOne(Token(Str, name, Closing(double, tail), false), name, close);
    assert [name][..0] == [];
  }

  lemma LinesAtNewline(root: Table, path: seq<string>, rest: string)
    requires Valid(root) && At(root, path).Some?
    ensures ParseLines(root, path, Token(Newline, ['\n'], rest, false)) == Main(root, path, rest)
  {
    AdvanceIsFirst(Token(Newline, ['\n'], rest, false), true);
  }

  lemma LinesAtHeader(root: Table, path: seq<string>, tok: Token, root1: Table, keys: seq<string>, end: Token)
    requires Valid(root) && At(root, path).Some? && Valid(root1) && At(root1, keys).Some?
    requires WellFormed(tok) && tok.kind == LBracket && !tok.eof && ParseSelect(root, tok) == Some((root1, keys, end))
    ensures ParseLines(root, path, tok) == ParseLines(root1, keys, end)
  {}

  lemma OpenedKeeps(root: Table, double: bool, name: string, root1: Table)
    requires Valid(root) && OpenLast(root, name, double) == Some(root1)
    ensures Valid(root1) && At(root1, [name]).Some?
  {
    assert [name][..0] == [];
    SelectKeeps(root, [name], [], name, double, root1);
  }

  /** The main loop at a written header. */
  lemma MainHeader(root: Table, path: seq<string>, double: bool, name: string, tail: string, rest: string,
                   root1: Table)
    requires Valid(root) && At(root, path).Some? && PlainKey(name) && OpenLast(root, name, double) == Some(root1)
    requires First(tail, true) == Some(Token(Newline, ['\n'], rest, false))
    ensures Valid(root1) && At(root1, [name]).Some?
    ensures Main(root, path, Header(double, name, tail)) == Main(root1, [name], rest)
  {
    var tok := HeaderSelects(root, double, name, tail, Token(Newline, ['\n'], rest, false));
    OpenedKeeps(root, double, name, root1);
    LinesAtHeader(root, path, tok, root1, [name], Token(Newline, ['\n'], rest, false));
    LinesAtNewline(root1, [name], rest);
  }

  // ---- sections ----

  /** A header that can be read where the root is this: a name that is not there, or for `[[name]]`
      also one under which there is an array of tables. */
  ghost predicate Opens(root: Table, s: Section) {
    CheckKey(root, s.name) == Nowhere
    || (s.double && CheckKey(root, s.name).InArrays? && root.arrs[CheckKey(root, s.name).i].1.kind == Tables)
  }

  /** The table of a section. */
  ghost function TableOf(s: Section): Table
    requires RightSection(s)
  {
    LinesRight(s.lines);
    TableFrom(EMPTY, FieldsOf(s.lines))
  }

  lemma LinesRight(ds: seq<DocLine>)
    requires forall k :: 0 <= k < |ds| ==> RightLine(ds[k])
    ensures forall k :: 0 <= k < |ds| ==> RightField(FieldsOf(ds)[k])
  {
    forall k | 0 <= k < |ds| ensures RightField(FieldsOf(ds)[k]) {
      assert RightLine(ds[k]);
    }
  }

  /** The root with the section in it. */
  ghost function WithSection(root: Table, s: Section): Table
    requires RightSection(s) && Opens(root, s)
  {
    match CheckKey(root, s.name)
    case InArrays(i) => PutArray(root, i, AddItem(root.arrs[i].1, SubTable(TableOf(s))))
    case _ =>
      if s.double then AddArray(root, s.name, AddItem(Arr(Tables, []), SubTable(TableOf(s))))
      else AddTable(root, s.name, TableOf(s))
  }

  lemma IndexArrays(tab: Table, key: string)
    requires CheckKey(tab, key).InArrays?
    ensures Index(tab.arrs, key) == Some(CheckKey(tab, key).i)
  {}

  /** A header makes an empty table current, and replacing it gives the root with the section. */
  lemma SectionOpens(root: Table, s: Section) returns (root1: Table)
    requires RightSection(s) && Opens(root, s)
    ensures OpenLast(root, s.name, s.double) == Some(root1) && At(root1, [s.name]) == Some(EMPTY)
    ensures Replace(root1, [s.name], TableOf(s)) == WithSection(root, s)
  {
    assert [s.name][1..] == [];
    root1 := OpenLast(root, s.name, s.double).value;
    var sub := TableOf(s);
    match CheckKey(root, s.name)
    case InArrays(i) =>
      var arr := root.arrs[i].1;
      IndexArrays(root, s.name);
      CheckPutArray(root, i, AddItem(arr, SubTable(EMPTY)), s.name);
      LastAdded(arr, sub);
      PutTwice(root, i, sub, sub, AddItem(arr, SubTable(EMPTY)), AddItem(arr, SubTable(sub)));
    case Nowhere =>
      NewSection(root, s.name, s.double, sub);
  }

  /** An added table is the last one. */
  lemma LastAdded(arr: Arr, sub: Table)
    requires arr.kind == Tables || arr.kind == NoKind
    ensures LastTable(AddItem(arr, SubTable(EMPTY))) == Some(EMPTY)
    ensures PutLast(AddItem(arr, SubTable(EMPTY)), sub) == AddItem(arr, SubTable(sub))
  {
    assert (arr.items + [SubTable(EMPTY)])[|arr.items| := SubTable(sub)] == arr.items + [SubTable(sub)];
  }

  lemma NewSection(root: Table, name: string, double: bool, sub: Table)
    requires CheckKey(root, name) == Nowhere
    ensures OpenLast(root, name, double).Some?
    ensures At(OpenLast(root, name, double).value, [name]) == Some(EMPTY)
    ensures Replace(OpenLast(root, name, double).value, [name], sub)
         == if double then AddArray(root, name, AddItem(Arr(Tables, []), SubTable(sub))) else AddTable(root, name, sub)
  {
    var first, arr := AddItem(Arr(Tables, []), SubTable(EMPTY)), AddItem(Arr(Tables, []), SubTable(sub));
    assert [name][1..] == [];
    CheckAdded(root, name, EMPTY, first);
    if double {
      LastAdded(Arr(Tables, []), sub);
      assert (root.arrs + [(name, first)])[|root.arrs| := (name, arr)] == root.arrs + [(name, arr)];
    } else {
      NewTable(root, name, sub);
    }
  }

  lemma TableTakes(s: Section)
    requires RightSection(s)
    ensures Takes(EMPTY, FieldsOf(s.lines))
  {
    LinesRight(s.lines);
    forall k | 0 <= k < |s.lines| ensures CheckKey(EMPTY, FieldsOf(s.lines)[k].key) == Nowhere {}
  }

  /** A section with its layout: the root gets it, and its table is the current one. */
  lemma SectionParses(root: Table, path: seq<string>, s: Section, tail: string)
    requires Valid(root) && At(root, path).Some? && RightSection(s) && Opens(root, s)
    ensures var root1 := WithSection(root, s);
            && Valid(root1) && At(root1, [s.name]).Some?
            && Main(root, path, ShowSection(s, tail)) == Main(root1, [s.name], tail)
  {
    var lines := ShowLines(s.lines, tail);
    var root1 := SectionOpens(root, s);
    LineCloses(s.comment, lines, true);
    MainFiller(root, path, s.above, Header(s.double, s.name, LineClose(s.comment, lines)));
    MainHeader(root, path, s.double, s.name, LineClose(s.comment, lines), lines, root1);
    TableTakes(s);
    MainLines(root1, [s.name], s.lines, tail);
  }

  // ---- what stands in the tree ----

  /** How many of the sections have the name. */
  function Named(secs: seq<Section>, name: string): nat {
    if secs == [] then 0
    else Named(secs[..|secs| - 1], name) + if secs[|secs| - 1].name == name then 1 else 0
  }

  lemma NamedSnoc(secs: seq<Section>, s: Section, name: string)
    ensures Named(secs + [s], name) == Named(secs, name) + if s.name == name then 1 else 0
  {
    assert (secs + [s])[..|secs|] == secs;
  }

  lemma {:induction false} NamedNone(secs: seq<Section>, name: string)
    requires forall k :: 0 <= k < |secs| ==> secs[k].name != name
    ensures Named(secs, name) == 0
    decreases |secs|
  {
    if secs != [] {
      NamedNone(secs[..|secs| - 1], name);
    }
  }

  /** The table of a section: its lines, and not read-only. */
  ghost predicate OwnTable(item: Item, s: Section)
    requires RightSection(s)
  {
    LinesRight(s.lines);
    item.SubTable? && !item.tab.readonly && TableStands(item.tab, FieldsOf(s.lines))
  }

  /** Section `k` in the tree: `[name]` is a table under the name; the sections `[[name]]` are the
      tables of an array under the name, in their order. */
  ghost predicate SectionStands(root: Table, secs: seq<Section>, k: nat)
    requires k < |secs| && RightSection(secs[k])
  {
    var s, n := secs[k], Named(secs[..k], secs[k].name);
    Child(root, s.name).Some? &&
    if s.double then
      Child(root, s.name).value.SubArray? && ArrayOfSections(Child(root, s.name).value.arr, Named(secs, s.name), n, s)
    else OwnTable(Child(root, s.name).value, s)
  }

  ghost predicate ArrayOfSections(arr: Arr, count: nat, n: nat, s: Section)
    requires RightSection(s)
  {
    arr.kind == Tables && |arr.items| == count && n < count && OwnTable(arr.items[n], s)
  }

  ghost predicate RightSections(secs: seq<Section>) {
    forall k :: 0 <= k < |secs| ==> RightSection(secs[k])
  }

  /** Names of sections are not keys of the lines in front, and only those with double brackets are
      used again. */
  ghost predicate DistinctNames(fs: seq<Field>, secs: seq<Section>) {
    && (forall j, k :: 0 <= j < |fs| && 0 <= k < |secs| ==> fs[j].key != secs[k].name)
    && (forall j, k :: 0 <= j < k < |secs| && secs[j].name == secs[k].name ==> secs[j].double && secs[k].double)
  }

  ghost predicate Unused(name: string, fs: seq<Field>, secs: seq<Section>) {
    && (forall k :: 0 <= k < |fs| ==> fs[k].key != name)
    && (forall k :: 0 <= k < |secs| ==> secs[k].name != name)
  }

  /** The tree of a document: every line in front and every section stands in it, and nothing else. */
  ghost predicate DocumentStands(root: Table, fs: seq<Field>, secs: seq<Section>)
    requires (forall k :: 0 <= k < |fs| ==> RightField(fs[k])) && RightSections(secs)
  {
    && (forall k :: 0 <= k < |fs| ==> FieldStands(root, fs[k]))
    && (forall k :: 0 <= k < |secs| ==> SectionStands(root, secs, k))
    && (forall name :: Unused(name, fs, secs) ==> CheckKey(root, name) == Nowhere)
  }

  // ---- one more section ----

  lemma {:induction false} FromKeepsMark(tab: Table, fs: seq<Field>)
    requires forall k :: 0 <= k < |fs| ==> RightField(fs[k])
    ensures TableFrom(tab, fs).readonly == tab.readonly
    decreases |fs|
  {
    if fs != [] {
      FromKeepsMark(Put(tab, fs[0]), fs[1..]);
    }
  }

  lemma OwnTableStands(s: Section)
    requires RightSection(s)
    ensures OwnTable(SubTable(TableOf(s)), s)
  {
    LinesRight(s.lines);
    FromKeepsMark(EMPTY, FieldsOf(s.lines));
    FieldsStand(FieldsOf(s.lines));
  }

  /** What the sections put under their name is found there. */
  lemma WithFound(root: Table, s: Section)
    requires RightSection(s) && Opens(root, s)
    ensures !s.double ==> Child(WithSection(root, s), s.name) == Some(SubTable(TableOf(s)))
    ensures s.double && CheckKey(root, s.name) == Nowhere ==>
              Child(WithSection(root, s), s.name) == Some(SubArray(Arr(Tables, [SubTable(TableOf(s))])))
    ensures CheckKey(root, s.name).InArrays? ==>
              Child(WithSection(root, s), s.name)
              == Some(SubArray(AddItem(root.arrs[CheckKey(root, s.name).i].1, SubTable(TableOf(s)))))
  {
    match CheckKey(root, s.name)
    case InArrays(i) =>
      CheckPutArray(root, i, AddItem(root.arrs[i].1, SubTable(TableOf(s))), s.name);
      IndexArrays(root, s.name);
      IndexPut(root.arrs, i, AddItem(root.arrs[i].1, SubTable(TableOf(s))), s.name);
    case Nowhere =>
      var arr := AddItem(Arr(Tables, []), SubTable(TableOf(s)));
      assert arr.items == [SubTable(TableOf(s))];
      IndexSnoc(root.arrs, s.name, arr);
      IndexSnoc(root.tabs, s.name, TableOf(s));
  }

  /** What stands under another name still does. */
  lemma WithElsewhere(root: Table, s: Section, key: string)
    requires RightSection(s) && Opens(root, s) && key != s.name
    ensures Child(WithSection(root, s), key) == Child(root, key)
    ensures CheckKey(WithSection(root, s), key) == CheckKey(root, key)
  {
    match CheckKey(root, s.name)
    case InArrays(i) =>
      var arr := AddItem(root.arrs[i].1, SubTable(TableOf(s)));
      CheckPutArray(root, i, arr, key);
      IndexPut(root.arrs, i, arr, key);
    case Nowhere =>
      IndexOther(root.arrs, s.name, AddItem(Arr(Tables, []), SubTable(TableOf(s))), key);
      IndexOther(root.tabs, s.name, TableOf(s), key);
  }

  lemma ChildIsArray(tab: Table, key: string)
    requires Child(tab, key).Some? && Child(tab, key).value.SubArray?
    ensures CheckKey(tab, key).InArrays? && tab.arrs[CheckKey(tab, key).i].1 == Child(tab, key).value.arr
  {}

  /** The next header can be read. */
  lemma NextOpens(root: Table, fs: seq<Field>, done: seq<Section>, s: Section)
    requires (forall k :: 0 <= k < |fs| ==> RightField(fs[k])) && RightSections(done) && RightSection(s)
    requires DocumentStands(root, fs, done) && DistinctNames(fs, done + [s])
    ensures Opens(root, s)
    ensures CheckKey(root, s.name) == Nowhere ==> Named(done, s.name) == 0
    ensures CheckKey(root, s.name) != Nowhere ==>
              s.double && |root.arrs[CheckKey(root, s.name).i].1.items| == Named(done, s.name)
  {
    var secs := done + [s];
    assert secs[|done|] == s;
    if k :| 0 <= k < |done| && done[k].name == s.name {
      assert secs[k] == done[k];
      assert SectionStands(root, done, k);
      ChildIsArray(root, s.name);
    } else {
      NamedNone(done, s.name);
      assert Unused(s.name, fs, done);
    }
  }

  /** An earlier section still stands. */
  lemma EarlierStands(root: Table, fs: seq<Field>, done: seq<Section>, s: Section, k: nat)
    requires (forall k :: 0 <= k < |fs| ==> RightField(fs[k])) && RightSections(done) && RightSection(s)
    requires DocumentStands(root, fs, done) && DistinctNames(fs, done + [s]) && k < |done| && Opens(root, s)
    ensures SectionStands(WithSection(root, s), done + [s], k)
  {
    var secs := done + [s];
    assert SectionStands(root, done, k) && secs[k] == done[k] && secs[|done|] == s && secs[..k] == done[..k];
    NamedSnoc(done, s, done[k].name);
    if done[k].name == s.name {
      ChildIsArray(root, s.name);
      WithFound(root, s);
    } else {
      WithElsewhere(root, s, done[k].name);
    }
  }

  lemma NewStands(root: Table, fs: seq<Field>, done: seq<Section>, s: Section)
    requires (forall k :: 0 <= k < |fs| ==> RightField(fs[k])) && RightSections(done) && RightSection(s)
    requires DocumentStands(root, fs, done) && DistinctNames(fs, done + [s]) && Opens(root, s)
    ensures SectionStands(WithSection(root, s), done + [s], |done|)
  {
    var secs := done + [s];
    assert secs[|done|] == s && secs[..|done|] == done;
    NextOpens(root, fs, done, s);
    NamedSnoc(done, s, s.name);
    OwnTableStands(s);
    WithFound(root, s);
  }

  lemma StandsStep(root: Table, fs: seq<Field>, done: seq<Section>, s: Section)
    requires (forall k :: 0 <= k < |fs| ==> RightField(fs[k])) && RightSections(done) && RightSection(s)
    requires DocumentStands(root, fs, done) && DistinctNames(fs, done + [s]) && Opens(root, s)
    ensures RightSections(done + [s]) && DocumentStands(WithSection(root, s), fs, done + [s])
  {
    var secs, root1 := done + [s], WithSection(root, s);
    assert secs[|done|] == s;
    forall k | 0 <= k < |fs| ensures FieldStands(root1, fs[k]) {
      assert FieldStands(root, fs[k]);
      WithElsewhere(root, s, fs[k].key);
    }
    forall k | 0 <= k < |secs| ensures RightSection(secs[k]) && SectionStands(root1, secs, k) {
      if k < |done| {
        EarlierStands(root, fs, done, s, k);
      } else {
        NewStands(root, fs, done, s);
      }
    }
    forall name | Unused(name, fs, secs) ensures CheckKey(root1, name) == Nowhere {
      forall k | 0 <= k < |done| ensures done[k].name != name {
        assert secs[k] == done[k];
      }
      assert Unused(name, fs, done);
      WithElsewhere(root, s, name);
    }
  }

  // ---- documents ----

  ghost function ShowSections(secs: seq<Section>, tail: string): string
    requires RightSections(secs)
  {
    if secs == [] then tail else ShowSection(secs[0], ShowSections(secs[1..], tail))
  }

  lemma MainEnd(root: Table, path: seq<string>, below: seq<Filler>)
    requires Valid(root) && At(root, path).Some? && RightFiller(below)
    ensures Main(root, path, ShowFiller(below, "")) == Some(root)
  {
    MainFiller(root, path, below, "");
  }

  lemma DistinctFront(fs: seq<Field>, done: seq<Section>, s: Section, rest: seq<Section>)
    requires DistinctNames(fs, done + ([s] + rest))
    ensures DistinctNames(fs, done + [s])
  {
    var all, front := done + ([s] + rest), done + [s];
    assert forall k :: 0 <= k < |front| ==> front[k] == all[k];
  }

  /** The next section is read and then stands with the others. */
  lemma SectionNext(root: Table, path: seq<string>, fs: seq<Field>, done: seq<Section>, s: Section, tail: string)
    requires Valid(root) && At(root, path).Some? && (forall k :: 0 <= k < |fs| ==> RightField(fs[k]))
    requires RightSections(done) && RightSection(s)
    requires DocumentStands(root, fs, done) && DistinctNames(fs, done + [s])
    ensures Opens(root, s)
    ensures var root1 := WithSection(root, s);
            && Valid(root1) && At(root1, [s.name]).Some? && RightSections(done + [s])
            && DocumentStands(root1, fs, done + [s])
            && Main(root, path, ShowSection(s, tail)) == Main(root1, [s.name], tail)
  {
    NextOpens(root, fs, done, s);
    SectionParses(root, path, s, tail);
    StandsStep(root, fs, done, s);
  }

  /** The sections of a document, one after the other. */
  lemma {:induction false} SectionsParse(root: Table, path: seq<string>, fs: seq<Field>, done: seq<Section>,
                                         secs: seq<Section>, below: seq<Filler>) returns (r: Table)
    requires Valid(root) && At(root, path).Some? && RightFiller(below)
    requires (forall k :: 0 <= k < |fs| ==> RightField(fs[k])) && RightSections(done) && RightSections(secs)
    requires DocumentStands(root, fs, done) && DistinctNames(fs, done + secs)
    ensures RightSections(done + secs) && DocumentStands(r, fs, done + secs)
    ensures Main(root, path, ShowSections(secs, ShowFiller(below, ""))) == Some(r)
    decreases |secs|
  {
    if secs == [] {
      assert done + secs == done;
      MainEnd(root, path, below);
      r := root;
    } else {
      var s, rest := secs[0], secs[1..];
      assert done + secs == done + ([s] + rest) == (done + [s]) + rest;
      DistinctFront(fs, done, s, rest);
      SectionNext(root, path, fs, done, s, ShowSections(rest, ShowFiller(below, "")));
      r := SectionsParse(WithSection(root, s), [s.name], fs, done + [s], rest, below);
    }
  }

  lemma {:induction false} FromLeaves(tab: Table, fs: seq<Field>, name: string)
    requires forall k :: 0 <= k < |fs| ==> RightField(fs[k]) && fs[k].key != name
    ensures CheckKey(TableFrom(tab, fs), name) == CheckKey(tab, name)
    decreases |fs|
  {
    if fs != [] {
      PutElsewhere(tab, fs[0], name);
      FromLeaves(Put(tab, fs[0]), fs[1..], name);
    }
  }

  lemma FrontStands(fs: seq<Field>)
    requires DistinctKeys(fs) && forall k :: 0 <= k < |fs| ==> RightField(fs[k])
    ensures TableStands(TableFrom(EMPTY, fs), fs) && DocumentStands(TableFrom(EMPTY, fs), fs, [])
  {
    FieldsStand(fs);
    forall name | Unused(name, fs, []) ensures CheckKey(TableFrom(EMPTY, fs), name) == Nowhere {
      FromLeaves(EMPTY, fs, name);
    }
  }

  /** The lines in front of the first header, in an empty tree. */
  lemma FrontParses(ds: seq<DocLine>, tail: string) returns (root: Table)
    requires DistinctKeys(FieldsOf(ds)) && forall k :: 0 <= k < |ds| ==> RightLine(ds[k])
    ensures forall k :: 0 <= k < |ds| ==> RightField(FieldsOf(ds)[k])
    ensures Valid(EMPTY) && Valid(root) && Main(EMPTY, [], ShowLines(ds, tail)) == Main(root, [], tail)
    ensures TableStands(root, FieldsOf(ds)) && DocumentStands(root, FieldsOf(ds), [])
  {
    var fs := FieldsOf(ds);
    EmptyValid();
    LinesRight(ds);
    forall k | 0 <= k < |ds| ensures CheckKey(EMPTY, fs[k].key) == Nowhere {}
    MainLines(EMPTY, [], ds, tail);
    root := TableFrom(EMPTY, fs);
    FrontStands(fs);
  }

  lemma ParseIsMain(s: string)
    requires TomlSpelling.NoNul(s) && Valid(EMPTY)
    ensures Parse(s) == Main(EMPTY, [], s)
  {
    TomlSpelling.CStringWhole(s);
  }

  /** Every document of lines `key = value` and sections `[name]` or `[[name]]` with such lines, in any
      layout, parses to a tree in which every line and every section stands, and nothing else: texts by
      what they denote, arrays with an item for each element in order, inline tables with their
      entries, and sections with double brackets as the tables of one array, in order. */
  lemma DocumentReadBack(ds: seq<DocLine>, secs: seq<Section>, below: seq<Filler>, text: string)
    requires (forall k :: 0 <= k < |ds| ==> RightLine(ds[k])) && RightSections(secs) && RightFiller(below)
    requires DistinctKeys(FieldsOf(ds)) && DistinctNames(FieldsOf(ds), secs)
    requires text == ShowLines(ds, ShowSections(secs, ShowFiller(below, ""))) && TomlSpelling.NoNul(text)
    ensures forall k :: 0 <= k < |ds| ==> RightField(FieldsOf(ds)[k])
    ensures Parse(text).Some? && DocumentStands(Parse(text).value, FieldsOf(ds), secs)
  {
    var root := FrontParses(ds, ShowSections(secs, ShowFiller(below, "")));
    ParseIsMain(text);
    assert [] + secs == secs;
    var r := SectionsParse(root, [], FieldsOf(ds), [], secs, below);
  }

  /** Lines alone: the tree has one child for each line, in which its value stands. */
  lemma LinesReadBack(ds: seq<DocLine>, below: seq<Filler>, text: string)
    requires (forall k :: 0 <= k < |ds| ==> RightLine(ds[k])) && RightFiller(below) && DistinctKeys(FieldsOf(ds))
    requires text == ShowLines(ds, ShowFiller(below, "")) && TomlSpelling.NoNul(text)
    ensures forall k :: 0 <= k < |ds| ==> RightField(FieldsOf(ds)[k])
    ensures Parse(text).Some? && TableStands(Parse(text).value, FieldsOf(ds))
  {
    var root := FrontParses(ds, ShowFiller(below, ""));
    ParseIsMain(text);
    MainEnd(root, [], below);
  }

  /** A single line with an array of texts: the tree has one array under the key and nothing else,
      and item k of it is a value that toml_rtos turns into text k. */
  lemma TextsReadBack(d: DocLine, below: seq<Filler>, text: string)
    requires RightLine(d) && RightFiller(below)
    requires text == ShowLines([d], ShowFiller(below, "")) && TomlSpelling.NoNul(text)
    requires d.field.val.Lst? && forall k :: 0 <= k < |d.field.val.elems| ==> TextElem(d.field.val.elems[k])
    ensures var r, es := Parse(text), d.field.val.elems;
            && r.Some? && r.value.kvals == [] && r.value.tabs == []
            && |r.value.arrs| == 1 && r.value.arrs[0].0 == d.field.key && TextsStand(r.value.arrs[0].1, es)
  {
    assert FieldsOf([d]) == [d.field];
    LinesReadBack([d], below, text);
    OneArray(Parse(text).value, d.field);
  }

  ghost predicate TextElem(e: Elem) {
    e.val.Txt? && RightText(e.val.items)
  }

  ghost predicate TextStands(item: Item, e: Elem)
    requires TextElem(e)
  {
    item.Value? && TomlString.Rtos(item.raw) == Some(TextOf(e.val.items))
  }

  /** An array of values that are the texts, in order. */
  ghost predicate TextsStand(arr: Arr, es: seq<Elem>)
    requires forall k :: 0 <= k < |es| ==> TextElem(es[k])
  {
    && arr.kind == (if es == [] then NoKind else Values) && |arr.items| == |es|
    && (forall k :: 0 <= k < |es| ==> TextStands(arr.items[k], es[k]))
  }

  lemma OneArray(tab: Table, f: Field)
    requires RightField(f) && TableStands(tab, [f]) && f.val.Lst?
    requires forall k :: 0 <= k < |f.val.elems| ==> TextElem(f.val.elems[k])
    ensures tab.kvals == [] && tab.tabs == [] && |tab.arrs| == 1 && tab.arrs[0].0 == f.key
    ensures TextsStand(tab.arrs[0].1, f.val.elems)
  {
    assert FieldStands(tab, [f][0]);
    var item := Child(tab, f.key).value;
    assert Stands(item, f.val) && item.SubArray?;
    TextItems(item.arr, f.val);
  }

  lemma TextItems(arr: Arr, v: Val)
    requires Right(v) && v.Lst? && Stands(SubArray(arr), v)
    requires forall k :: 0 <= k < |v.elems| ==> TextElem(v.elems[k])
    ensures TextsStand(arr, v.elems)
  {
    var es := v.elems;
    assert ArrayStands(arr, es);
    forall k | 0 <= k < |es| ensures TextStands(arr.items[k], es[k]) && KindOf(es[k]) == Values {
      assert TextElem(es[k]) && RightElem(es[k]) && ElemStands(arr.items[k], es[k]);
      ElemText(arr.items[k], es[k]);
    }
  }

  lemma ElemText(item: Item, e: Elem)
    requires RightElem(e) && TextElem(e) && ElemStands(item, e)
    ensures TextStands(item, e)
  {
    assert Stands(item, e.val);
  }
}
