// Dotted keys: `a.b.key = value` puts the value into the table at the end of the path, through tables
// that are there or new ones.

module TomlDotted {
  import opened Wrappers
  import opened TomlLexer
  import opened TomlTree
  import opened TomlParser
  import opened TomlValues
  import opened TomlReadBack
  import opened TomlSections

  /** The keys of the path with dots behind them, in front of the field. */
  ghost function ShowDotted(ks: seq<string>, f: Field, tail: string): string
    requires RightField(f)
  {
    if ks == [] then ShowField(f, tail) else ks[0] + (['.'] + ShowDotted(ks[1..], f, tail))
  }

  /** The path leads through tables, or ends at a key that is not there, and the field is not there. */
  ghost predicate Reaches(tab: Table, ks: seq<string>, key: string)
    decreases |ks|
  {
    && !tab.readonly
    && if ks == [] then CheckKey(tab, key) == Nowhere
       else
         match CheckKey(tab, ks[0])
         case Nowhere => true
         case InTables(i) => Reaches(tab.tabs[i].1, ks[1..], key)
         case _ => false
  }

  /** The table with the field at the end of the path. */
  ghost function WithDotted(tab: Table, ks: seq<string>, f: Field): Table
    requires RightField(f)
    decreases |ks|
  {
    if ks == [] then Put(tab, f)
    else
      match CheckKey(tab, ks[0])
      case InTables(i) => PutTable(tab, i, WithDotted(tab.tabs[i].1, ks[1..], f))
      case _ => AddTable(tab, ks[0], WithDotted(EMPTY, ks[1..], f))
  }

  lemma EmptyReaches(ks: seq<string>, key: string)
    ensures Reaches(EMPTY, ks, key)
  {}

  /** parse_keyval at a key with a dot behind it. */
  lemma DottedStep(tab: Table, tok: Token, dot: Token, next: Token, i: nat, tab1: Table, sub: Table, end: Token)
    requires WellFormed(tok) && !tab.readonly && tok.kind == Str && NormalizeKey(tok.text).Some?
    requires WellFormed(dot) && dot.kind == Dot && WellFormed(next)
    requires Advance(tok, true) == Some(dot) && Advance(dot, true) == Some(next)
    requires DottedTable(tab, NormalizeKey(tok.text).value) == Some((tab1, i))
    requires ParseKeyval(tab1.tabs[i].1, next) == Some((sub, end))
    ensures ParseKeyval(tab, tok) == Some((PutTable(tab1, i, sub), end))
  {}

  /** A dotted key with its value. */
  lemma {:induction false} DottedParses(tab: Table, ks: seq<string>, f: Field, tail: string, end: Token)
    returns (tok: Token)
    requires RightField(f) && (forall k :: 0 <= k < |ks| ==> PlainKey(ks[k])) && Reaches(tab, ks, f.key)
    requires Follows(tail) && First(tail, true) == Some(end)
    ensures WellFormed(tok) && tok.kind == Str && !tok.eof && First(ShowDotted(ks, f, tail), true) == Some(tok)
    ensures ParseKeyval(tab, tok) == Some((WithDotted(tab, ks, f), end))
    decreases |ks|
  {
    if ks == [] {
      tok := FieldParses(tab, f, tail, end);
    } else {
      var rest := ShowDotted(ks[1..], f, tail);
      var dot := Token(Kind.Dot, ['.'], rest, false);
      PlainKeyToken(ks[0], ['.'] + rest);
      MarkToken('.', rest, true);
      tok := Token(Str, ks[0], ['.'] + rest, false);
      AdvanceIsFirst(tok, true);
      AdvanceIsFirst(dot, true);
      match CheckKey(tab, ks[0])
      case InTables(i) =>
        var next := DottedParses(tab.tabs[i].1, ks[1..], f, tail, end);
        IndexTables(tab, ks[0]);
        DottedStep(tab, tok, dot, next, i, tab, WithDotted(tab.tabs[i].1, ks[1..], f), end);
      case Nowhere =>
        var sub := WithDotted(EMPTY, ks[1..], f);
        EmptyReaches(ks[1..], f.key);
        var next := DottedParses(EMPTY, ks[1..], f, tail, end);
        NewTable(tab, ks[0], sub);
        DottedStep(tab, tok, dot, next, |tab.tabs|, AddTable(tab, ks[0], EMPTY), sub, end);
    }
  }

  lemma IndexTables(tab: Table, key: string)
    requires CheckKey(tab, key).InTables?
    ensures Index(tab.tabs, key) == Some(CheckKey(tab, key).i)
  {}

  /** A line with a dotted key in any table that is current. */
  lemma MainDotted(root: Table, path: seq<string>, ks: seq<string>, d: DocLine, tail: string)
    requires Valid(root) && At(root, path).Some? && RightLine(d)
    requires (forall k :: 0 <= k < |ks| ==> PlainKey(ks[k])) && Reaches(At(root, path).value, ks, d.field.key)
    ensures var cur := WithDotted(At(root, path).value, ks, d.field);
            && Valid(Replace(root, path, cur)) && At(Replace(root, path, cur), path) == Some(cur)
            && Main(root, path, ShowFiller(d.above, ShowDotted(ks, d.field, LineClose(d.comment, tail))))
               == Main(Replace(root, path, cur), path, tail)
  {
    var close := LineClose(d.comment, tail);
    LineCloses(d.comment, tail, true);
    var tok := DottedParses(At(root, path).value, ks, d.field, close, Token(Newline, ['\n'], tail, false));
    MainFiller(root, path, d.above, ShowDotted(ks, d.field, close));
    MainEntry(root, path, ShowDotted(ks, d.field, close), tok, WithDotted(At(root, path).value, ks, d.field), tail);
  }

  /** What is found under a key at the end of a path. */
  function Find(tab: Table, ks: seq<string>, key: string): Option<Item>
    decreases |ks|
  {
    if ks == [] then Child(tab, key)
    else
      match Child(tab, ks[0])
      case Some(SubTable(sub)) => Find(sub, ks[1..], key)
      case _ => None
  }

  /** The value is found at the end of the path, and what stands under other keys than the first of
      the path is as it was. */
  lemma {:induction false} DottedFound(tab: Table, ks: seq<string>, f: Field, other: string)
    requires RightField(f) && Reaches(tab, ks, f.key)
    ensures Find(WithDotted(tab, ks, f), ks, f.key) == Some(ItemOf(f.val)) && Stands(ItemOf(f.val), f.val)
    ensures other != (if ks == [] then f.key else ks[0]) ==>
              Child(WithDotted(tab, ks, f), other) == Child(tab, other)
    decreases |ks|
  {
    ItemStands(f.val);
    if ks == [] {
      PutFound(tab, f);
      if other != f.key {
        ChildElsewhere(tab, f, other);
      }
    } else {
      match CheckKey(tab, ks[0])
      case InTables(i) =>
        DottedFound(tab.tabs[i].1, ks[1..], f, other);
        TableReplaced(tab, ks[0], i, WithDotted(tab.tabs[i].1, ks[1..], f), other);
      case Nowhere =>
        EmptyReaches(ks[1..], f.key);
        DottedFound(EMPTY, ks[1..], f, other);
        TableAdded(tab, ks[0], WithDotted(EMPTY, ks[1..], f), other);
    }
  }

  lemma TableReplaced(tab: Table, key: string, i: nat, sub: Table, other: string)
    requires CheckKey(tab, key) == InTables(i)
    ensures Child(PutTable(tab, i, sub), key) == Some(SubTable(sub))
    ensures other != key ==> Child(PutTable(tab, i, sub), other) == Child(tab, other)
  {
    IndexPut(tab.tabs, i, sub, key);
    IndexPut(tab.tabs, i, sub, other);
  }

  lemma TableAdded(tab: Table, key: string, sub: Table, other: string)
    requires CheckKey(tab, key) == Nowhere
    ensures Child(AddTable(tab, key, sub), key) == Some(SubTable(sub))
    ensures other != key ==> Child(AddTable(tab, key, sub), other) == Child(tab, other)
  {
    IndexSnoc(tab.tabs, key, sub);
    if other != key {
      IndexOther(tab.tabs, key, sub, other);
    }
  }
}
