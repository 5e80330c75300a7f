// Whole documents: the loop over lines and headers, and what holds of every parse.

module TomlDocument {
  import opened Wrappers
  import opened TomlLexer
  import opened TomlTree
  import opened TomlParser
  import opened TomlInvariant
  import TomlString

  lemma SelectKeeps(root: Table, keys: seq<string>, path: seq<string>, z: string, double: bool, root1: Table)
    requires Valid(root) && Select(root, path, z, double) == Some(root1) && keys == path + [z]
    ensures Valid(root1) && At(root1, keys).Some?
  {
    SelectValid(root, path, z, double);
    SelectedThere(root, path, z, double);
  }

  /** A header keeps the tree valid, and its path leads to the table that is now current. */
  lemma HeaderKeeps(root: Table, keys: seq<string>, double: bool, root1: Table)
    requires Valid(root) && Selected(root, keys, double, root1)
    ensures Valid(root1) && At(root1, keys).Some?
  {
    SelectKeeps(root, keys, keys[..|keys| - 1], keys[|keys| - 1], double, root1);
  }

  /** An entry of the current table keeps the tree valid, and the path leads to the table with
      the entry in it. */
  lemma EntryKeeps(root: Table, path: seq<string>, tok: Token)
    requires WellFormed(tok) && Valid(root) && At(root, path).Some?
    requires ParseKeyval(At(root, path).value, tok).Some?
    ensures var cur := ParseKeyval(At(root, path).value, tok).value.0;
            Valid(Replace(root, path, cur)) && At(Replace(root, path, cur), path) == Some(cur)
  {
    var cur := ParseKeyval(At(root, path).value, tok).value.0;
    AtValid(root, path);
    ParseKeyvalValid(At(root, path).value, tok);
    ReplaceValid(root, path, cur);
    ReplacedThere(root, path, cur);
  }

  /** The loop of toml_parse, up to the end of the text. In every state the tree is valid and the
      current table is in it; the result is valid. */
  function ParseLines(root: Table, path: seq<string>, tok: Token): (r: Option<Table>)
    requires WellFormed(tok) && Valid(root) && At(root, path).Some?
    ensures r.Some? ==> Valid(r.value)
    decreases Left(tok)
  {
    if tok.eof then Some(root)
    else if tok.kind == Newline then
      match Advance(tok, true)
      case None => None
      case Some(next) => ParseLines(root, path, next)
    else if tok.kind == Str then
      match ParseKeyval(At(root, path).value, tok)
      case None => None
      case Some((cur, end)) =>
        if end.kind != Newline then None
        else
          match Advance(end, true)
          case None => None
          case Some(next) =>
            EntryKeeps(root, path, tok);
            ParseLines(Replace(root, path, cur), path, next)
    else if tok.kind == LBracket then
      match ParseSelect(root, tok)
      case None => None
      case Some((root1, path1, next)) =>
        HeaderKeeps(root, path1, Second(tok) == "[", root1);
        ParseLines(root1, path1, next)
    else None
  }

  /** toml_parse on a text up to its first NUL: it ends on every text, and after every success no
      table of the tree, at any depth and also inside arrays, has a key twice among its values,
      arrays and tables. */
  function Parse(conf: string): (r: Option<Table>)
    ensures r.Some? ==> Valid(r.value)
  {
    match Advance(Token(Newline, "", TomlString.CString(conf), false), true)
    case None => None
    case Some(first) =>
      EmptyValid();
      ParseLines(EMPTY, [], first)
  }

  /** After a parse, numbering the keys of a table names each key once, and looking up the key
      with a given number finds it. */
  lemma KeysNumberedOnce(tab: Table, n: nat, m: nat)
    requires Valid(tab) && n < m
    ensures KeyIn(tab, n).Some? <==> n < |tab.kvals| + |tab.arrs| + |tab.tabs|
    ensures KeyIn(tab, n).Some? ==> KeyIn(tab, n) != KeyIn(tab, m) && CheckKey(tab, KeyIn(tab, n).value) != Nowhere
  {
    KeyInEnumerates(tab, n);
    KeyInEnumerates(tab, m);
    if n < |Keys(tab)| {
      NowhereIffAbsent(tab, Keys(tab)[n]);
    }
  }
}
