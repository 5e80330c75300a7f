// The TOML parser as functions: each takes the table or array it adds to and the token it is
// at, and gives the new table or array and the token it has come to, or nothing on an error.
// The memory that the source changes in place is the value that is passed along.

module TomlParser {
  import opened Wrappers
  import opened TomlString
  import opened TomlLexer
  import opened TomlTree

  /** next_token behind a token. */
  function Advance(tok: Token, dot: bool): (r: Option<Token>)
    ensures r.Some? ==> WellFormed(r.value) && Left(r.value) <= |tok.after|
  {
    if NextToken(tok.after, dot).Some? then NextTokenFits(tok.after, dot); NextToken(tok.after, dot)
    else None
  }

  /** skip_newlines */
  function SkipNewlines(tok: Token, dot: bool): (r: Option<Token>)
    requires WellFormed(tok)
    ensures r.Some? ==> WellFormed(r.value) && Left(r.value) <= Left(tok)
    decreases Left(tok)
  {
    if tok.kind != Newline then Some(tok)
    else
      match Advance(tok, dot)
      case None => None
      case Some(next) => if next.eof then Some(next) else SkipNewlines(next, dot)
  }

  // ---- keys ----

  predicate KeyChar(c: char) {
    'A' <= c <= 'Z' || 'a' <= c <= 'z' || Digit(c) || c == '_' || c == '-'
  }

  /** The inside of a quoted key; a token of a quoted string is long enough for its quotes. */
  function Inside(text: string, n: nat): string {
    if |text| >= 2 * n then text[n..|text| - n] else ""
  }

  /** normalize_key */
  function NormalizeKey(text: string): Option<string> {
    if text != "" && (text[0] == '\'' || text[0] == '"') then
      var multi := Triple(text, text[0]);
      var body := Inside(text, if multi then 3 else 1);
      var key := if text[0] == '\'' then Some(CString(body)) else AsCString(NormBasic(body, multi));
      if key.None? || '\n' in key.value then None else key
    else if forall k :: 0 <= k < |text| ==> KeyChar(text[k]) then Some(text)
    else None
  }

  // ---- values, arrays, inline tables ----

  /** What create_keytable_in_table finds or makes for a key: where the table is. A table that a
      longer header made on its way may be opened once. */
  function OpenTable(tab: Table, key: string): (r: Option<(Table, nat)>)
    ensures r.Some? ==> r.value.1 < |r.value.0.tabs|
  {
    match CheckKey(tab, key)
    case Nowhere => Some((AddTable(tab, key, EMPTY), |tab.tabs|))
    case InTables(i) =>
      if tab.tabs[i].1.implicit then Some((PutTable(tab, i, tab.tabs[i].1.(implicit := false)), i)) else None
    case _ => None
  }

  /** The table under a dotted key: an existing one, or a new one. */
  function DottedTable(tab: Table, key: string): (r: Option<(Table, nat)>)
    ensures r.Some? ==> r.value.1 < |r.value.0.tabs|
  {
    match Index(tab.tabs, key)
    case Some(i) => Some((tab, i))
    case None => OpenTable(tab, key)
  }

  /** parse_keyval */
  function ParseKeyval(tab: Table, tok: Token): (r: Option<(Table, Token)>)
    requires WellFormed(tok)
    ensures r.Some? ==> WellFormed(r.value.1) && Left(r.value.1) < Left(tok)
    decreases Left(tok), 1
  {
    if tab.readonly || tok.kind != Str then None
    else
      match Advance(tok, true)
      case None => None
      case Some(t) =>
        if t.kind == Dot then ParseDotted(tab, tok.text, t)
        else if t.kind == Equal then
          match Advance(t, false)
          case None => None
          case Some(val) => ParseValue(tab, tok.text, val)
        else None
  }

  /** A dotted key: the rest of it, behind the dot, in the table under its first part. */
  function ParseDotted(tab: Table, keytext: string, dot: Token): (r: Option<(Table, Token)>)
    requires WellFormed(dot) && dot.kind == Dot
    ensures r.Some? ==> WellFormed(r.value.1) && Left(r.value.1) < Left(dot)
    decreases Left(dot), 0
  {
    match NormalizeKey(keytext)
    case None => None
    case Some(key) =>
      match DottedTable(tab, key)
      case None => None
      case Some((tab1, i)) =>
        match Advance(dot, true)
        case None => None
        case Some(next) =>
          match ParseKeyval(tab1.tabs[i].1, next)
          case None => None
          case Some((sub, end)) => Some((PutTable(tab1, i, sub), end))
  }

  /** The value behind the equals sign. */
  function ParseValue(tab: Table, keytext: string, val: Token): (r: Option<(Table, Token)>)
    requires WellFormed(val)
    ensures r.Some? ==> WellFormed(r.value.1) && Left(r.value.1) <= Left(val)
    decreases Left(val), 1
  {
    match NormalizeKey(keytext)
    case None => None
    case Some(key) =>
      if val.kind == Str then
        if CheckKey(tab, key) != Nowhere then None
        else
          match Advance(val, true)
          case None => None
          case Some(end) => Some((AddValue(tab, key, val.text), end))
      else if val.kind == LBracket then
        if CheckKey(tab, key) != Nowhere then None
        else
          match ParseArray(val)
          case None => None
          case Some((arr, end)) => Some((AddArray(tab, key, arr), end))
      else if val.kind == LBrace then
        match OpenTable(tab, key)
        case None => None
        case Some((tab1, i)) =>
          match ParseInline(tab1.tabs[i].1, val)
          case None => None
          case Some((sub, end)) => Some((PutTable(tab1, i, sub), end))
      else None
  }

  /** parse_array */
  function ParseArray(tok: Token): (r: Option<(Arr, Token)>)
    requires WellFormed(tok) && tok.kind == LBracket
    ensures r.Some? ==> WellFormed(r.value.1) && Left(r.value.1) < Left(tok)
    decreases Left(tok), 0
  {
    match Advance(tok, false)
    case None => None
    case Some(first) =>
      match ArrayItems(Arr(NoKind, []), first)
      case None => None
      case Some((arr, last)) =>
        if last.kind != RBracket then None
        else
          match Advance(last, true)
          case None => None
          case Some(end) => Some((arr, end))
  }

  /** One element of an array. */
  function ParseItem(tok: Token): (r: Option<(Item, Token)>)
    requires WellFormed(tok)
    ensures r.Some? ==> WellFormed(r.value.1) && Left(r.value.1) <= Left(tok)
    decreases Left(tok), 1
  {
    if tok.kind == Str then
      match Advance(tok, false)
      case None => None
      case Some(end) => Some((Value(tok.text), end))
    else if tok.kind == LBracket then
      match ParseArray(tok)
      case None => None
      case Some((arr, end)) => Some((SubArray(arr), end))
    else if tok.kind == LBrace then
      match ParseInline(EMPTY, tok)
      case None => None
      case Some((tab, end)) => Some((SubTable(tab), end))
    else None
  }

  /** The loop over the elements of an array, up to where the closing bracket should be. */
  function ArrayItems(arr: Arr, tok: Token): (r: Option<(Arr, Token)>)
    requires WellFormed(tok)
    ensures r.Some? ==> WellFormed(r.value.1) && Left(r.value.1) <= Left(tok)
    decreases Left(tok), 2
  {
    match SkipNewlines(tok, false)
    case None => None
    case Some(start) =>
      if start.kind == RBracket then Some((arr, start))
      else
        match ParseItem(start)
        case None => None
        case Some((item, end)) =>
          match SkipNewlines(end, false)
          case None => None
          case Some(sep) =>
            if sep.kind != Comma then Some((AddItem(arr, item), sep))
            else
              match Advance(sep, false)
              case None => None
              case Some(next) => ArrayItems(AddItem(arr, item), next)
  }

  /** parse_inline_table, into a table that is there already. */
  function ParseInline(tab: Table, tok: Token): (r: Option<(Table, Token)>)
    requires WellFormed(tok) && tok.kind == LBrace
    ensures r.Some? ==> WellFormed(r.value.1) && Left(r.value.1) < Left(tok)
    decreases Left(tok), 0
  {
    match Advance(tok, true)
    case None => None
    case Some(first) =>
      match InlineItems(tab, first)
      case None => None
      case Some((tab1, last)) =>
        if last.kind != RBrace then None
        else
          match Advance(last, true)
          case None => None
          case Some(end) => Some((tab1.(readonly := true), end))
  }

  /** The loop over the entries of an inline table, up to where the closing brace should be. */
  function InlineItems(tab: Table, tok: Token): (r: Option<(Table, Token)>)
    requires WellFormed(tok)
    ensures r.Some? ==> WellFormed(r.value.1) && Left(r.value.1) <= Left(tok)
    decreases Left(tok), 2
  {
    if tok.kind == RBrace then Some((tab, tok))
    else if tok.kind != Str then None
    else
      match ParseKeyval(tab, tok)
      case None => None
      case Some((tab1, end)) =>
        if end.kind == Newline then None
        else if end.kind != Comma then Some((tab1, end))
        else
          match Advance(end, true)
          case None => None
          case Some(next) => InlineItems(tab1, next)
  }

  // ---- headers ----

  const MAX_PATH := 10

  /** fill_tabpath: the keys of a header, up to the closing bracket. */
  function FillPath(tok: Token, top: nat): (r: Option<(seq<string>, Token)>)
    requires WellFormed(tok) && top <= MAX_PATH
    ensures r.Some? ==> 1 <= |r.value.0| <= MAX_PATH - top
    ensures r.Some? ==> WellFormed(r.value.1) && r.value.1.kind == RBracket && Left(r.value.1) <= Left(tok)
    decreases MAX_PATH - top
  {
    if top >= MAX_PATH || tok.kind != Str then None
    else
      match NormalizeKey(tok.text)
      case None => None
      case Some(key) =>
        match Advance(tok, true)
        case None => None
        case Some(t) =>
          if t.kind == RBracket then Some(([key], t))
          else if t.kind != Dot then None
          else
            match Advance(t, true)
            case None => None
            case Some(next) =>
              InFront([key], FillPath(next, top + 1))
  }

  /** Keys in front of those of a header. */
  function InFront(front: seq<string>, r: Option<(seq<string>, Token)>): Option<(seq<string>, Token)> {
    match r
    case None => None
    case Some((keys, end)) => Some((front + keys, end))
  }

  lemma InFrontTwice(a: seq<string>, b: seq<string>, r: Option<(seq<string>, Token)>)
    ensures InFront(a, InFront(b, r)) == InFront(a + b, r) && InFront([], r) == r
  {
    if r.Some? {
      assert a + (b + r.value.0) == a + b + r.value.0;
      assert [] + r.value.0 == r.value.0;
    }
  }

  /** The end of a header: `[x.y.z]` opens the table z, `[[x.y.z]]` adds a table to the array z. */
  function OpenLast(tab: Table, z: string, double: bool): Option<Table> {
    if !double then
      match OpenTable(tab, z)
      case None => None
      case Some((tab1, _)) => Some(tab1)
    else
      match Index(tab.arrs, z)
      case Some(i) =>
        if tab.arrs[i].1.kind != Tables then None
        else Some(PutArray(tab, i, AddItem(tab.arrs[i].1, SubTable(EMPTY))))
      case None =>
        if CheckKey(tab, z) != Nowhere then None
        else Some(AddArray(tab, z, AddItem(Arr(Tables, []), SubTable(EMPTY))))
  }

  /** The last table of an array of tables. */
  function LastTable(arr: Arr): Option<Table> {
    if arr.kind != Tables || arr.items == [] || !arr.items[|arr.items| - 1].SubTable? then None
    else Some(arr.items[|arr.items| - 1].tab)
  }

  function PutLast(arr: Arr, tab: Table): Arr
    requires arr.items != []
  {
    arr.(items := arr.items[|arr.items| - 1 := SubTable(tab)])
  }

  /** walk_tabpath along the keys and then the end of the header. Missing tables are made, as
      implicit ones; that a table is read-only is not looked at. */
  function Select(tab: Table, path: seq<string>, z: string, double: bool): Option<Table>
    decreases |path|
  {
    if path == [] then OpenLast(tab, z, double)
    else
      match CheckKey(tab, path[0])
      case InTables(i) =>
        (match Select(tab.tabs[i].1, path[1..], z, double)
         case None => None
         case Some(sub) => Some(PutTable(tab, i, sub)))
      case InArrays(i) =>
        (match LastTable(tab.arrs[i].1)
         case None => None
         case Some(last) =>
           match Select(last, path[1..], z, double)
           case None => None
           case Some(sub) => Some(PutArray(tab, i, PutLast(tab.arrs[i].1, sub))))
      case InValues(_) => None
      case Nowhere =>
        match Select(EMPTY.(implicit := true), path[1..], z, double)
        case None => None
        case Some(sub) => Some(AddTable(tab, path[0], sub))
  }

  // ---- the current table ----

  /** The current table is where the path leads from the root: into tables and into the last
      table of arrays. */
  function At(tab: Table, path: seq<string>): Option<Table>
    decreases |path|
  {
    if path == [] then Some(tab)
    else
      match CheckKey(tab, path[0])
      case InTables(i) => At(tab.tabs[i].1, path[1..])
      case InArrays(i) =>
        (match LastTable(tab.arrs[i].1)
         case None => None
         case Some(last) => At(last, path[1..]))
      case _ => None
  }

  /** The tree with another table in that place. */
  function Replace(tab: Table, path: seq<string>, new_: Table): Table
    requires At(tab, path).Some?
    decreases |path|
  {
    if path == [] then new_
    else
      match CheckKey(tab, path[0])
      case InTables(i) => PutTable(tab, i, Replace(tab.tabs[i].1, path[1..], new_))
      case InArrays(i) => PutArray(tab, i, PutLast(tab.arrs[i].1, Replace(LastTable(tab.arrs[i].1).value, path[1..], new_)))
  }

  lemma {:induction false} ReplacedThere(tab: Table, path: seq<string>, new_: Table)
    requires At(tab, path).Some?
    ensures At(Replace(tab, path, new_), path) == Some(new_)
    decreases |path|
  {
    if path != [] {
      match CheckKey(tab, path[0])
      case InTables(i) =>
        ReplacedThere(tab.tabs[i].1, path[1..], new_);
        CheckPutTable(tab, i, Replace(tab.tabs[i].1, path[1..], new_), path[0]);
      case InArrays(i) =>
        var last := LastTable(tab.arrs[i].1).value;
        ReplacedThere(last, path[1..], new_);
        CheckPutArray(tab, i, PutLast(tab.arrs[i].1, Replace(last, path[1..], new_)), path[0]);
    }
  }

  /** The keys of the three lists are disjoint at this key: an array is not hidden by a value. */
  ghost predicate NotHidden(tab: Table, key: string) {
    Index(tab.arrs, key).Some? ==> CheckKey(tab, key).InArrays?
  }

  lemma OpenedThere(tab: Table, z: string, double: bool)
    requires OpenLast(tab, z, double).Some? && NotHidden(tab, z)
    ensures At(OpenLast(tab, z, double).value, [z]).Some?
  {
    var r := OpenLast(tab, z, double).value;
    match CheckKey(tab, z)
    case Nowhere =>
      CheckAdded(tab, z, EMPTY, AddItem(Arr(Tables, []), SubTable(EMPTY)));
    case InTables(i) =>
      if !double {
        CheckPutTable(tab, i, tab.tabs[i].1.(implicit := false), z);
      }
    case InArrays(i) =>
      if double {
        CheckPutArray(tab, i, AddItem(tab.arrs[i].1, SubTable(EMPTY)), z);
      }
    case _ =>
  }

  /** The second character of a token, if the text goes on. */
  function Second(tok: Token): string {
    var s := tok.text + tok.after;
    if |s| > 1 then s[1..2] else ""
  }

  /** The tree after a header with the given keys. */
  ghost predicate Selected(root: Table, keys: seq<string>, double: bool, root1: Table) {
    keys != [] && Select(root, keys[..|keys| - 1], keys[|keys| - 1], double) == Some(root1)
  }

  /** parse_select: the new root, the path of the table that is now current, and the token. */
  function ParseSelect(root: Table, tok: Token): (r: Option<(Table, seq<string>, Token)>)
    requires WellFormed(tok) && tok.kind == LBracket
    ensures r.Some? ==> WellFormed(r.value.2) && r.value.2.kind == Newline && Left(r.value.2) < Left(tok)
    ensures r.Some? ==> Selected(root, r.value.1, Second(tok) == "[", r.value.0)
  {
    var double := Second(tok) == "[";
    match HeaderKeys(tok, double)
    case None => None
    case Some((keys, close)) => FinishSelect(root, keys, close, double)
  }

  /** The path walked, the last table made, and the closing brackets read. */
  function FinishSelect(root: Table, keys: seq<string>, close: Token, double: bool): (r: Option<(Table, seq<string>, Token)>)
    requires keys != [] && WellFormed(close) && close.kind == RBracket
    ensures r.Some? ==> WellFormed(r.value.2) && r.value.2.kind == Newline && Left(r.value.2) < Left(close)
    ensures r.Some? ==> r.value.1 == keys && Selected(root, keys, double, r.value.0)
  {
    match Select(root, keys[..|keys| - 1], keys[|keys| - 1], double)
    case None => None
    case Some(root1) =>
      match CloseHeader(close, double)
      case None => None
      case Some(end) => Some((root1, keys, end))
  }

  /** The keys of a header and the closing bracket behind them. */
  function HeaderKeys(tok: Token, double: bool): (r: Option<(seq<string>, Token)>)
    requires WellFormed(tok) && tok.kind == LBracket
    ensures r.Some? ==> r.value.0 != [] && WellFormed(r.value.1) && r.value.1.kind == RBracket && Left(r.value.1) < Left(tok)
  {
    match HeaderStart(tok, double)
    case None => None
    case Some(first) => FillPath(first, 0)
  }

  /** The token behind the opening bracket or brackets. */
  function HeaderStart(tok: Token, double: bool): (r: Option<Token>)
    requires WellFormed(tok) && tok.kind == LBracket
    ensures r.Some? ==> WellFormed(r.value) && Left(r.value) < Left(tok)
  {
    match Advance(tok, true)
    case None => None
    case Some(t) =>
      if !double then Some(t) else if t.kind == LBracket then Advance(t, true) else None
  }

  /** The closing brackets of a header, which must end the line. */
  function CloseHeader(close: Token, double: bool): (r: Option<Token>)
    requires WellFormed(close) && close.kind == RBracket
    ensures r.Some? ==> WellFormed(r.value) && r.value.kind == Newline && Left(r.value) < Left(close)
  {
    if double && Second(close) != "]" then None
    else
      match (if double then Advance(close, true) else Some(close))
      case None => None
      case Some(last) =>
        if last.kind != RBracket then None
        else
          match Advance(last, true)
          case None => None
          case Some(end) => if end.kind == Newline then Some(end) else None
  }
}
