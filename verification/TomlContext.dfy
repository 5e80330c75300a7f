// The parser as the source runs it: a context with the token it is at, the root, the current
// table and the path of the last header, changed step by step. The tables themselves are
// values, named by their path from the root.

module TomlContext {
  import opened Wrappers
  import opened TomlString
  import opened TomlLexer
  import opened TomlTree
  import opened TomlParser
  import opened TomlDocument
  import opened TomlWalk
  import TomlScan

  /** A method has come to the result and the token of the function that specifies it. */
  ghost predicate Agrees<T(!new)>(spec: Option<(T, Token)>, got: Option<T>, now: Token) {
    match spec
    case None => got.None?
    case Some((x, t)) => got == Some(x) && now == t
  }

  class Context {
    var tok: Token
    var root: Table
    var path: seq<string>
    const keys: array<string>
    var top: nat

    ghost predicate Valid()
      reads this
    {
      WellFormed(tok) && keys.Length == MAX_PATH && top <= MAX_PATH
    }

    constructor (conf: string)
      ensures tok == Token(Newline, "", CString(conf), false)
      ensures root == EMPTY && path == [] && keys.Length == MAX_PATH && top == 0 && fresh(keys)
    {
      tok, root, path := Token(Newline, "", CString(conf), false), EMPTY, [];
      keys, top := new string[MAX_PATH], 0;
    }

    /** next_token */
    method NextTok(dot: bool) returns (ok: bool)
      modifies this`tok
      ensures ok <==> Advance(old(tok), dot).Some?
      ensures ok ==> tok == Advance(old(tok), dot).value
    {
      var r := TomlScan.Next(tok.after, dot);
      ok := r.Some?;
      if ok { tok := r.value; }
    }

    /** eat_token */
    method EatToken(kind: Kind, dot: bool) returns (ok: bool)
      modifies this`tok
      ensures ok <==> old(tok).kind == kind && Advance(old(tok), dot).Some?
      ensures ok ==> tok == Advance(old(tok), dot).value
    {
      if tok.kind != kind { return false; }
      ok := NextTok(dot);
    }

    /** skip_newlines */
    method SkipLines(dot: bool) returns (ok: bool)
      requires WellFormed(tok)
      modifies this`tok
      ensures ok <==> SkipNewlines(old(tok), dot).Some?
      ensures ok ==> tok == SkipNewlines(old(tok), dot).value
    {
      while tok.kind == Newline
        invariant WellFormed(tok) && SkipNewlines(old(tok), dot) == SkipNewlines(tok, dot)
        decreases Left(tok)
      {
        var next := NextTok(dot);
        if !next { return false; }
        if tok.eof { return true; }
      }
      return true;
    }

    /** parse_keyval */
    method Keyval(tab: Table) returns (r: Option<Table>)
      requires WellFormed(tok)
      modifies this`tok
      ensures Agrees(ParseKeyval(tab, old(tok)), r, tok)
      decreases Left(tok), 1
    {
      if tab.readonly { return None; }
      var key := tok.text;
      var ok := EatToken(Str, true);
      if !ok { return None; }
      if tok.kind == Dot {
        r := Dotted(tab, key);
        return;
      }
      if tok.kind != Equal { return None; }
      ok := NextTok(false);
      if !ok { return None; }
      r := ValueOf(tab, key);
    }

    /** A dotted key: the rest of it in the table under its first part. */
    method Dotted(tab: Table, key: string) returns (r: Option<Table>)
      requires WellFormed(tok) && tok.kind == Dot
      modifies this`tok
      ensures Agrees(ParseDotted(tab, key, old(tok)), r, tok)
      decreases Left(tok), 0
    {
      var name := NormalizeKey(key);
      if name.None? { return None; }
      var found := Index(tab.tabs, name.value);
      var base := if found.Some? then Some((tab, found.value)) else None;
      if base.None? {
        base := OpenTable(tab, name.value);
        if base.None? { return None; }
      }
      var ok := NextTok(true);
      if !ok { return None; }
      var sub := Keyval(base.value.0.tabs[base.value.1].1);
      if sub.None? { return None; }
      return Some(PutTable(base.value.0, base.value.1, sub.value));
    }

    /** The switch over the token behind the equals sign. */
    method ValueOf(tab: Table, key: string) returns (r: Option<Table>)
      requires WellFormed(tok)
      modifies this`tok
      ensures Agrees(ParseValue(tab, key, old(tok)), r, tok)
      decreases Left(tok), 1
    {
      var name := NormalizeKey(key);
      if name.None? { return None; }
      if tok.kind == Str {
        if CheckKey(tab, name.value) != Nowhere { return None; }
        var raw := tok.text;
        var ok := NextTok(true);
        return if ok then Some(AddValue(tab, name.value, raw)) else None;
      }
      if tok.kind == LBracket {
        if CheckKey(tab, name.value) != Nowhere { return None; }
        var arr := ArrayAt();
        return if arr.Some? then Some(AddArray(tab, name.value, arr.value)) else None;
      }
      if tok.kind == LBrace {
        var base := OpenTable(tab, name.value);
        if base.None? { return None; }
        var sub := InlineAt(base.value.0.tabs[base.value.1].1);
        return if sub.Some? then Some(PutTable(base.value.0, base.value.1, sub.value)) else None;
      }
      return None;
    }

    /** parse_array */
    method ArrayAt() returns (r: Option<Arr>)
      requires WellFormed(tok) && tok.kind == LBracket
      modifies this`tok
      ensures Agrees(ParseArray(old(tok)), r, tok)
      decreases Left(tok), 0
    {
      var ok := EatToken(LBracket, false);
      if !ok { return None; }
      r := Elements();
      if r.None? { return None; }
      ok := EatToken(RBracket, true);
      if !ok { return None; }
    }

    /** The loop over the elements. */
    method Elements() returns (r: Option<Arr>)
      requires WellFormed(tok)
      modifies this`tok
      ensures Agrees(ArrayItems(Arr(NoKind, []), old(tok)), r, tok)
      decreases Left(tok), 2
    {
      var arr := Arr(NoKind, []);
      while true
        invariant WellFormed(tok) && Left(tok) <= Left(old(tok))
        invariant ArrayItems(Arr(NoKind, []), old(tok)) == ArrayItems(arr, tok)
        decreases Left(tok)
      {
        var ok := SkipLines(false);
        if !ok { return None; }
        if tok.kind == RBracket { return Some(arr); }
        var item := Element();
        if item.None? { return None; }
        arr := AddItem(arr, item.value);
        ok := SkipLines(false);
        if !ok { return None; }
        if tok.kind != Comma { return Some(arr); }
        ok := EatToken(Comma, false);
        if !ok { return None; }
      }
    }

    /** The switch over the token of an element. */
    method Element() returns (r: Option<Item>)
      requires WellFormed(tok)
      modifies this`tok
      ensures Agrees(ParseItem(old(tok)), r, tok)
      decreases Left(tok), 1
    {
      if tok.kind == Str {
        var raw := tok.text;
        var ok := EatToken(Str, false);
        return if ok then Some(Value(raw)) else None;
      }
      if tok.kind == LBracket {
        var arr := ArrayAt();
        return if arr.Some? then Some(SubArray(arr.value)) else None;
      }
      if tok.kind == LBrace {
        var tab := InlineAt(EMPTY);
        return if tab.Some? then Some(SubTable(tab.value)) else None;
      }
      return None;
    }

    /** parse_inline_table */
    method InlineAt(tab: Table) returns (r: Option<Table>)
      requires WellFormed(tok) && tok.kind == LBrace
      modifies this`tok
      ensures Agrees(ParseInline(tab, old(tok)), r, tok)
      decreases Left(tok), 0
    {
      var ok := EatToken(LBrace, true);
      if !ok { return None; }
      r := Entries(tab);
      if r.None? { return None; }
      ok := EatToken(RBrace, true);
      return if ok then Some(r.value.(readonly := true)) else None;
    }

    /** The loop over the entries. */
    method Entries(tab: Table) returns (r: Option<Table>)
      requires WellFormed(tok)
      modifies this`tok
      ensures Agrees(InlineItems(tab, old(tok)), r, tok)
      decreases Left(tok), 2
    {
      var cur := tab;
      while true
        invariant WellFormed(tok) && Left(tok) <= Left(old(tok))
        invariant InlineItems(tab, old(tok)) == InlineItems(cur, tok)
        decreases Left(tok)
      {
        if tok.kind == Newline { return None; }
        if tok.kind == RBrace { return Some(cur); }
        if tok.kind != Str { return None; }
        var next := Keyval(cur);
        if next.None? { return None; }
        cur := next.value;
        if tok.kind == Newline { return None; }
        if tok.kind != Comma { return Some(cur); }
        var ok := EatToken(Comma, true);
        if !ok { return None; }
      }
    }

    // ---- headers ----

    /** The keys so far, and those to come. */
    ghost predicate Filled(first: Token)
      reads this, keys
    {
      && Valid() && WellFormed(first)
      && FillPath(first, 0) == InFront(keys[..top], FillPath(tok, top))
    }

    /** One key put into the path. */
    method TakeKey() returns (ok: bool)
      requires Valid() && top < MAX_PATH
      modifies this`tok, this`top, keys
      ensures ok <==> old(tok).kind == Str && NormalizeKey(old(tok).text).Some? && Advance(old(tok), true).Some?
      ensures ok ==> Valid() && top == old(top) + 1 && tok == Advance(old(tok), true).value
      ensures ok ==> keys[..top] == old(keys[..top]) + [NormalizeKey(old(tok).text).value]
    {
      ghost var before := keys[..top];
      if tok.kind != Str { return false; }
      var key := NormalizeKey(tok.text);
      if key.None? { return false; }
      keys[top] := key.value;
      top := top + 1;
      assert keys[..top] == before + [key.value];
      ok := NextTok(true);
    }

    /** One key of a header: it may be the last, or a dot and another one follow. */
    method NextKey(ghost first: Token) returns (ok: bool, last: bool)
      requires Filled(first)
      modifies this`tok, this`top, keys
      ensures ok && !last ==> Filled(first) && top == old(top) + 1
      ensures ok && last ==> Valid() && FillPath(first, 0) == Some((keys[..top], tok))
      ensures !ok ==> FillPath(first, 0).None?
    {
      ghost var before, here, at := keys[..top], tok, top;
      if top >= MAX_PATH { return false, false; }
      ok := TakeKey();
      if !ok { return false, false; }
      KeyTaken(first, before, here, at, NormalizeKey(here.text).value, tok);
      if tok.kind == RBracket { return true, true; }
      if tok.kind != Dot { return false, false; }
      ok := NextTok(true);
      last := false;
    }

    /** fill_tabpath */
    method FillTabpath() returns (ok: bool)
      requires Valid()
      modifies this`tok, this`top, keys
      ensures ok <==> FillPath(old(tok), 0).Some?
      ensures ok ==> Valid() && FillPath(old(tok), 0) == Some((keys[..top], tok))
    {
      ghost var first := tok;
      top := 0;
      InFrontTwice([], [], FillPath(tok, 0));
      var last := false;
      while !last
        invariant !last ==> Filled(first)
        invariant last ==> Valid() && FillPath(first, 0) == Some((keys[..top], tok))
        decreases !last, MAX_PATH - top
      {
        ok, last := NextKey(first);
        if !ok { return false; }
      }
      return true;
    }

    /** The beginning of parse_select. */
    method OpenBrackets(llb: bool) returns (ok: bool)
      requires Valid() && tok.kind == LBracket
      modifies this`tok
      ensures ok <==> HeaderStart(old(tok), llb).Some?
      ensures ok ==> Valid() && tok == HeaderStart(old(tok), llb).value
    {
      ok := EatToken(LBracket, true);
      if ok && llb {
        ok := EatToken(LBracket, true);
      }
    }

    /** One step of walk_tabpath: from the table behind the keys in `here` to the next. */
    method WalkStep(here: seq<string>, key: string, ghost whole: Option<Table>, ghost rest: seq<string>,
                    ghost z: string, ghost llb: bool) returns (ok: bool)
      requires Walking(whole, root, here, [key] + rest, z, llb)
      modifies this`root
      ensures ok ==> Walking(whole, root, here + [key], rest, z, llb)
      ensures !ok ==> whole.None?
    {
      var curtab := At(root, here).value;
      match CheckKey(curtab, key) {
        case InTables(_) =>
        case InArrays(k) =>
          if LastTable(curtab.arrs[k].1).None? {
            IntoNothing(curtab, key, rest, z, llb);
            return false;
          }
        case InValues(_) =>
          IntoNothing(curtab, key, rest, z, llb);
          return false;
        case Nowhere =>
          WalkNew(whole, root, here, key, rest, z, llb);
          root := Replace(root, here, AddTable(curtab, key, IMPLICIT));
          return true;
      }
      assert [key][1..] == [];
      WalkOn(whole, root, here, key, rest, z, llb);
      return true;
    }

    /** walk_tabpath: along all keys but the last, making implicit tables where there are none. */
    method WalkTabpath(ghost z: string, ghost llb: bool) returns (ok: bool)
      requires Valid() && top >= 1
      modifies this`root
      ensures ok ==> Walking(Select(old(root), keys[..top - 1], z, llb), root, keys[..top - 1], [], z, llb)
      ensures !ok ==> Select(old(root), keys[..top - 1], z, llb).None?
    {
      ghost var names := keys[..top - 1];
      ghost var whole := Select(root, names, z, llb);
      var here: seq<string> := [];
      WalkStart(root, names, z, llb);
      while |here| < top - 1
        invariant |here| <= |names| && names == here + names[|here|..]
        invariant Walking(whole, root, here, names[|here|..], z, llb)
      {
        ghost var rest := names[|here| + 1..];
        NextName(names, here, keys[|here|], rest);
        ok := WalkStep(here, keys[|here|], whole, rest, z, llb);
        if !ok { return false; }
        here := here + [keys[|here|]];
      }
      assert here == names && names[|here|..] == [];
      return true;
    }

    /** The table of the header: found by the walk, made at its end, and now the current one. */
    method MakeTable(llb: bool) returns (ok: bool)
      requires Valid() && top >= 1
      modifies this`root, this`path
      ensures ok <==> Select(old(root), keys[..top][..top - 1], keys[..top][top - 1], llb).Some?
      ensures ok ==> root == Select(old(root), keys[..top][..top - 1], keys[..top][top - 1], llb).value
      ensures path == if ok then keys[..top] else old(path)
    {
      var z := keys[top - 1];
      assert keys[..top][..top - 1] == keys[..top - 1];
      ok := WalkTabpath(z, llb);
      if !ok { return false; }
      var last := OpenLast(At(root, keys[..top - 1]).value, z, llb);
      if last.None? { return false; }
      root, path := Replace(root, keys[..top - 1], last.value), keys[..top];
      return true;
    }

    /** A header up to its closing bracket. */
    method ReadHeader(llb: bool) returns (ok: bool)
      requires Valid() && tok.kind == LBracket
      modifies this`tok, this`top, keys
      ensures ok <==> HeaderKeys(old(tok), llb).Some?
      ensures ok ==> Valid() && HeaderKeys(old(tok), llb) == Some((keys[..top], tok))
    {
      ok := OpenBrackets(llb);
      if ok {
        ok := FillTabpath();
      }
    }

    /** parse_select */
    method SelectTable() returns (ok: bool)
      requires Valid() && tok.kind == LBracket
      modifies this, keys
      ensures ok <==> ParseSelect(old(root), old(tok)).Some?
      ensures ok ==> Valid() && ParseSelect(old(root), old(tok)) == Some((root, path, tok))
    {
      var llb := Second(tok) == "[";
      ok := ReadHeader(llb);
      if ok {
        ok := Finish(llb);
      }
    }

    /** The rest of parse_select, with the path in `keys`. */
    method Finish(llb: bool) returns (ok: bool)
      requires Valid() && tok.kind == RBracket && top >= 1
      modifies this`tok, this`root, this`path
      ensures ok <==> FinishSelect(old(root), keys[..top], old(tok), llb).Some?
      ensures ok ==> Valid() && FinishSelect(old(root), keys[..top], old(tok), llb) == Some((root, path, tok))
    {
      ok := MakeTable(llb);
      if ok {
        ok := CloseBrackets(llb);
      }
    }

    /** The end of parse_select. */
    method CloseBrackets(llb: bool) returns (ok: bool)
      requires Valid() && tok.kind == RBracket
      modifies this`tok
      ensures ok <==> CloseHeader(old(tok), llb).Some?
      ensures ok ==> Valid() && tok == CloseHeader(old(tok), llb).value
    {
      if llb {
        if Second(tok) != "]" { return false; }
        ok := EatToken(RBracket, true);
        if !ok { return false; }
      }
      ok := EatToken(RBracket, true);
      if !ok { return false; }
      ok := tok.kind == Newline;
    }

    // ---- documents ----

    /** The state of toml_parse between lines: what is to come decides what the whole gives. */
    ghost predicate Between(whole: Option<Table>)
      reads this
    {
      && Valid() && TomlTree.Valid(root) && At(root, path).Some?
      && whole == ParseLines(root, path, tok)
    }

    /** The case of an entry. */
    method Line(ghost whole: Option<Table>) returns (ok: bool)
      requires Between(whole) && tok.kind == Str
      modifies this
      ensures ok ==> Between(whole) && Left(tok) < Left(old(tok))
      ensures !ok ==> whole.None?
    {
      var cur := Keyval(At(root, path).value);
      if cur.None? { return false; }
      if tok.kind != Newline { return false; }
      EntryKeeps(root, path, old(tok));
      root := Replace(root, path, cur.value);
      ok := EatToken(Newline, true);
    }

    /** The case of a header. */
    method Header(ghost whole: Option<Table>) returns (ok: bool)
      requires Between(whole) && tok.kind == LBracket
      modifies this, keys
      ensures ok ==> Between(whole) && Left(tok) < Left(old(tok))
      ensures !ok ==> whole.None?
    {
      ok := SelectTable();
      if ok {
        HeaderKeeps(old(root), path, Second(old(tok)) == "[", root);
      }
    }
  }

  /** A key taken from a header, and what stands behind it. */
  lemma KeyTaken(first: Token, before: seq<string>, here: Token, at: nat, key: string, t: Token)
    requires WellFormed(first) && WellFormed(here) && WellFormed(t) && at < MAX_PATH
    requires FillPath(first, 0) == InFront(before, FillPath(here, at))
    requires here.kind == Str && NormalizeKey(here.text) == Some(key) && Advance(here, true) == Some(t)
    ensures t.kind == RBracket ==> FillPath(first, 0) == Some((before + [key], t))
    ensures t.kind == Dot && Advance(t, true).Some? ==>
      FillPath(first, 0) == InFront(before + [key], FillPath(Advance(t, true).value, at + 1))
    ensures t.kind != RBracket && (t.kind != Dot || Advance(t, true).None?) ==> FillPath(first, 0).None?
  {
    if t.kind == Dot && Advance(t, true).Some? {
      InFrontTwice(before, [key], FillPath(Advance(t, true).value, at + 1));
    }
  }

  /** toml_parse */
  method TomlParse(conf: string) returns (r: Option<Table>)
    ensures r == Parse(conf)
  {
    var ctx := new Context(conf);
    var ok := ctx.NextTok(true);
    if !ok { return None; }
    EmptyValid();
    ghost var whole := Parse(conf);
    while !ctx.tok.eof
      invariant fresh(ctx) && fresh(ctx.keys) && ctx.Between(whole)
      decreases Left(ctx.tok)
    {
      match ctx.tok.kind {
        case Newline => ok := ctx.NextTok(true);
        case Str => ok := ctx.Line(whole);
        case LBracket => ok := ctx.Header(whole);
        case _ => ok := false;
      }
      if !ok { return None; }
    }
    return Some(ctx.root);
  }
}
