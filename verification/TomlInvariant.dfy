// What every successful parse gives: trees in which no table has a key twice. And the path of
// the current table always leads somewhere.

module TomlInvariant {
  import opened TomlLexer
  import opened TomlTree
  import opened TomlParser

  // ---- entries ----

  lemma OpenTableValid(tab: Table, key: string)
    requires Valid(tab) && OpenTable(tab, key).Some?
    ensures Valid(OpenTable(tab, key).value.0)
    ensures Valid(OpenTable(tab, key).value.0.tabs[OpenTable(tab, key).value.1].1)
  {
    match CheckKey(tab, key)
    case Nowhere =>
      EmptyValid();
      AddTableValid(tab, key, EMPTY);
    case InTables(i) =>
      var sub := tab.tabs[i].1;
      FlagsValid(sub, false, sub.readonly);
      PutTableValid(tab, i, sub.(implicit := false));
    case _ =>
  }

  lemma {:induction false} ParseKeyvalValid(tab: Table, tok: Token)
    requires WellFormed(tok) && Valid(tab) && ParseKeyval(tab, tok).Some?
    ensures Valid(ParseKeyval(tab, tok).value.0)
    decreases Left(tok), 1
  {
    var t := Advance(tok, true).value;
    if t.kind == Dot {
      ParseDottedValid(tab, tok.text, t);
    } else {
      ParseValueValid(tab, tok.text, Advance(t, false).value);
    }
  }

  lemma {:induction false} ParseDottedValid(tab: Table, keytext: string, dot: Token)
    requires WellFormed(dot) && dot.kind == Dot && Valid(tab) && ParseDotted(tab, keytext, dot).Some?
    ensures Valid(ParseDotted(tab, keytext, dot).value.0)
    decreases Left(dot), 0
  {
    var key := NormalizeKey(keytext).value;
    if Index(tab.tabs, key).None? {
      OpenTableValid(tab, key);
    }
    var (tab1, i) := DottedTable(tab, key).value;
    var next := Advance(dot, true).value;
    ParseKeyvalValid(tab1.tabs[i].1, next);
    PutTableValid(tab1, i, ParseKeyval(tab1.tabs[i].1, next).value.0);
  }

  lemma {:induction false} ParseValueValid(tab: Table, keytext: string, val: Token)
    requires WellFormed(val) && Valid(tab) && ParseValue(tab, keytext, val).Some?
    ensures Valid(ParseValue(tab, keytext, val).value.0)
    decreases Left(val), 1
  {
    var key := NormalizeKey(keytext).value;
    if val.kind == Str {
      AddValueValid(tab, key, val.text);
    } else if val.kind == LBracket {
      ParseArrayValid(val);
      AddArrayValid(tab, key, ParseArray(val).value.0);
    } else {
      OpenTableValid(tab, key);
      var (tab1, i) := OpenTable(tab, key).value;
      ParseInlineValid(tab1.tabs[i].1, val);
      PutTableValid(tab1, i, ParseInline(tab1.tabs[i].1, val).value.0);
    }
  }

  // ---- arrays and inline tables ----

  lemma {:induction false} ParseArrayValid(tok: Token)
    requires WellFormed(tok) && tok.kind == LBracket && ParseArray(tok).Some?
    ensures ValidArr(ParseArray(tok).value.0)
    decreases Left(tok), 0
  {
    ArrayItemsValid(Arr(NoKind, []), Advance(tok, false).value);
  }

  lemma {:induction false} ParseItemValid(tok: Token)
    requires WellFormed(tok) && ParseItem(tok).Some?
    ensures ValidItem(ParseItem(tok).value.0)
    decreases Left(tok), 1
  {
    if tok.kind == LBracket {
      ParseArrayValid(tok);
    } else if tok.kind == LBrace {
      EmptyValid();
      ParseInlineValid(EMPTY, tok);
    }
  }

  lemma {:induction false} ArrayItemsValid(arr: Arr, tok: Token)
    requires WellFormed(tok) && ValidArr(arr) && ArrayItems(arr, tok).Some?
    ensures ValidArr(ArrayItems(arr, tok).value.0)
    decreases Left(tok), 2
  {
    var start := SkipNewlines(tok, false).value;
    if start.kind != RBracket {
      ParseItemValid(start);
      var (item, end) := ParseItem(start).value;
      AddItemValid(arr, item);
      var sep := SkipNewlines(end, false).value;
      if sep.kind == Comma {
        ArrayItemsValid(AddItem(arr, item), Advance(sep, false).value);
      }
    }
  }

  lemma {:induction false} ParseInlineValid(tab: Table, tok: Token)
    requires WellFormed(tok) && tok.kind == LBrace && Valid(tab) && ParseInline(tab, tok).Some?
    ensures Valid(ParseInline(tab, tok).value.0)
    decreases Left(tok), 0
  {
    var first := Advance(tok, true).value;
    InlineItemsValid(tab, first);
    var tab1 := InlineItems(tab, first).value.0;
    FlagsValid(tab1, tab1.implicit, true);
  }

  lemma {:induction false} InlineItemsValid(tab: Table, tok: Token)
    requires WellFormed(tok) && Valid(tab) && InlineItems(tab, tok).Some?
    ensures Valid(InlineItems(tab, tok).value.0)
    decreases Left(tok), 2
  {
    if tok.kind == Str {
      ParseKeyvalValid(tab, tok);
      var (tab1, end) := ParseKeyval(tab, tok).value;
      if end.kind == Comma {
        InlineItemsValid(tab1, Advance(end, true).value);
      }
    }
  }

  // ---- headers ----

  lemma PutLastValid(arr: Arr, tab: Table)
    requires ValidArr(arr) && LastTable(arr).Some? && Valid(tab)
    ensures ValidArr(PutLast(arr, tab))
  {}

  lemma OpenLastValid(tab: Table, z: string, double: bool)
    requires Valid(tab) && OpenLast(tab, z, double).Some?
    ensures Valid(OpenLast(tab, z, double).value)
  {
    EmptyValid();
    if !double {
      OpenTableValid(tab, z);
    } else {
      match Index(tab.arrs, z)
      case Some(i) =>
        AddItemValid(tab.arrs[i].1, SubTable(EMPTY));
        PutArrayValid(tab, i, AddItem(tab.arrs[i].1, SubTable(EMPTY)));
      case None =>
        AddItemValid(Arr(Tables, []), SubTable(EMPTY));
        AddArrayValid(tab, z, AddItem(Arr(Tables, []), SubTable(EMPTY)));
    }
  }

  lemma {:induction false} SelectValid(tab: Table, path: seq<string>, z: string, double: bool)
    requires Valid(tab) && Select(tab, path, z, double).Some?
    ensures Valid(Select(tab, path, z, double).value)
    decreases |path|
  {
    if path == [] {
      OpenLastValid(tab, z, double);
    } else {
      match CheckKey(tab, path[0])
      case InTables(i) =>
        SelectValid(tab.tabs[i].1, path[1..], z, double);
        PutTableValid(tab, i, Select(tab.tabs[i].1, path[1..], z, double).value);
      case InArrays(i) =>
        var arr := tab.arrs[i].1;
        var last := LastTable(arr).value;
        assert ValidItem(arr.items[|arr.items| - 1]);
        SelectValid(last, path[1..], z, double);
        PutLastValid(arr, Select(last, path[1..], z, double).value);
        PutArrayValid(tab, i, PutLast(arr, Select(last, path[1..], z, double).value));
      case Nowhere =>
        EmptyValid();
        FlagsValid(EMPTY, true, false);
        SelectValid(EMPTY.(implicit := true), path[1..], z, double);
        AddTableValid(tab, path[0], Select(EMPTY.(implicit := true), path[1..], z, double).value);
      case _ =>
    }
  }

  // ---- the current table ----

  lemma {:induction false} AtValid(tab: Table, path: seq<string>)
    requires Valid(tab) && At(tab, path).Some?
    ensures Valid(At(tab, path).value)
    decreases |path|
  {
    if path != [] {
      match CheckKey(tab, path[0])
      case InTables(i) => AtValid(tab.tabs[i].1, path[1..]);
      case InArrays(i) =>
        var arr := tab.arrs[i].1;
        assert ValidItem(arr.items[|arr.items| - 1]);
        AtValid(LastTable(arr).value, path[1..]);
      case _ =>
    }
  }

  lemma {:induction false} ReplaceValid(tab: Table, path: seq<string>, new_: Table)
    requires Valid(tab) && At(tab, path).Some? && Valid(new_)
    ensures Valid(Replace(tab, path, new_))
    decreases |path|
  {
    if path != [] {
      match CheckKey(tab, path[0])
      case InTables(i) =>
        ReplaceValid(tab.tabs[i].1, path[1..], new_);
        PutTableValid(tab, i, Replace(tab.tabs[i].1, path[1..], new_));
      case InArrays(i) =>
        var arr := tab.arrs[i].1;
        var last := LastTable(arr).value;
        assert ValidItem(arr.items[|arr.items| - 1]);
        ReplaceValid(last, path[1..], new_);
        PutLastValid(arr, Replace(last, path[1..], new_));
        PutArrayValid(tab, i, PutLast(arr, Replace(last, path[1..], new_)));
      case _ =>
    }
  }

  /** In a valid table a key is found in one list at most, so looking it up list by list and
      looking it up in one of them agree. */
  lemma FoundOnce(tab: Table, key: string)
    requires NoDuplicates(Keys(tab))
    ensures Index(tab.kvals, key).Some? ==> Index(tab.arrs, key).None? && Index(tab.tabs, key).None?
    ensures Index(tab.arrs, key).Some? ==> CheckKey(tab, key) == InArrays(Index(tab.arrs, key).value)
    ensures Index(tab.tabs, key).Some? ==> CheckKey(tab, key) == InTables(Index(tab.tabs, key).value)
  {
    var ks, a, b := Keys(tab), |tab.kvals|, |tab.kvals| + |tab.arrs|;
    if Index(tab.kvals, key).Some? {
      assert ks[Index(tab.kvals, key).value] == key;
    }
    if Index(tab.arrs, key).Some? {
      assert ks[a + Index(tab.arrs, key).value] == key;
    }
    if Index(tab.tabs, key).Some? {
      assert ks[b + Index(tab.tabs, key).value] == key;
    }
  }

  lemma LastValid(arr: Arr)
    requires ValidArr(arr) && LastTable(arr).Some?
    ensures Valid(LastTable(arr).value)
  {
    assert ValidItem(arr.items[|arr.items| - 1]);
  }

  lemma ThroughLast(tab: Table, i: nat, key: string, sub: Table, path: seq<string>)
    requires CheckKey(tab, key) == InArrays(i) && LastTable(tab.arrs[i].1).Some? && At(sub, path).Some?
    ensures At(PutArray(tab, i, PutLast(tab.arrs[i].1, sub)), [key] + path).Some?
  {
    CheckPutArray(tab, i, PutLast(tab.arrs[i].1, sub), key);
    assert ([key] + path)[1..] == path;
  }

  /** A header makes its table the current one: the path of its keys leads there. */
  lemma {:induction false} SelectedThere(tab: Table, path: seq<string>, z: string, double: bool)
    requires Valid(tab) && Select(tab, path, z, double).Some?
    ensures At(Select(tab, path, z, double).value, path + [z]).Some?
    decreases |path|
  {
    if path == [] {
      assert path + [z] == [z];
      FoundOnce(tab, z);
      OpenedThere(tab, z, double);
    } else {
      var rest, key := path[1..], path[0];
      assert path + [z] == [key] + (rest + [z]) && (path + [z])[1..] == rest + [z];
      match CheckKey(tab, key)
      case InTables(i) =>
        SelectedThere(tab.tabs[i].1, rest, z, double);
        CheckPutTable(tab, i, Select(tab.tabs[i].1, rest, z, double).value, key);
      case InArrays(i) =>
        LastValid(tab.arrs[i].1);
        SelectedThere(LastTable(tab.arrs[i].1).value, rest, z, double);
        ThroughLast(tab, i, key, Select(LastTable(tab.arrs[i].1).value, rest, z, double).value, rest + [z]);
      case Nowhere =>
        EmptyValid();
        FlagsValid(EMPTY, true, false);
        SelectedThere(EMPTY.(implicit := true), rest, z, double);
        CheckAdded(tab, key, Select(EMPTY.(implicit := true), rest, z, double).value, Arr(NoKind, []));
      case _ =>
    }
  }
}
