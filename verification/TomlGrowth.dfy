// Parsing only adds: whatever is in the tree at some point of a document is there at the end,
// in the same place of the same list.

module TomlGrowth {
  import opened TomlLexer
  import opened TomlTree
  import opened TomlParser
  import opened TomlDocument

  // ---- one tree within another ----

  /** Marks change one way only: a table made on the way of a header may be opened, and one may
      become read-only. */
  predicate MarksOn(a: Table, b: Table) {
    (b.implicit ==> a.implicit) && (a.readonly ==> b.readonly)
  }

  /** Every child of `a` is in `b` at the same number, values as they were, arrays and tables
      possibly with more in them. */
  ghost predicate Within(a: Table, b: Table) {
    && MarksOn(a, b)
    && a.kvals <= b.kvals
    && |a.arrs| <= |b.arrs| && (forall i :: 0 <= i < |a.arrs| ==> a.arrs[i].0 == b.arrs[i].0 && WithinArr(a.arrs[i].1, b.arrs[i].1))
    && |a.tabs| <= |b.tabs| && (forall i :: 0 <= i < |a.tabs| ==> a.tabs[i].0 == b.tabs[i].0 && Within(a.tabs[i].1, b.tabs[i].1))
  }

  ghost predicate WithinArr(a: Arr, b: Arr) {
    (|a.items| == |b.items| ==> a.kind == b.kind)
    && |a.items| <= |b.items| && forall i :: 0 <= i < |a.items| ==> WithinItem(a.items[i], b.items[i])
  }

  ghost predicate WithinItem(a: Item, b: Item) {
    match a
    case Value(_) => a == b
    case SubArray(x) => b.SubArray? && WithinArr(x, b.arr)
    case SubTable(x) => b.SubTable? && Within(x, b.tab)
  }

  lemma {:induction false} Same(a: Table)
    ensures Within(a, a)
    decreases a
  {
    forall i | 0 <= i < |a.arrs| ensures WithinArr(a.arrs[i].1, a.arrs[i].1) {
      SameArr(a.arrs[i].1);
    }
    forall i | 0 <= i < |a.tabs| ensures Within(a.tabs[i].1, a.tabs[i].1) {
      Same(a.tabs[i].1);
    }
  }

  lemma {:induction false} SameArr(a: Arr)
    ensures WithinArr(a, a)
    decreases a
  {
    forall i | 0 <= i < |a.items| ensures WithinItem(a.items[i], a.items[i]) {
      SameItem(a.items[i]);
    }
  }

  lemma {:induction false} SameItem(a: Item)
    ensures WithinItem(a, a)
    decreases a
  {
    match a
    case Value(_) =>
    case SubArray(x) => SameArr(x);
    case SubTable(x) => Same(x);
  }

  lemma {:induction false} Through(a: Table, b: Table, c: Table)
    requires Within(a, b) && Within(b, c)
    ensures Within(a, c)
    decreases a
  {
    forall i | 0 <= i < |a.arrs| ensures WithinArr(a.arrs[i].1, c.arrs[i].1) {
      ThroughArr(a.arrs[i].1, b.arrs[i].1, c.arrs[i].1);
    }
    forall i | 0 <= i < |a.tabs| ensures Within(a.tabs[i].1, c.tabs[i].1) {
      Through(a.tabs[i].1, b.tabs[i].1, c.tabs[i].1);
    }
  }

  lemma {:induction false} ThroughArr(a: Arr, b: Arr, c: Arr)
    requires WithinArr(a, b) && WithinArr(b, c)
    ensures WithinArr(a, c)
    decreases a
  {
    forall i | 0 <= i < |a.items| ensures WithinItem(a.items[i], c.items[i]) {
      ThroughItem(a.items[i], b.items[i], c.items[i]);
    }
  }

  lemma {:induction false} ThroughItem(a: Item, b: Item, c: Item)
    requires WithinItem(a, b) && WithinItem(b, c)
    ensures WithinItem(a, c)
    decreases a
  {
    match a
    case Value(_) =>
    case SubArray(x) => ThroughArr(x, b.arr, c.arr);
    case SubTable(x) => Through(x, b.tab, c.tab);
  }

  // ---- single changes ----

  /** A table is within any that has the same lists, or longer ones. */
  lemma Longer(a: Table, b: Table)
    requires MarksOn(a, b) && a.kvals <= b.kvals && a.arrs <= b.arrs && a.tabs <= b.tabs
    ensures Within(a, b)
  {
    Same(a);
  }

  lemma PutTableGrows(tab: Table, i: nat, sub: Table)
    requires i < |tab.tabs| && Within(tab.tabs[i].1, sub)
    ensures Within(tab, PutTable(tab, i, sub))
  {
    Same(tab);
  }

  lemma PutArrayGrows(tab: Table, i: nat, arr: Arr)
    requires i < |tab.arrs| && WithinArr(tab.arrs[i].1, arr)
    ensures Within(tab, PutArray(tab, i, arr))
  {
    Same(tab);
  }

  lemma AddItemGrows(arr: Arr, item: Item)
    ensures WithinArr(arr, AddItem(arr, item))
  {
    SameArr(arr);
  }

  lemma PutLastGrows(arr: Arr, tab: Table)
    requires LastTable(arr).Some? && Within(LastTable(arr).value, tab)
    ensures WithinArr(arr, PutLast(arr, tab))
  {
    SameArr(arr);
  }

  // ---- entries ----

  lemma OpenTableGrows(tab: Table, key: string)
    requires OpenTable(tab, key).Some?
    ensures Within(tab, OpenTable(tab, key).value.0)
  {
    match CheckKey(tab, key)
    case Nowhere => Longer(tab, AddTable(tab, key, EMPTY));
    case InTables(i) =>
      Longer(tab.tabs[i].1, tab.tabs[i].1.(implicit := false));
      PutTableGrows(tab, i, tab.tabs[i].1.(implicit := false));
    case _ =>
  }

  lemma {:induction false} KeyvalGrows(tab: Table, tok: Token)
    requires WellFormed(tok) && ParseKeyval(tab, tok).Some?
    ensures Within(tab, ParseKeyval(tab, tok).value.0)
    decreases Left(tok), 1
  {
    var t := Advance(tok, true).value;
    if t.kind == Dot {
      DottedGrows(tab, tok.text, t);
    } else {
      ValueGrows(tab, tok.text, Advance(t, false).value);
    }
  }

  lemma {:induction false} DottedGrows(tab: Table, keytext: string, dot: Token)
    requires WellFormed(dot) && dot.kind == Dot && ParseDotted(tab, keytext, dot).Some?
    ensures Within(tab, ParseDotted(tab, keytext, dot).value.0)
    decreases Left(dot), 0
  {
    var key := NormalizeKey(keytext).value;
    var (tab1, i) := DottedTable(tab, key).value;
    var next := Advance(dot, true).value;
    if Index(tab.tabs, key).None? {
      OpenTableGrows(tab, key);
    } else {
      Same(tab);
    }
    KeyvalGrows(tab1.tabs[i].1, next);
    PutTableGrows(tab1, i, ParseKeyval(tab1.tabs[i].1, next).value.0);
    Through(tab, tab1, PutTable(tab1, i, ParseKeyval(tab1.tabs[i].1, next).value.0));
  }

  lemma {:induction false} ValueGrows(tab: Table, keytext: string, val: Token)
    requires WellFormed(val) && ParseValue(tab, keytext, val).Some?
    ensures Within(tab, ParseValue(tab, keytext, val).value.0)
    decreases Left(val), 1
  {
    var key := NormalizeKey(keytext).value;
    if val.kind != LBrace {
      Longer(tab, ParseValue(tab, keytext, val).value.0);
    } else {
      var (tab1, i) := OpenTable(tab, key).value;
      OpenTableGrows(tab, key);
      InlineGrows(tab1.tabs[i].1, val);
      PutTableGrows(tab1, i, ParseInline(tab1.tabs[i].1, val).value.0);
      Through(tab, tab1, PutTable(tab1, i, ParseInline(tab1.tabs[i].1, val).value.0));
    }
  }

  lemma {:induction false} InlineGrows(tab: Table, tok: Token)
    requires WellFormed(tok) && tok.kind == LBrace && ParseInline(tab, tok).Some?
    ensures Within(tab, ParseInline(tab, tok).value.0)
    decreases Left(tok), 0
  {
    var first := Advance(tok, true).value;
    var tab1 := InlineItems(tab, first).value.0;
    InlineItemsGrow(tab, first);
    Longer(tab1, tab1.(readonly := true));
    Through(tab, tab1, tab1.(readonly := true));
  }

  lemma {:induction false} InlineItemsGrow(tab: Table, tok: Token)
    requires WellFormed(tok) && InlineItems(tab, tok).Some?
    ensures Within(tab, InlineItems(tab, tok).value.0)
    decreases Left(tok), 2
  {
    if tok.kind == RBrace {
      Same(tab);
    } else {
      var (tab1, end) := ParseKeyval(tab, tok).value;
      KeyvalGrows(tab, tok);
      if end.kind == Comma {
        var next := Advance(end, true).value;
        InlineItemsGrow(tab1, next);
        Through(tab, tab1, InlineItems(tab1, next).value.0);
      }
    }
  }

  // ---- headers ----

  lemma OpenLastGrows(tab: Table, z: string, double: bool)
    requires OpenLast(tab, z, double).Some?
    ensures Within(tab, OpenLast(tab, z, double).value)
  {
    if !double {
      OpenTableGrows(tab, z);
    } else {
      match Index(tab.arrs, z)
      case Some(i) =>
        AddItemGrows(tab.arrs[i].1, SubTable(EMPTY));
        PutArrayGrows(tab, i, AddItem(tab.arrs[i].1, SubTable(EMPTY)));
      case None =>
        Longer(tab, OpenLast(tab, z, double).value);
    }
  }

  lemma {:induction false} SelectGrows(tab: Table, path: seq<string>, z: string, double: bool)
    requires Select(tab, path, z, double).Some?
    ensures Within(tab, Select(tab, path, z, double).value)
    decreases |path|
  {
    if path == [] {
      OpenLastGrows(tab, z, double);
    } else {
      match CheckKey(tab, path[0])
      case InTables(i) =>
        SelectGrows(tab.tabs[i].1, path[1..], z, double);
        PutTableGrows(tab, i, Select(tab.tabs[i].1, path[1..], z, double).value);
      case InArrays(i) =>
        var last := LastTable(tab.arrs[i].1).value;
        SelectGrows(last, path[1..], z, double);
        PutLastGrows(tab.arrs[i].1, Select(last, path[1..], z, double).value);
        PutArrayGrows(tab, i, PutLast(tab.arrs[i].1, Select(last, path[1..], z, double).value));
      case Nowhere =>
        Longer(tab, Select(tab, path, z, double).value);
      case _ =>
    }
  }

  // ---- documents ----

  lemma {:induction false} ReplaceGrows(tab: Table, path: seq<string>, new_: Table)
    requires At(tab, path).Some? && Within(At(tab, path).value, new_)
    ensures Within(tab, Replace(tab, path, new_))
    decreases |path|
  {
    if path != [] {
      match CheckKey(tab, path[0])
      case InTables(i) =>
        ReplaceGrows(tab.tabs[i].1, path[1..], new_);
        PutTableGrows(tab, i, Replace(tab.tabs[i].1, path[1..], new_));
      case InArrays(i) =>
        var last := LastTable(tab.arrs[i].1).value;
        ReplaceGrows(last, path[1..], new_);
        PutLastGrows(tab.arrs[i].1, Replace(last, path[1..], new_));
        PutArrayGrows(tab, i, PutLast(tab.arrs[i].1, Replace(last, path[1..], new_)));
      case _ =>
    }
  }

  /** From any state of the parser on, the tree of that state is within the tree at the end: no
      later line changes, moves or removes a value, an element or a table. */
  lemma {:induction false} LinesOnlyAdd(root: Table, path: seq<string>, tok: Token)
    requires WellFormed(tok) && Valid(root) && At(root, path).Some? && ParseLines(root, path, tok).Some?
    ensures Within(root, ParseLines(root, path, tok).value)
    decreases Left(tok)
  {
    if tok.eof {
      Same(root);
    } else if tok.kind == Newline {
      LinesOnlyAdd(root, path, Advance(tok, true).value);
    } else if tok.kind == Str {
      var (cur, end) := ParseKeyval(At(root, path).value, tok).value;
      EntryKeeps(root, path, tok);
      KeyvalGrows(At(root, path).value, tok);
      ReplaceGrows(root, path, cur);
      var root1, next := Replace(root, path, cur), Advance(end, true).value;
      LinesOnlyAdd(root1, path, next);
      Through(root, root1, ParseLines(root1, path, next).value);
    } else {
      var (root1, path1, next) := ParseSelect(root, tok).value;
      HeaderKeeps(root, path1, Second(tok) == "[", root1);
      SelectGrows(root, path1[..|path1| - 1], path1[|path1| - 1], Second(tok) == "[");
      LinesOnlyAdd(root1, path1, next);
      Through(root, root1, ParseLines(root1, path1, next).value);
    }
  }
}
