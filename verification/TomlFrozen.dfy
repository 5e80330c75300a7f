// What becomes of inline tables. parse_inline_table marks its table read-only, and no entry adds
// to a read-only table; headers do not look at the mark. Here is when they change such a table.

module TomlFrozen {
  import opened Wrappers
  import opened TomlLexer
  import opened TomlTree
  import opened TomlParser
  import opened TomlDocument
  import opened TomlGrowth
  import TomlSpelling

  // ---- read-only tables kept ----

  /** Every read-only table of `a`, at any depth and also in arrays, is in `b` as it was, but for
      the mark of a table made on the way of a header. */
  ghost predicate Frozen(a: Table, b: Table) {
    && (a.readonly ==> b == a.(implicit := b.implicit))
    && |a.arrs| <= |b.arrs| && (forall i :: 0 <= i < |a.arrs| ==> FrozenArr(a.arrs[i].1, b.arrs[i].1))
    && |a.tabs| <= |b.tabs| && (forall i :: 0 <= i < |a.tabs| ==> Frozen(a.tabs[i].1, b.tabs[i].1))
  }

  ghost predicate FrozenArr(a: Arr, b: Arr) {
    |a.items| <= |b.items| && forall i :: 0 <= i < |a.items| ==> FrozenItem(a.items[i], b.items[i])
  }

  ghost predicate FrozenItem(a: Item, b: Item) {
    match a
    case Value(_) => true
    case SubArray(x) => b.SubArray? && FrozenArr(x, b.arr)
    case SubTable(x) => b.SubTable? && Frozen(x, b.tab)
  }

  lemma {:induction false} SameFrozen(a: Table)
    ensures Frozen(a, a)
    decreases a
  {
    forall i | 0 <= i < |a.arrs| ensures FrozenArr(a.arrs[i].1, a.arrs[i].1) {
      SameFrozenArr(a.arrs[i].1);
    }
    forall i | 0 <= i < |a.tabs| ensures Frozen(a.tabs[i].1, a.tabs[i].1) {
      SameFrozen(a.tabs[i].1);
    }
  }

  lemma {:induction false} SameFrozenArr(a: Arr)
    ensures FrozenArr(a, a)
    decreases a
  {
    forall i | 0 <= i < |a.items| ensures FrozenItem(a.items[i], a.items[i]) {
      match a.items[i]
      case Value(_) =>
      case SubArray(x) => SameFrozenArr(x);
      case SubTable(x) => SameFrozen(x);
    }
  }

  lemma {:induction false} FrozenThrough(a: Table, b: Table, c: Table)
    requires Frozen(a, b) && Frozen(b, c)
    ensures Frozen(a, c)
    decreases a
  {
    forall i | 0 <= i < |a.arrs| ensures FrozenArr(a.arrs[i].1, c.arrs[i].1) {
      FrozenArrThrough(a.arrs[i].1, b.arrs[i].1, c.arrs[i].1);
    }
    forall i | 0 <= i < |a.tabs| ensures Frozen(a.tabs[i].1, c.tabs[i].1) {
      FrozenThrough(a.tabs[i].1, b.tabs[i].1, c.tabs[i].1);
    }
  }

  lemma {:induction false} FrozenArrThrough(a: Arr, b: Arr, c: Arr)
    requires FrozenArr(a, b) && FrozenArr(b, c)
    ensures FrozenArr(a, c)
    decreases a
  {
    forall i | 0 <= i < |a.items| ensures FrozenItem(a.items[i], c.items[i]) {
      assert FrozenItem(b.items[i], c.items[i]);
      match a.items[i]
      case Value(_) =>
      case SubArray(x) => FrozenArrThrough(x, b.items[i].arr, c.items[i].arr);
      case SubTable(x) => FrozenThrough(x, b.items[i].tab, c.items[i].tab);
    }
  }

  // ---- single changes ----

  /** A table that may be added to keeps the read-only tables below it when its lists are kept. */
  lemma LongerFrozen(a: Table, b: Table)
    requires !a.readonly && a.arrs <= b.arrs && a.tabs <= b.tabs
    ensures Frozen(a, b)
  {
    SameFrozen(a);
  }

  lemma PutTableFrozen(tab: Table, i: nat, sub: Table)
    requires i < |tab.tabs| && !tab.readonly
    ensures Frozen(tab, PutTable(tab, i, sub)) <==> Frozen(tab.tabs[i].1, sub)
  {
    SameFrozen(tab);
    assert PutTable(tab, i, sub).tabs[i].1 == sub;
  }

  lemma PutArrayFrozen(tab: Table, i: nat, arr: Arr)
    requires i < |tab.arrs| && !tab.readonly
    ensures Frozen(tab, PutArray(tab, i, arr)) <==> FrozenArr(tab.arrs[i].1, arr)
  {
    SameFrozen(tab);
    assert PutArray(tab, i, arr).arrs[i].1 == arr;
  }

  lemma PutLastFrozen(arr: Arr, tab: Table)
    requires LastTable(arr).Some?
    ensures FrozenArr(arr, PutLast(arr, tab)) <==> Frozen(LastTable(arr).value, tab)
  {
    SameFrozenArr(arr);
    var n := |arr.items| - 1;
    assert PutLast(arr, tab).items[n] == SubTable(tab);
    if Frozen(LastTable(arr).value, tab) {
      assert forall i :: 0 <= i < n ==> PutLast(arr, tab).items[i] == arr.items[i];
    }
  }

  lemma AddItemFrozen(arr: Arr, item: Item)
    ensures FrozenArr(arr, AddItem(arr, item))
  {
    SameFrozenArr(arr);
  }

  // ---- entries ----

  lemma OpenTableFrozen(tab: Table, key: string)
    requires !tab.readonly && OpenTable(tab, key).Some?
    ensures Frozen(tab, OpenTable(tab, key).value.0) && !OpenTable(tab, key).value.0.readonly
  {
    match CheckKey(tab, key)
    case Nowhere => LongerFrozen(tab, AddTable(tab, key, EMPTY));
    case InTables(i) =>
      SameFrozen(tab.tabs[i].1);
      PutTableFrozen(tab, i, tab.tabs[i].1.(implicit := false));
    case _ =>
  }

  /** No entry changes a read-only table, however deep. */
  lemma {:induction false} EntryFreezes(tab: Table, tok: Token)
    requires WellFormed(tok) && ParseKeyval(tab, tok).Some?
    ensures !tab.readonly && Frozen(tab, ParseKeyval(tab, tok).value.0) && !ParseKeyval(tab, tok).value.0.readonly
    decreases Left(tok), 1
  {
    var t := Advance(tok, true).value;
    if t.kind == Dot {
      DottedFreezes(tab, tok.text, t);
    } else {
      ValueFreezes(tab, tok.text, Advance(t, false).value);
    }
  }

  lemma {:induction false} DottedFreezes(tab: Table, keytext: string, dot: Token)
    requires WellFormed(dot) && dot.kind == Dot && !tab.readonly && ParseDotted(tab, keytext, dot).Some?
    ensures Frozen(tab, ParseDotted(tab, keytext, dot).value.0) && !ParseDotted(tab, keytext, dot).value.0.readonly
    decreases Left(dot), 0
  {
    var key := NormalizeKey(keytext).value;
    var (tab1, i) := DottedTable(tab, key).value;
    var next := Advance(dot, true).value;
    if Index(tab.tabs, key).None? {
      OpenTableFrozen(tab, key);
    } else {
      SameFrozen(tab);
    }
    EntryFreezes(tab1.tabs[i].1, next);
    PutTableFrozen(tab1, i, ParseKeyval(tab1.tabs[i].1, next).value.0);
    FrozenThrough(tab, tab1, PutTable(tab1, i, ParseKeyval(tab1.tabs[i].1, next).value.0));
  }

  lemma {:induction false} ValueFreezes(tab: Table, keytext: string, val: Token)
    requires WellFormed(val) && !tab.readonly && ParseValue(tab, keytext, val).Some?
    ensures Frozen(tab, ParseValue(tab, keytext, val).value.0) && !ParseValue(tab, keytext, val).value.0.readonly
    decreases Left(val), 1
  {
    var key := NormalizeKey(keytext).value;
    if val.kind != LBrace {
      LongerFrozen(tab, ParseValue(tab, keytext, val).value.0);
    } else {
      var (tab1, i) := OpenTable(tab, key).value;
      OpenTableFrozen(tab, key);
      InlineFreezes(tab1.tabs[i].1, val);
      PutTableFrozen(tab1, i, ParseInline(tab1.tabs[i].1, val).value.0);
      FrozenThrough(tab, tab1, PutTable(tab1, i, ParseInline(tab1.tabs[i].1, val).value.0));
    }
  }

  /** The table that an inline table is read into: when it is read-only already, only "{}" can be
      read into it. */
  lemma {:induction false} InlineFreezes(tab: Table, tok: Token)
    requires WellFormed(tok) && tok.kind == LBrace && ParseInline(tab, tok).Some?
    ensures Frozen(tab, ParseInline(tab, tok).value.0)
    decreases Left(tok), 0
  {
    var first := Advance(tok, true).value;
    var tab1 := InlineItems(tab, first).value.0;
    ItemsFreeze(tab, first);
    if tab.readonly {
      SameFrozen(tab);
    } else {
      LongerFrozen(tab1, tab1.(readonly := true));
      FrozenThrough(tab, tab1, tab1.(readonly := true));
    }
  }

  lemma {:induction false} ItemsFreeze(tab: Table, tok: Token)
    requires WellFormed(tok) && InlineItems(tab, tok).Some?
    ensures Frozen(tab, InlineItems(tab, tok).value.0)
    ensures tab.readonly ==> InlineItems(tab, tok).value.0 == tab
    ensures !tab.readonly ==> !InlineItems(tab, tok).value.0.readonly
    decreases Left(tok), 2
  {
    if tok.kind == RBrace {
      SameFrozen(tab);
    } else {
      var (tab1, end) := ParseKeyval(tab, tok).value;
      EntryFreezes(tab, tok);
      if end.kind == Comma {
        var next := Advance(end, true).value;
        ItemsFreeze(tab1, next);
        FrozenThrough(tab, tab1, InlineItems(tab1, next).value.0);
      }
    }
  }

  // ---- headers ----

  /** The path of a header leads through a read-only table, the one that gets its last table
      included. */
  predicate Meets(tab: Table, path: seq<string>)
    decreases |path|
  {
    tab.readonly ||
    (path != [] &&
     match CheckKey(tab, path[0])
     case InTables(i) => Meets(tab.tabs[i].1, path[1..])
     case InArrays(i) => LastTable(tab.arrs[i].1).Some? && Meets(LastTable(tab.arrs[i].1).value, path[1..])
     case _ => false)
  }

  /** A header always changes the table it starts from, and not its marks. */
  lemma {:induction false} SelectChanges(tab: Table, path: seq<string>, z: string, double: bool)
    requires Select(tab, path, z, double).Some?
    ensures Select(tab, path, z, double).value != tab
    ensures Select(tab, path, z, double).value.implicit == tab.implicit
    decreases |path|
  {
    var r := Select(tab, path, z, double).value;
    if path == [] {
      LastChanges(tab, z, double);
    } else {
      match CheckKey(tab, path[0])
      case InTables(i) =>
        SelectChanges(tab.tabs[i].1, path[1..], z, double);
        assert r.tabs[i].1 != tab.tabs[i].1;
      case InArrays(i) =>
        var arr := tab.arrs[i].1;
        SelectChanges(LastTable(arr).value, path[1..], z, double);
        assert r.arrs[i].1.items[|arr.items| - 1] != arr.items[|arr.items| - 1];
      case Nowhere =>
        assert |r.tabs| == |tab.tabs| + 1;
      case _ =>
    }
  }

  lemma LastChanges(tab: Table, z: string, double: bool)
    requires OpenLast(tab, z, double).Some?
    ensures OpenLast(tab, z, double).value != tab && OpenLast(tab, z, double).value.implicit == tab.implicit
  {
    var r := OpenLast(tab, z, double).value;
    if double {
      match Index(tab.arrs, z)
      case Some(i) => assert |r.arrs[i].1.items| == |tab.arrs[i].1.items| + 1;
      case None => assert |r.arrs| == |tab.arrs| + 1;
    } else {
      match CheckKey(tab, z)
      case InTables(i) => assert !r.tabs[i].1.implicit && tab.tabs[i].1.implicit;
      case Nowhere => assert |r.tabs| == |tab.tabs| + 1;
      case _ =>
    }
  }

  lemma LastFreezes(tab: Table, z: string, double: bool)
    requires !tab.readonly && OpenLast(tab, z, double).Some?
    ensures Frozen(tab, OpenLast(tab, z, double).value)
  {
    if !double {
      OpenTableFrozen(tab, z);
    } else {
      match Index(tab.arrs, z)
      case Some(i) =>
        AddItemFrozen(tab.arrs[i].1, SubTable(EMPTY));
        PutArrayFrozen(tab, i, AddItem(tab.arrs[i].1, SubTable(EMPTY)));
      case None =>
        LongerFrozen(tab, OpenLast(tab, z, double).value);
    }
  }

  /** A header leaves all read-only tables as they are exactly when its path leads through none. */
  lemma {:induction false} HeaderFreezesIff(tab: Table, path: seq<string>, z: string, double: bool)
    requires Select(tab, path, z, double).Some?
    ensures Frozen(tab, Select(tab, path, z, double).value) <==> !Meets(tab, path)
    decreases |path|
  {
    if tab.readonly {
      SelectChanges(tab, path, z, double);
    } else if path == [] {
      LastFreezes(tab, z, double);
    } else {
      match CheckKey(tab, path[0])
      case InTables(i) =>
        HeaderFreezesIff(tab.tabs[i].1, path[1..], z, double);
        PutTableFrozen(tab, i, Select(tab.tabs[i].1, path[1..], z, double).value);
      case InArrays(i) =>
        var last := LastTable(tab.arrs[i].1).value;
        HeaderFreezesIff(last, path[1..], z, double);
        PutLastFrozen(tab.arrs[i].1, Select(last, path[1..], z, double).value);
        PutArrayFrozen(tab, i, PutLast(tab.arrs[i].1, Select(last, path[1..], z, double).value));
      case Nowhere =>
        LongerFrozen(tab, Select(tab, path, z, double).value);
      case _ =>
    }
  }

  // ---- lines ----

  /** A table opened for an inline table or a dotted key is new, or no longer marked as made on the
      way of a header. */
  lemma OpenTableChanges(tab: Table, key: string, sub: Table)
    requires OpenTable(tab, key).Some?
    requires sub.implicit == OpenTable(tab, key).value.0.tabs[OpenTable(tab, key).value.1].1.implicit
    ensures PutTable(OpenTable(tab, key).value.0, OpenTable(tab, key).value.1, sub) != tab
    ensures OpenTable(tab, key).value.0.implicit == tab.implicit
  {
    var (tab1, i) := OpenTable(tab, key).value;
    var r := PutTable(tab1, i, sub);
    match CheckKey(tab, key)
    case Nowhere => assert |r.tabs| == |tab.tabs| + 1;
    case InTables(_) => assert !r.tabs[i].1.implicit && tab.tabs[i].1.implicit;
    case _ =>
  }

  /** An entry always changes the table it is read into, and never its marks. */
  lemma {:induction false} EntryChanges(tab: Table, tok: Token)
    requires WellFormed(tok) && ParseKeyval(tab, tok).Some?
    ensures ParseKeyval(tab, tok).value.0 != tab && ParseKeyval(tab, tok).value.0.implicit == tab.implicit
    decreases Left(tok), 1
  {
    var t := Advance(tok, true).value;
    if t.kind == Dot {
      DottedChanges(tab, tok.text, t);
    } else {
      ValueChanges(tab, tok.text, Advance(t, false).value);
    }
  }

  lemma {:induction false} DottedChanges(tab: Table, keytext: string, dot: Token)
    requires WellFormed(dot) && dot.kind == Dot && ParseDotted(tab, keytext, dot).Some?
    ensures ParseDotted(tab, keytext, dot).value.0 != tab && ParseDotted(tab, keytext, dot).value.0.implicit == tab.implicit
    decreases Left(dot), 0
  {
    var key := NormalizeKey(keytext).value;
    var (tab1, i) := DottedTable(tab, key).value;
    var next := Advance(dot, true).value;
    var sub := ParseKeyval(tab1.tabs[i].1, next).value.0;
    EntryChanges(tab1.tabs[i].1, next);
    assert PutTable(tab1, i, sub).tabs[i].1 == sub;
    if Index(tab.tabs, key).None? {
      OpenTableChanges(tab, key, sub);
    }
  }

  lemma {:induction false} ValueChanges(tab: Table, keytext: string, val: Token)
    requires WellFormed(val) && ParseValue(tab, keytext, val).Some?
    ensures ParseValue(tab, keytext, val).value.0 != tab && ParseValue(tab, keytext, val).value.0.implicit == tab.implicit
    decreases Left(val), 1
  {
    var key, r := NormalizeKey(keytext).value, ParseValue(tab, keytext, val).value.0;
    if val.kind == Str {
      assert |r.kvals| == |tab.kvals| + 1;
    } else if val.kind == LBracket {
      assert |r.arrs| == |tab.arrs| + 1;
    } else {
      var (tab1, i) := OpenTable(tab, key).value;
      InlineMarks(tab1.tabs[i].1, val);
      OpenTableChanges(tab, key, ParseInline(tab1.tabs[i].1, val).value.0);
    }
  }

  /** Reading an inline table leaves the mark of a table made on the way of a header. */
  lemma {:induction false} InlineMarks(tab: Table, tok: Token)
    requires WellFormed(tok) && tok.kind == LBrace && ParseInline(tab, tok).Some?
    ensures ParseInline(tab, tok).value.0.implicit == tab.implicit
    decreases Left(tok), 0
  {
    ItemsMarks(tab, Advance(tok, true).value);
  }

  lemma {:induction false} ItemsMarks(tab: Table, tok: Token)
    requires WellFormed(tok) && InlineItems(tab, tok).Some?
    ensures InlineItems(tab, tok).value.0.implicit == tab.implicit
    decreases Left(tok), 2
  {
    if tok.kind != RBrace {
      var (tab1, end) := ParseKeyval(tab, tok).value;
      EntryChanges(tab, tok);
      if end.kind == Comma {
        ItemsMarks(tab1, Advance(end, true).value);
      }
    }
  }

  /** Another table in the place of the current one: the read-only tables stay as they are exactly
      when the path leads through none. */
  lemma {:induction false} ReplaceFreezesIff(tab: Table, path: seq<string>, new_: Table)
    requires At(tab, path).Some? && new_ != At(tab, path).value && new_.implicit == At(tab, path).value.implicit
    requires !At(tab, path).value.readonly ==> Frozen(At(tab, path).value, new_)
    ensures Frozen(tab, Replace(tab, path, new_)) <==> !Meets(tab, path)
    ensures Replace(tab, path, new_) != tab && Replace(tab, path, new_).implicit == tab.implicit
    decreases |path|
  {
    if path != [] {
      match CheckKey(tab, path[0])
      case InTables(i) =>
        var sub := Replace(tab.tabs[i].1, path[1..], new_);
        ReplaceFreezesIff(tab.tabs[i].1, path[1..], new_);
        assert PutTable(tab, i, sub).tabs[i].1 == sub;
        if !tab.readonly {
          PutTableFrozen(tab, i, sub);
        }
      case InArrays(i) =>
        var arr := tab.arrs[i].1;
        var last := LastTable(arr).value;
        var sub := Replace(last, path[1..], new_);
        ReplaceFreezesIff(last, path[1..], new_);
        assert PutArray(tab, i, PutLast(arr, sub)).arrs[i].1.items[|arr.items| - 1] == SubTable(sub);
        if !tab.readonly {
          PutLastFrozen(arr, sub);
          PutArrayFrozen(tab, i, PutLast(arr, sub));
        }
      case _ =>
    }
  }

  /** A line with an entry leaves all read-only tables as they are exactly when the path of the
      current table leads through none. */
  lemma EntryLineFreezesIff(root: Table, path: seq<string>, tok: Token)
    requires WellFormed(tok) && At(root, path).Some? && ParseKeyval(At(root, path).value, tok).Some?
    ensures Frozen(root, Replace(root, path, ParseKeyval(At(root, path).value, tok).value.0)) <==> !Meets(root, path)
  {
    EntryFreezes(At(root, path).value, tok);
    EntryChanges(At(root, path).value, tok);
    ReplaceFreezesIff(root, path, ParseKeyval(At(root, path).value, tok).value.0);
  }

  // ---- changes stay ----

  /** A tree between two equal ones is the same. */
  lemma {:induction false} Between(a: Table, b: Table)
    requires Within(a, b) && Within(b, a)
    ensures a == b
    decreases a
  {
    forall i | 0 <= i < |a.arrs| ensures a.arrs[i] == b.arrs[i] {
      BetweenArr(a.arrs[i].1, b.arrs[i].1);
    }
    forall i | 0 <= i < |a.tabs| ensures a.tabs[i] == b.tabs[i] {
      Between(a.tabs[i].1, b.tabs[i].1);
    }
    assert a.arrs == b.arrs && a.tabs == b.tabs;
  }

  lemma {:induction false} BetweenArr(a: Arr, b: Arr)
    requires WithinArr(a, b) && WithinArr(b, a)
    ensures a == b
    decreases a
  {
    forall i | 0 <= i < |a.items| ensures a.items[i] == b.items[i] {
      assert WithinItem(a.items[i], b.items[i]) && WithinItem(b.items[i], a.items[i]);
      match a.items[i]
      case Value(_) =>
      case SubArray(x) => BetweenArr(x, b.items[i].arr);
      case SubTable(x) => Between(x, b.items[i].tab);
    }
    assert a.items == b.items;
  }

  lemma BetweenMarked(a: Table, b: Table, c: Table)
    requires Within(a, b) && Within(b, c) && c == a.(implicit := c.implicit)
    ensures b == a.(implicit := b.implicit)
  {
    var x := a.(implicit := b.implicit);
    assert Within(b, x) && Within(x, b);
    Between(x, b);
  }

  /** A read-only table that is the same at the end was the same all the time. */
  lemma {:induction false} FrozenBetween(a: Table, b: Table, c: Table)
    requires Frozen(a, c) && Within(a, b) && Within(b, c)
    ensures Frozen(a, b)
    decreases a
  {
    if a.readonly {
      BetweenMarked(a, b, c);
    }
    forall i | 0 <= i < |a.arrs| ensures FrozenArr(a.arrs[i].1, b.arrs[i].1) {
      FrozenArrBetween(a.arrs[i].1, b.arrs[i].1, c.arrs[i].1);
    }
    forall i | 0 <= i < |a.tabs| ensures Frozen(a.tabs[i].1, b.tabs[i].1) {
      FrozenBetween(a.tabs[i].1, b.tabs[i].1, c.tabs[i].1);
    }
  }

  lemma {:induction false} FrozenArrBetween(a: Arr, b: Arr, c: Arr)
    requires FrozenArr(a, c) && WithinArr(a, b) && WithinArr(b, c)
    ensures FrozenArr(a, b)
    decreases a
  {
    forall i | 0 <= i < |a.items| ensures FrozenItem(a.items[i], b.items[i]) {
      assert WithinItem(a.items[i], b.items[i]) && WithinItem(b.items[i], c.items[i]) && FrozenItem(a.items[i], c.items[i]);
      match a.items[i]
      case Value(_) =>
      case SubArray(x) => FrozenArrBetween(x, b.items[i].arr, c.items[i].arr);
      case SubTable(x) => FrozenBetween(x, b.items[i].tab, c.items[i].tab);
    }
  }

  // ---- documents ----

  /** Every read-only table, from the line on that made it, is at the end as it was. */
  ghost predicate KeptToEnd(root: Table, path: seq<string>, tok: Token)
    requires WellFormed(tok) && Valid(root) && At(root, path).Some? && ParseLines(root, path, tok).Some?
    decreases Left(tok)
  {
    Frozen(root, ParseLines(root, path, tok).value) &&
    if tok.eof then true
    else if tok.kind == Newline then KeptToEnd(root, path, Advance(tok, true).value)
    else if tok.kind == Str then
      var (cur, end) := ParseKeyval(At(root, path).value, tok).value;
      EntryKeeps(root, path, tok);
      KeptToEnd(Replace(root, path, cur), path, Advance(end, true).value)
    else
      var (root1, path1, next) := ParseSelect(root, tok).value;
      HeaderKeeps(root, path1, Second(tok) == "[", root1);
      KeptToEnd(root1, path1, next)
  }

  /** No line of the document works along a path through a read-only table: no header leads
      through one, and no entry stands below such a header. */
  predicate LinesAvoid(root: Table, path: seq<string>, tok: Token)
    requires WellFormed(tok) && Valid(root) && At(root, path).Some? && ParseLines(root, path, tok).Some?
    decreases Left(tok)
  {
    if tok.eof then true
    else if tok.kind == Newline then LinesAvoid(root, path, Advance(tok, true).value)
    else if tok.kind == Str then
      var (cur, end) := ParseKeyval(At(root, path).value, tok).value;
      EntryKeeps(root, path, tok);
      !Meets(root, path) && LinesAvoid(Replace(root, path, cur), path, Advance(end, true).value)
    else
      var (root1, path1, next) := ParseSelect(root, tok).value;
      HeaderKeeps(root, path1, Second(tok) == "[", root1);
      !Meets(root, path1[..|path1| - 1]) && LinesAvoid(root1, path1, next)
  }

  /** One line and the rest of the document. */
  lemma LineThenRest(root: Table, root1: Table, end: Table)
    requires Within(root, root1) && Within(root1, end) && Frozen(root1, end)
    ensures Frozen(root, end) ==> Frozen(root, root1)
    ensures Frozen(root, root1) ==> Frozen(root, end)
  {
    if Frozen(root, end) {
      FrozenBetween(root, root1, end);
    }
    if Frozen(root, root1) {
      FrozenThrough(root, root1, end);
    }
  }

  /** From any state of the parser on: every read-only table is kept to the end exactly when no
      line works along a path through one. */
  lemma {:induction false} ReadonlyKeptIff(root: Table, path: seq<string>, tok: Token)
    requires WellFormed(tok) && Valid(root) && At(root, path).Some? && ParseLines(root, path, tok).Some?
    ensures KeptToEnd(root, path, tok) <==> LinesAvoid(root, path, tok)
    decreases Left(tok)
  {
    if tok.eof {
      SameFrozen(root);
    } else if tok.kind == Newline {
      ReadonlyKeptIff(root, path, Advance(tok, true).value);
    } else if tok.kind == Str {
      var (cur, end) := ParseKeyval(At(root, path).value, tok).value;
      var root1, next := Replace(root, path, cur), Advance(end, true).value;
      EntryKeeps(root, path, tok);
      EntryLineFreezesIff(root, path, tok);
      KeyvalGrows(At(root, path).value, tok);
      ReplaceGrows(root, path, cur);
      LinesOnlyAdd(root1, path, next);
      ReadonlyKeptIff(root1, path, next);
      if KeptToEnd(root1, path, next) {
        LineThenRest(root, root1, ParseLines(root1, path, next).value);
      }
    } else {
      var (root1, path1, next) := ParseSelect(root, tok).value;
      HeaderKeeps(root, path1, Second(tok) == "[", root1);
      HeaderFreezesIff(root, path1[..|path1| - 1], path1[|path1| - 1], Second(tok) == "[");
      SelectGrows(root, path1[..|path1| - 1], path1[|path1| - 1], Second(tok) == "[");
      LinesOnlyAdd(root1, path1, next);
      ReadonlyKeptIff(root1, path1, next);
      if KeptToEnd(root1, path1, next) {
        LineThenRest(root, root1, ParseLines(root1, path1, next).value);
      }
    }
  }

  // ---- a text ----

  /** A name of one letter. */
  lemma LetterToken(c: char, rest: string)
    requires 'a' <= c <= 'z' && rest != "" && (rest[0] == '=' || rest[0] == '.' || rest[0] == ']')
    ensures NextToken([c] + rest, true) == Some(Token(Str, [c], rest, false))
    ensures NormalizeKey([c]) == Some([c])
  {
    var s := [c] + rest;
    assert s[1..] == rest && BareSpan(rest, true) == 0;
    assert ScanString(s, true) == Some(1);
  }

  lemma MarkToken(c: char, rest: string, dot: bool)
    requires Mark(c, dot).Some?
    ensures NextToken([c] + rest, dot) == Some(Token(Mark(c, dot).value, [c], rest, false))
  {
    assert ([c] + rest)[1..] == rest;
  }

  const EMPTY_INLINE := Table(false, true, [], [], [])

  /** "{}" and the rest of the line behind it. */
  lemma EmptyInline(t0: string, t1: string, t2: string, rest: string)
    requires t0 == "\n" + rest && t1 == "}" + t0 && t2 == "{" + t1
    ensures NextToken(t2, false) == Some(Token(LBrace, "{", t1, false))
    ensures ParseInline(EMPTY, Token(LBrace, "{", t1, false)) == Some((EMPTY_INLINE, Token(Newline, "\n", rest, false)))
  {
    MarkToken('{', t1, false);
    MarkToken('}', t0, true);
    MarkToken('\n', rest, true);
    assert InlineItems(EMPTY, Token(RBrace, "}", t0, false)) == Some((EMPTY, Token(RBrace, "}", t0, false)));
  }

  /** The line "a={}" is an empty inline table under the name a. */
  lemma InlineLine(t2: string, t3: string, t1: string, rest: string)
    requires NextToken(t2, false) == Some(Token(LBrace, "{", t1, false)) && t3 == "=" + t2
    requires ParseInline(EMPTY, Token(LBrace, "{", t1, false)) == Some((EMPTY_INLINE, Token(Newline, "\n", rest, false)))
    ensures NextToken("a" + t3, true) == Some(Token(Str, "a", t3, false))
    ensures ParseKeyval(EMPTY, Token(Str, "a", t3, false))
         == Some((AddTable(EMPTY, "a", EMPTY_INLINE), Token(Newline, "\n", rest, false)))
  {
    LetterToken('a', t3);
    MarkToken('=', t2, true);
    assert Advance(Token(Str, "a", t3, false), true) == Some(Token(Equal, "=", t2, false));
    assert Advance(Token(Equal, "=", t2, false), false) == Some(Token(LBrace, "{", t1, false));
    assert PutTable(AddTable(EMPTY, "a", EMPTY), 0, EMPTY_INLINE) == AddTable(EMPTY, "a", EMPTY_INLINE);
    assert ParseValue(EMPTY, "a", Token(LBrace, "{", t1, false))
        == Some((AddTable(EMPTY, "a", EMPTY_INLINE), Token(Newline, "\n", rest, false)));
  }

  /** Two keys with a dot between them. */
  lemma TwoKeys(first: Token, dot: Token, last: Token, close: Token, a: string, z: string)
    requires WellFormed(first) && first.kind == Str && NormalizeKey(first.text) == Some(a)
    requires WellFormed(last) && last.kind == Str && NormalizeKey(last.text) == Some(z)
    requires Advance(first, true) == Some(dot) && dot.kind == Dot && Advance(dot, true) == Some(last)
    requires Advance(last, true) == Some(close) && close.kind == RBracket
    ensures FillPath(first, 0) == Some(([a, z], close))
  {
    assert FillPath(last, 1) == Some(([z], close));
    assert [a] + [z] == [a, z];
  }

  lemma SingleHeader(root: Table, open: Token, first: Token, close: Token, end: Token, a: string, z: string, root1: Table)
    requires WellFormed(open) && open.kind == LBracket && Second(open) != "[" && Advance(open, true) == Some(first)
    requires FillPath(first, 0) == Some(([a, z], close)) && close.kind == RBracket
    requires Advance(close, true) == Some(end) && end.kind == Newline
    requires Select(root, [a], z, false) == Some(root1)
    ensures ParseSelect(root, open) == Some((root1, [a, z], end))
  {
    assert [a, z][..1] == [a];
  }

  /** The keys of the line "[a.z]". */
  lemma HeaderKeysRead(t1: string, t2: string, t3: string, close: Token)
    requires t1 == "]\n" && t2 == "z" + t1 && t3 == "." + t2 && close == Token(RBracket, "]", "\n", false)
    ensures FillPath(Token(Str, "a", t3, false), 0) == Some((["a", "z"], close))
  {
    var first, dot, last := Token(Str, "a", t3, false), Token(Dot, ".", t2, false), Token(Str, "z", t1, false);
    assert Advance(first, true) == Some(dot) by { MarkToken('.', t2, true); }
    assert Advance(dot, true) == Some(last) by { LetterToken('z', t1); }
    assert Advance(last, true) == Some(close) by { MarkToken(']', "\n", true); assert t1 == "]" + "\n"; }
    assert NormalizeKey("a") == Some("a") && NormalizeKey("z") == Some("z");
    TwoKeys(first, dot, last, close, "a", "z");
  }

  /** The ends of the line "[a.z]". */
  lemma HeaderEnds(t3: string, open: Token, close: Token)
    requires t3 != "" && t3[0] == '.' && open == Token(LBracket, "[", "a" + t3, false)
    requires close == Token(RBracket, "]", "\n", false)
    ensures Advance(open, true) == Some(Token(Str, "a", t3, false)) && Second(open) == "a"
    ensures Advance(close, true) == Some(Token(Newline, "\n", "", false))
  {
    LetterToken('a', t3);
    MarkToken('\n', "", true);
    assert ("[" + ("a" + t3))[1..2] == "a";
  }

  /** A header that ends the text. */
  lemma LastLine(root: Table, path: seq<string>, open: Token, root1: Table, path1: seq<string>)
    requires WellFormed(open) && open.kind == LBracket && Valid(root) && At(root, path).Some?
    requires ParseSelect(root, open) == Some((root1, path1, Token(Newline, "\n", "", false)))
    ensures ParseLines(root, path, open) == Some(root1)
  {
    HeaderKeeps(root, path1, Second(open) == "[", root1);
    assert ParseLines(root1, path1, Token(Newline, "\n", "", false)) == ParseLines(root1, path1, END);
  }

  /** An entry of the root with another line behind it. */
  lemma FirstLine(tok: Token, cur: Table, end: Token, next: Token)
    requires WellFormed(tok) && tok.kind == Str && Valid(EMPTY) && ParseKeyval(EMPTY, tok) == Some((cur, end))
    requires end.kind == Newline && Advance(end, true) == Some(next) && Valid(cur)
    ensures ParseLines(EMPTY, [], tok) == ParseLines(cur, [], next)
  {
    assert At(EMPTY, []) == Some(EMPTY) && Replace(EMPTY, [], cur) == cur;
    EntryKeeps(EMPTY, [], tok);
  }

  const EXTENDED := Table(false, true, [], [], [("z", EMPTY)])

  /** The header finds the inline table and adds to it. */
  lemma HeaderExtends(root: Table)
    requires root == AddTable(EMPTY, "a", EMPTY_INLINE)
    ensures Select(root, ["a"], "z", false) == Some(AddTable(EMPTY, "a", EXTENDED))
    ensures Valid(root) && !Frozen(root, AddTable(EMPTY, "a", EXTENDED))
  {
    EmptyValid();
    FlagsValid(EMPTY, false, true);
    AddTableValid(EMPTY, "a", EMPTY_INLINE);
    assert CheckKey(root, "a") == InTables(0) && ["a"][1..] == [];
    assert AddTable(EMPTY_INLINE, "z", EMPTY) == EXTENDED;
    assert Select(EMPTY_INLINE, [], "z", false) == Some(EXTENDED);
    assert PutTable(root, 0, EXTENDED) == AddTable(EMPTY, "a", EXTENDED);
    HeaderFreezesIff(root, ["a"], "z", false);
  }

  /** A text of two lines, an entry and a header that ends it. */
  lemma TwoLines(text: string, tok: Token, root: Table, end: Token, open: Token, path: seq<string>, root1: Table)
    requires TomlSpelling.NoNul(text) && NextToken(text, true) == Some(tok)
    requires WellFormed(tok) && tok.kind == Str && Valid(EMPTY) && Valid(root)
    requires ParseKeyval(EMPTY, tok) == Some((root, end)) && end.kind == Newline && Advance(end, true) == Some(open)
    requires WellFormed(open) && open.kind == LBracket
    requires ParseSelect(root, open) == Some((root1, path, Token(Newline, "\n", "", false)))
    ensures Parse(text) == Some(root1)
  {
    TomlSpelling.CStringWhole(text);
    FirstLine(tok, root, end, open);
    LastLine(root, [], open, root1, path);
    assert Advance(Token(Newline, "", text, false), true) == Some(tok);
  }

  /** The header behind the inline table. */
  lemma SecondLine(root: Table, t3: string, open: Token)
    requires root == AddTable(EMPTY, "a", EMPTY_INLINE) && open == Token(LBracket, "[", "a" + t3, false)
    requires t3 != "" && t3[0] == '.'
    requires FillPath(Token(Str, "a", t3, false), 0) == Some((["a", "z"], Token(RBracket, "]", "\n", false)))
    ensures ParseSelect(root, open)
         == Some((AddTable(EMPTY, "a", EXTENDED), ["a", "z"], Token(Newline, "\n", "", false)))
  {
    var close := Token(RBracket, "]", "\n", false);
    HeaderExtends(root);
    HeaderEnds(t3, open, close);
    SingleHeader(root, open, Token(Str, "a", t3, false), close, Token(Newline, "\n", "", false), "a", "z",
                 AddTable(EMPTY, "a", EXTENDED));
  }

  lemma OpenToken(back: string)
    ensures Advance(Token(Newline, "\n", "[" + back, false), true) == Some(Token(LBracket, "[", back, false))
  {
    MarkToken('[', back, true);
  }

  /** The first line of the text. */
  lemma EntryOfText(u3: string, back: string)
    requires u3 == "={}\n" + back
    ensures NextToken("a" + u3, true) == Some(Token(Str, "a", u3, false))
    ensures ParseKeyval(EMPTY, Token(Str, "a", u3, false))
         == Some((AddTable(EMPTY, "a", EMPTY_INLINE), Token(Newline, "\n", back, false)))
  {
    EmptyInline(u3[3..], u3[2..], u3[1..], back);
    InlineLine(u3[1..], u3, u3[2..], back);
  }

  /** The header of the text, behind its first line. */
  lemma HeaderOfText(root: Table, t3: string)
    requires root == AddTable(EMPTY, "a", EMPTY_INLINE) && t3 == ".z]\n"
    ensures ParseSelect(root, Token(LBracket, "[", "a" + t3, false))
         == Some((AddTable(EMPTY, "a", EXTENDED), ["a", "z"], Token(Newline, "\n", "", false)))
  {
    HeaderKeysRead(t3[2..], t3[1..], t3, Token(RBracket, "]", "\n", false));
    SecondLine(root, t3, Token(LBracket, "[", "a" + t3, false));
  }

  lemma RootOfText()
    ensures Valid(EMPTY) && Valid(AddTable(EMPTY, "a", EMPTY_INLINE))
  {
    EmptyValid();
    HeaderExtends(AddTable(EMPTY, "a", EMPTY_INLINE));
  }

  lemma PartsOfText(text: string, u3: string, back: string)
    requires text == "a={}\n[a.z]\n" && u3 == text[1..] && back == text[6..]
    ensures text == "a" + u3 && u3 == "={}\n" + ("[" + back) && back == "a" + ".z]\n" && TomlSpelling.NoNul(text)
  {}

  /** The text "a={}", a line end, "[a.z]", a line end: it parses, and the inline table a has the
      table z. */
  lemma InlineTableChanged(text: string)
    requires text == "a={}\n[a.z]\n"
    ensures Parse(text) == Some(AddTable(EMPTY, "a", EXTENDED))
  {
    var u3, back := text[1..], text[6..];
    PartsOfText(text, u3, back);
    RootOfText();
    EntryOfText(u3, "[" + back);
    OpenToken(back);
    HeaderOfText(AddTable(EMPTY, "a", EMPTY_INLINE), ".z]\n");
    TwoLines(text, Token(Str, "a", u3, false), AddTable(EMPTY, "a", EMPTY_INLINE), Token(Newline, "\n", "[" + back, false),
             Token(LBracket, "[", back, false), ["a", "z"], AddTable(EMPTY, "a", EXTENDED));
  }
}
