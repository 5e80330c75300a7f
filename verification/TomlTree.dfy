// The tree that the TOML parser builds: tables with three lists of children, and arrays.

module TomlTree {
  import opened Wrappers

  type Named<T> = (string, T)

  datatype Table = Table(implicit: bool, readonly: bool,
                         kvals: seq<Named<string>>, arrs: seq<Named<Arr>>, tabs: seq<Named<Table>>)

  /** What an array holds: nothing yet, values, arrays, tables, or different things. */
  datatype ElementKind = NoKind | Values | Arrays | Tables | Mixed

  datatype Arr = Arr(kind: ElementKind, items: seq<Item>)

  datatype Item = Value(raw: string) | SubArray(arr: Arr) | SubTable(tab: Table)

  const EMPTY := Table(false, false, [], [], [])

  // ---- finding keys ----

  /** The place of the first child with the key. */
  function Index<T>(s: seq<Named<T>>, key: string): (r: Option<nat>)
    ensures r.Some? ==> r.value < |s| && s[r.value].0 == key
    ensures r.None? ==> forall i :: 0 <= i < |s| ==> s[i].0 != key
  {
    if s == [] then None
    else if s[0].0 == key then Some(0)
    else
      match Index(s[1..], key)
      case None => None
      case Some(i) => Some(i + 1)
  }

  datatype Place = Nowhere | InValues(i: nat) | InArrays(i: nat) | InTables(i: nat)

  /** check_key: values are looked at first, then arrays, then tables. */
  function CheckKey(tab: Table, key: string): (p: Place)
    ensures p.InArrays? ==> p.i < |tab.arrs| && tab.arrs[p.i].0 == key
    ensures p.InTables? ==> p.i < |tab.tabs| && tab.tabs[p.i].0 == key
  {
    match Index(tab.kvals, key)
    case Some(i) => InValues(i)
    case None =>
      match Index(tab.arrs, key)
      case Some(i) => InArrays(i)
      case None =>
        match Index(tab.tabs, key)
        case Some(i) => InTables(i)
        case None => Nowhere
  }

  // ---- the keys of a table ----

  function Names<T>(s: seq<Named<T>>): (ks: seq<string>)
    ensures |ks| == |s| && forall i :: 0 <= i < |s| ==> ks[i] == s[i].0
  {
    seq(|s|, i requires 0 <= i < |s| => s[i].0)
  }

  /** The keys in the order in which toml_key_in numbers them. */
  function Keys(tab: Table): seq<string> {
    Names(tab.kvals) + Names(tab.arrs) + Names(tab.tabs)
  }

  ghost predicate NoDuplicates(ks: seq<string>) {
    forall i, j :: 0 <= i < j < |ks| ==> ks[i] != ks[j]
  }

  /** toml_key_in */
  function KeyIn(tab: Table, n: nat): Option<string> {
    if n < |tab.kvals| then Some(tab.kvals[n].0)
    else if n - |tab.kvals| < |tab.arrs| then Some(tab.arrs[n - |tab.kvals|].0)
    else if n - |tab.kvals| - |tab.arrs| < |tab.tabs| then Some(tab.tabs[n - |tab.kvals| - |tab.arrs|].0)
    else None
  }

  lemma KeyInEnumerates(tab: Table, n: nat)
    ensures KeyIn(tab, n) == if n < |Keys(tab)| then Some(Keys(tab)[n]) else None
  {}

  lemma NowhereIffAbsent(tab: Table, key: string)
    ensures CheckKey(tab, key) == Nowhere <==> key !in Keys(tab)
  {
    if key in Names(tab.kvals) {
      var i :| 0 <= i < |tab.kvals| && Names(tab.kvals)[i] == key;
      assert tab.kvals[i].0 == key;
    } else if key in Names(tab.arrs) {
      var i :| 0 <= i < |tab.arrs| && Names(tab.arrs)[i] == key;
      assert tab.arrs[i].0 == key;
    } else if key in Names(tab.tabs) {
      var i :| 0 <= i < |tab.tabs| && Names(tab.tabs)[i] == key;
      assert tab.tabs[i].0 == key;
    }
    assert forall i :: 0 <= i < |tab.kvals| ==> tab.kvals[i].0 == Names(tab.kvals)[i];
    assert forall i :: 0 <= i < |tab.arrs| ==> tab.arrs[i].0 == Names(tab.arrs)[i];
    assert forall i :: 0 <= i < |tab.tabs| ==> tab.tabs[i].0 == Names(tab.tabs)[i];
  }

  // ---- the invariant ----

  /** In this table and in every table below it, also in arrays, no key stands twice in the
      three lists together; and an array of tables has tables only. */
  ghost predicate Valid(tab: Table) {
    && NoDuplicates(Keys(tab))
    && (forall i :: 0 <= i < |tab.arrs| ==> ValidArr(tab.arrs[i].1))
    && (forall i :: 0 <= i < |tab.tabs| ==> Valid(tab.tabs[i].1))
  }

  ghost predicate ValidArr(arr: Arr) {
    && (forall i :: 0 <= i < |arr.items| ==> ValidItem(arr.items[i]))
    && (arr.kind == Tables ==> forall i :: 0 <= i < |arr.items| ==> arr.items[i].SubTable?)
    && (arr.kind == NoKind ==> arr.items == [])
  }

  ghost predicate ValidItem(item: Item) {
    match item
    case Value(_) => true
    case SubArray(arr) => ValidArr(arr)
    case SubTable(tab) => Valid(tab)
  }

  lemma EmptyValid()
    ensures Valid(EMPTY) && Keys(EMPTY) == []
  {}

  // ---- changes ----

  function AddValue(tab: Table, key: string, raw: string): Table {
    tab.(kvals := tab.kvals + [(key, raw)])
  }

  function AddArray(tab: Table, key: string, arr: Arr): Table {
    tab.(arrs := tab.arrs + [(key, arr)])
  }

  function AddTable(tab: Table, key: string, sub: Table): Table {
    tab.(tabs := tab.tabs + [(key, sub)])
  }

  function PutTable(tab: Table, i: nat, sub: Table): Table
    requires i < |tab.tabs|
  {
    tab.(tabs := tab.tabs[i := (tab.tabs[i].0, sub)])
  }

  function PutArray(tab: Table, i: nat, arr: Arr): Table
    requires i < |tab.arrs|
  {
    tab.(arrs := tab.arrs[i := (tab.arrs[i].0, arr)])
  }

  /** A new item, and what the array then holds. */
  function AddItem(arr: Arr, item: Item): Arr {
    var k := match item case Value(_) => Values case SubArray(_) => Arrays case SubTable(_) => Tables;
    Arr(if arr.kind == NoKind then k else if arr.kind != k then Mixed else k, arr.items + [item])
  }

  lemma InsertKeepsDistinct(a: seq<string>, key: string, b: seq<string>)
    requires NoDuplicates(a + b) && key !in a + b
    ensures NoDuplicates(a + [key] + b)
  {
    var s, t := a + b, a + [key] + b;
    assert forall i :: 0 <= i < |a| ==> t[i] == s[i];
    assert forall i :: |a| < i < |t| ==> t[i] == s[i - 1];
    assert forall i :: 0 <= i < |s| ==> s[i] in s;
  }

  lemma NamesSnoc<T>(s: seq<Named<T>>, key: string, x: T)
    ensures Names(s + [(key, x)]) == Names(s) + [key]
  {}

  lemma NamesPut<T>(s: seq<Named<T>>, i: nat, x: T)
    requires i < |s|
    ensures Names(s[i := (s[i].0, x)]) == Names(s)
  {}

  lemma AddValueKeys(tab: Table, key: string, raw: string)
    requires NoDuplicates(Keys(tab)) && key !in Keys(tab)
    ensures NoDuplicates(Keys(AddValue(tab, key, raw)))
  {
    var a, b, c := Names(tab.kvals), Names(tab.arrs), Names(tab.tabs);
    NamesSnoc(tab.kvals, key, raw);
    assert a + (b + c) == Keys(tab) && (a + [key]) + b + c == a + [key] + (b + c);
    InsertKeepsDistinct(a, key, b + c);
  }

  lemma AddArrayKeys(tab: Table, key: string, arr: Arr)
    requires NoDuplicates(Keys(tab)) && key !in Keys(tab)
    ensures NoDuplicates(Keys(AddArray(tab, key, arr)))
  {
    var a, b, c := Names(tab.kvals), Names(tab.arrs), Names(tab.tabs);
    NamesSnoc(tab.arrs, key, arr);
    assert a + (b + [key]) + c == (a + b) + [key] + c;
    InsertKeepsDistinct(a + b, key, c);
  }

  lemma AddTableKeys(tab: Table, key: string, sub: Table)
    requires NoDuplicates(Keys(tab)) && key !in Keys(tab)
    ensures NoDuplicates(Keys(AddTable(tab, key, sub)))
  {
    var a, b, c := Names(tab.kvals), Names(tab.arrs), Names(tab.tabs);
    NamesSnoc(tab.tabs, key, sub);
    assert a + b + (c + [key]) == (a + b + c) + [key] + [];
    assert (a + b + c) + [] == Keys(tab);
    InsertKeepsDistinct(a + b + c, key, []);
  }

  // ---- finding keys after a change ----

  lemma {:induction false} IndexSnoc<T>(s: seq<Named<T>>, key: string, x: T)
    requires Index(s, key).None?
    ensures Index(s + [(key, x)], key) == Some(|s|)
    decreases |s|
  {
    if s != [] {
      assert (s + [(key, x)])[1..] == s[1..] + [(key, x)];
      IndexSnoc(s[1..], key, x);
    }
  }

  lemma {:induction false} IndexPut<T>(s: seq<Named<T>>, i: nat, x: T, key: string)
    requires i < |s|
    ensures Index(s[i := (s[i].0, x)], key) == Index(s, key)
    decreases |s|
  {
    var t := s[i := (s[i].0, x)];
    if i == 0 {
      assert t[1..] == s[1..];
    } else {
      assert t[1..] == s[1..][i - 1 := (s[1..][i - 1].0, x)];
      IndexPut(s[1..], i - 1, x, key);
    }
  }

  lemma CheckAdded(tab: Table, key: string, sub: Table, arr: Arr)
    requires CheckKey(tab, key) == Nowhere
    ensures CheckKey(AddTable(tab, key, sub), key) == InTables(|tab.tabs|)
    ensures CheckKey(AddArray(tab, key, arr), key) == InArrays(|tab.arrs|)
  {
    IndexSnoc(tab.tabs, key, sub);
    IndexSnoc(tab.arrs, key, arr);
  }

  lemma CheckPutTable(tab: Table, i: nat, sub: Table, key: string)
    requires i < |tab.tabs|
    ensures CheckKey(PutTable(tab, i, sub), key) == CheckKey(tab, key)
  {
    IndexPut(tab.tabs, i, sub, key);
  }

  lemma CheckPutArray(tab: Table, i: nat, arr: Arr, key: string)
    requires i < |tab.arrs|
    ensures CheckKey(PutArray(tab, i, arr), key) == CheckKey(tab, key)
  {
    IndexPut(tab.arrs, i, arr, key);
  }

  // ---- the changes keep the invariant ----

  lemma AddValueValid(tab: Table, key: string, raw: string)
    requires Valid(tab) && CheckKey(tab, key) == Nowhere
    ensures Valid(AddValue(tab, key, raw))
  {
    NowhereIffAbsent(tab, key);
    AddValueKeys(tab, key, raw);
  }

  lemma AddArrayValid(tab: Table, key: string, arr: Arr)
    requires Valid(tab) && CheckKey(tab, key) == Nowhere && ValidArr(arr)
    ensures Valid(AddArray(tab, key, arr))
  {
    NowhereIffAbsent(tab, key);
    AddArrayKeys(tab, key, arr);
  }

  lemma AddTableValid(tab: Table, key: string, sub: Table)
    requires Valid(tab) && CheckKey(tab, key) == Nowhere && Valid(sub)
    ensures Valid(AddTable(tab, key, sub))
  {
    NowhereIffAbsent(tab, key);
    AddTableKeys(tab, key, sub);
  }

  lemma PutTableValid(tab: Table, i: nat, sub: Table)
    requires i < |tab.tabs| && Valid(tab) && Valid(sub)
    ensures Valid(PutTable(tab, i, sub))
  {
    NamesPut(tab.tabs, i, sub);
  }

  lemma PutArrayValid(tab: Table, i: nat, arr: Arr)
    requires i < |tab.arrs| && Valid(tab) && ValidArr(arr)
    ensures Valid(PutArray(tab, i, arr))
  {
    NamesPut(tab.arrs, i, arr);
  }

  lemma AddItemValid(arr: Arr, item: Item)
    requires ValidArr(arr) && ValidItem(item)
    ensures ValidArr(AddItem(arr, item))
  {}

  lemma FlagsValid(tab: Table, implicit: bool, readonly: bool)
    requires Valid(tab)
    ensures Valid(tab.(implicit := implicit, readonly := readonly))
  {
    assert Keys(tab.(implicit := implicit, readonly := readonly)) == Keys(tab);
  }
}
