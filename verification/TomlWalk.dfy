// Walking along the path of a header one key at a time, as walk_tabpath does, against the
// definition that goes down the tree and builds it again.

module TomlWalk {
  import opened Wrappers
  import opened TomlTree
  import opened TomlParser

  const IMPLICIT := EMPTY.(implicit := true)

  /** The tree with what has become of the table under the path. */
  function Rebuilt(tab: Table, path: seq<string>, sub: Option<Table>): Option<Table>
    requires At(tab, path).Some?
  {
    match sub
    case None => None
    case Some(new_) => Some(Replace(tab, path, new_))
  }

  // ---- a path with one more key ----

  lemma {:induction false} AtSnoc(tab: Table, path: seq<string>, key: string)
    requires At(tab, path).Some?
    ensures At(tab, path + [key]) == At(At(tab, path).value, [key])
    decreases |path|
  {
    if path == [] {
      assert path + [key] == [key];
    } else {
      assert (path + [key])[1..] == path[1..] + [key];
      match CheckKey(tab, path[0])
      case InTables(i) => AtSnoc(tab.tabs[i].1, path[1..], key);
      case InArrays(i) => AtSnoc(LastTable(tab.arrs[i].1).value, path[1..], key);
      case _ =>
    }
  }

  lemma {:induction false} ReplaceSnoc(tab: Table, path: seq<string>, key: string, new_: Table)
    requires At(tab, path).Some? && At(tab, path + [key]).Some? && At(At(tab, path).value, [key]).Some?
    ensures Replace(tab, path + [key], new_) == Replace(tab, path, Replace(At(tab, path).value, [key], new_))
    decreases |path|
  {
    if path == [] {
      assert path + [key] == [key];
    } else {
      assert (path + [key])[1..] == path[1..] + [key];
      match CheckKey(tab, path[0])
      case InTables(i) => ReplaceSnoc(tab.tabs[i].1, path[1..], key, new_);
      case InArrays(i) => ReplaceSnoc(LastTable(tab.arrs[i].1).value, path[1..], key, new_);
      case _ =>
    }
  }

  lemma PutLastTwice(tab: Table, i: nat, x: Table, y: Table)
    requires i < |tab.arrs| && LastTable(tab.arrs[i].1).Some?
    ensures LastTable(PutLast(tab.arrs[i].1, x)) == Some(x)
    ensures var put := PutArray(tab, i, PutLast(tab.arrs[i].1, x));
            PutArray(put, i, PutLast(put.arrs[i].1, y)) == PutArray(tab, i, PutLast(tab.arrs[i].1, y))
  {
    var arr := tab.arrs[i].1;
    assert PutLast(PutLast(arr, x), y).items == PutLast(arr, y).items;
    var put := PutArray(tab, i, PutLast(arr, x));
    assert PutArray(put, i, PutLast(put.arrs[i].1, y)).arrs == PutArray(tab, i, PutLast(arr, y)).arrs;
  }

  lemma {:induction false} ReplaceTwice(tab: Table, path: seq<string>, x: Table, y: Table)
    requires At(tab, path).Some? && At(Replace(tab, path, x), path).Some?
    ensures Replace(Replace(tab, path, x), path, y) == Replace(tab, path, y)
    decreases |path|
  {
    if path != [] {
      match CheckKey(tab, path[0])
      case InTables(i) =>
        CheckPutTable(tab, i, Replace(tab.tabs[i].1, path[1..], x), path[0]);
        ReplaceTwice(tab.tabs[i].1, path[1..], x, y);
      case InArrays(i) =>
        var last := LastTable(tab.arrs[i].1).value;
        CheckPutArray(tab, i, PutLast(tab.arrs[i].1, Replace(last, path[1..], x)), path[0]);
        PutLastTwice(tab, i, Replace(last, path[1..], x), Replace(last, path[1..], y));
        ReplaceTwice(last, path[1..], x, y);
      case _ =>
    }
  }

  // ---- one step of the walk ----

  /** Where one key leads from a table: the table there, the step into it, and the way back. */
  lemma IntoTable(cur: Table, key: string, rest: seq<string>, z: string, double: bool)
    requires At(cur, [key]).Some?
    ensures Select(cur, [key] + rest, z, double) == Rebuilt(cur, [key], Select(At(cur, [key]).value, rest, z, double))
  {
    assert ([key] + rest)[1..] == rest && [key][1..] == [];
    match CheckKey(cur, key)
    case InTables(i) =>
      StopHere(cur.tabs[i].1, [key][1..], rest, z, double);
    case InArrays(i) =>
      StopHere(LastTable(cur.arrs[i].1).value, [key][1..], rest, z, double);
    case _ =>
  }

  lemma StopHere(sub: Table, none: seq<string>, rest: seq<string>, z: string, double: bool)
    requires none == []
    ensures At(sub, none) == Some(sub) && Rebuilt(sub, none, Select(sub, rest, z, double)) == Select(sub, rest, z, double)
  {}

  lemma IntoNothing(cur: Table, key: string, rest: seq<string>, z: string, double: bool)
    requires CheckKey(cur, key) != Nowhere && At(cur, [key]).None?
    ensures Select(cur, [key] + rest, z, double) == None
  {
    assert ([key] + rest)[1..] == rest && [key][1..] == [];
  }

  /** Where there is no such table, an implicit one is made first. */
  lemma IntoNew(cur: Table, key: string, rest: seq<string>, z: string, double: bool)
    requires CheckKey(cur, key) == Nowhere
    ensures At(AddTable(cur, key, IMPLICIT), [key]) == Some(IMPLICIT)
    ensures Select(cur, [key] + rest, z, double) == Select(AddTable(cur, key, IMPLICIT), [key] + rest, z, double)
  {
    var made := AddTable(cur, key, IMPLICIT);
    assert ([key] + rest)[1..] == rest && [key][1..] == [];
    CheckAdded(cur, key, IMPLICIT, Arr(NoKind, []));
    if Select(IMPLICIT, rest, z, double).Some? {
      var sub := Select(IMPLICIT, rest, z, double).value;
      assert PutTable(made, |cur.tabs|, sub) == AddTable(cur, key, sub);
    }
  }

  /** The walk stands behind `path` and has `rest` to go: this decides what the header gives. */
  ghost predicate Walking(whole: Option<Table>, root: Table, path: seq<string>, rest: seq<string>, z: string, double: bool) {
    At(root, path).Some? && whole == Rebuilt(root, path, Select(At(root, path).value, rest, z, double))
  }

  lemma WalkStart(root: Table, path: seq<string>, z: string, double: bool)
    ensures Walking(Select(root, path, z, double), root, [], path[0..], z, double)
  {
    assert path[0..] == path;
  }

  lemma NextName(names: seq<string>, here: seq<string>, key: string, rest: seq<string>)
    requires |here| < |names| && names == here + names[|here|..] && names[|here|] == key && rest == names[|here| + 1..]
    ensures names[|here|..] == [key] + rest && names == (here + [key]) + rest
  {}

  lemma WalkOn(whole: Option<Table>, root: Table, path: seq<string>, key: string, rest: seq<string>, z: string, double: bool)
    requires Walking(whole, root, path, [key] + rest, z, double) && At(At(root, path).value, [key]).Some?
    ensures Walking(whole, root, path + [key], rest, z, double)
  {
    var cur := At(root, path).value;
    AtSnoc(root, path, key);
    IntoTable(cur, key, rest, z, double);
    var sub := Select(At(cur, [key]).value, rest, z, double);
    if sub.Some? {
      ReplaceSnoc(root, path, key, sub.value);
    }
  }

  lemma WalkNew(whole: Option<Table>, root: Table, path: seq<string>, key: string, rest: seq<string>, z: string, double: bool)
    requires Walking(whole, root, path, [key] + rest, z, double) && CheckKey(At(root, path).value, key) == Nowhere
    ensures Walking(whole, Replace(root, path, AddTable(At(root, path).value, key, IMPLICIT)), path + [key], rest, z, double)
  {
    var cur := At(root, path).value;
    var made := AddTable(cur, key, IMPLICIT);
    var root1 := Replace(root, path, made);
    IntoNew(cur, key, rest, z, double);
    ReplacedThere(root, path, made);
    var sub := Select(made, [key] + rest, z, double);
    if sub.Some? {
      ReplaceTwice(root, path, made, sub.value);
    }
    WalkOn(whole, root1, path, key, rest, z, double);
  }
}
