// Saving a store and loading the text gives the store back.

module AnswersRoundTrip {
  import opened Wrappers
  import opened Pairs
  import opened Answers
  import opened TomlSpelling
  import opened TomlTree
  import opened TomlParser
  import opened TomlDocument
  import opened AnswersText
  import opened AnswersFile

  /** What can be saved and loaded again: clean texts under distinct bare keys. */
  ghost predicate SaveablePairs(s: seq<Pair>) {
    Distinct(s) && forall i :: 0 <= i < |s| ==> WritableKey(s[i].0) && Clean(s[i].1)
  }

  ghost predicate Saveable(a: Record) {
    SaveablePairs(a.answers) && SaveablePairs(a.status) && (a.flavor.Some? ==> Clean(a.flavor.value))
  }

  lemma NothingInEmpty(key: string)
    ensures CheckKey(TomlTree.EMPTY, key) == Nowhere
  {}

  lemma PairsWritable(s: seq<Pair>)
    requires SaveablePairs(s)
    ensures WritableAfter(TomlTree.EMPTY, Texts(s))
  {
    forall j | 0 <= j < |s| ensures Fits(TomlTree.EMPTY, Texts(s)[j]) {
      TextFits(s[j].0, s[j].1);
    }
  }

  lemma WordsWritable()
    ensures WritableKey("schema") && WritableKey("flavor") && WritableKey("install_done") && WritableKey("oobe_done")
    ensures WritableKey("meta") && WritableKey("answers") && WritableKey("stage_status")
  {}

  lemma WordFits(k: string, w: string)
    requires WritableKey(k) && (w == "1" || w == "true" || w == "false")
    ensures Fits(TomlTree.EMPTY, (k, Word(w)))
  {
    NothingInEmpty(k);
  }

  lemma TextFits(k: string, v: string)
    requires WritableKey(k) && Clean(v)
    ensures Fits(TomlTree.EMPTY, (k, Text(v)))
  {
    NothingInEmpty(k);
  }

  lemma MetaWritable(a: Record)
    requires Saveable(a)
    ensures WritableAfter(TomlTree.EMPTY, MetaEntries(a))
  {
    WordsWritable();
    WordFits("schema", "1");
    WordFits("install_done", Truth(a.installDone));
    WordFits("oobe_done", Truth(a.oobeDone));
    if a.flavor.Some? {
      TextFits("flavor", a.flavor.value);
    }
    assert Distinct4("schema", "flavor", "install_done", "oobe_done");
  }

  ghost predicate Distinct4(a: string, b: string, c: string, d: string) {
    a != b && a != c && a != d && b != c && b != d && c != d
  }

  /** The tree of a saved store. */
  function Tree(a: Record): Table {
    AddTable(AddTable(AddTable(TomlTree.EMPTY,
      "meta", Section(MetaEntries(a))),
      "answers", Section(Texts(a.answers))),
      "stage_status", Section(Texts(a.status)))
  }

  lemma SaveParts(a: Record)
    ensures Save(a) ==
      Header("meta") + (Lines(MetaEntries(a)) + ("\n"
      + (Header("answers") + (Lines(Texts(a.answers)) + ("\n"
      + (Header("stage_status") + (Lines(Texts(a.status)) + "")))))))
  {
    Regrouped(Header("meta"), Lines(MetaEntries(a)), "\n", Header("answers"), Lines(Texts(a.answers)),
              Header("stage_status"), Lines(Texts(a.status)));
  }

  lemma Regrouped(a: string, b: string, n: string, c: string, d: string, e: string, f: string)
    ensures a + b + n + c + d + n + e + f == a + (b + (n + (c + (d + (n + (e + (f + "")))))))
  {
    assert f + "" == f;
    Regroup(a + b + n + c + d + n, e, f);
    Regroup(a + b + n + c + d, n, e + f);
    Regroup(a + b + n + c, d, n + (e + f));
    Regroup(a + b + n, c, d + (n + (e + f)));
    Regroup(a + b, n, c + (d + (n + (e + f))));
    Regroup(a, b, n + (c + (d + (n + (e + f)))));
  }

  // ---- no NUL in the text ----

  lemma NoNulJoin(x: string, y: string)
    requires NoNul(x) && NoNul(y)
    ensures NoNul(x + y)
  {}

  lemma LineNoNul(e: Entry)
    requires WritableEntry(e)
    ensures NoNul(Line(e))
  {
    assert NoNul(e.0) && NoNul(" = ") && NoNul("\n") && NoNul(RawText(e.1));
    NoNulJoin(e.0, " = ");
    NoNulJoin(e.0 + " = ", RawText(e.1));
    NoNulJoin(e.0 + " = " + RawText(e.1), "\n");
  }

  lemma {:induction false} LinesNoNul(s: seq<Entry>)
    requires forall j :: 0 <= j < |s| ==> WritableEntry(s[j])
    ensures NoNul(Lines(s))
  {
    if s != [] {
      LineNoNul(s[0]);
      LinesNoNul(s[1..]);
      NoNulJoin(Line(s[0]), Lines(s[1..]));
    }
  }

  lemma FitsNoNul(s: seq<Entry>)
    requires WritableAfter(TomlTree.EMPTY, s)
    ensures NoNul(Lines(s))
  {
    forall j | 0 <= j < |s| ensures WritableEntry(s[j]) {
      assert Fits(TomlTree.EMPTY, s[j]);
    }
    LinesNoNul(s);
  }

  lemma PairsNoNul(s: seq<Pair>)
    requires SaveablePairs(s)
    ensures NoNul(Lines(Texts(s)))
  {
    PairsWritable(s);
    FitsNoNul(Texts(s));
  }

  lemma MetaNoNul(a: Record)
    requires Saveable(a)
    ensures NoNul(Lines(MetaEntries(a)))
  {
    MetaWritable(a);
    FitsNoNul(MetaEntries(a));
  }

  lemma HeaderNoNul(name: string)
    requires WritableKey(name)
    ensures NoNul(Header(name))
  {}

  lemma SaveNoNul(a: Record)
    requires Saveable(a)
    ensures NoNul(Save(a))
  {
    MetaNoNul(a);
    PairsNoNul(a.answers);
    PairsNoNul(a.status);
    WordsWritable();
    HeaderNoNul("meta");
    HeaderNoNul("answers");
    HeaderNoNul("stage_status");
    NoNulParts(Header("meta"), Lines(MetaEntries(a)), Header("answers"), Lines(Texts(a.answers)),
               Header("stage_status"), Lines(Texts(a.status)));
  }

  lemma NoNulParts(x: string, y: string, z: string, u: string, v: string, w: string)
    requires NoNul(x) && NoNul(y) && NoNul(z) && NoNul(u) && NoNul(v) && NoNul(w)
    ensures NoNul(x + y + "\n" + z + u + "\n" + v + w)
  {
    NoNulJoin(x, y);
    NoNulJoin(x + y, "\n");
    NoNulJoin(x + y + "\n", z);
    NoNulJoin(x + y + "\n" + z, u);
    NoNulJoin(x + y + "\n" + z + u, "\n");
    NoNulJoin(x + y + "\n" + z + u + "\n", v);
    NoNulJoin(x + y + "\n" + z + u + "\n" + v, w);
  }

  // ---- the text parses to the tree ----

  lemma NameAbsent(root: Table, name: string)
    requires root.kvals == [] && root.arrs == [] && forall i :: 0 <= i < |root.tabs| ==> root.tabs[i].0 != name
    ensures CheckKey(root, name) == Nowhere
  {
    assert Index(root.tabs, name).None?;
  }

  /** The saved text parses, to the tree with the three sections. */
  lemma SavedParses(a: Record)
    requires Saveable(a)
    ensures Parse(Save(a)) == Some(Tree(a))
  {
    SaveNoNul(a);
    CStringWhole(Save(a));
    MetaWritable(a);
    PairsWritable(a.answers);
    PairsWritable(a.status);
    WordsWritable();
    EmptyValid();
    SaveParts(a);
    SectionsParse("meta", MetaEntries(a), "answers", Texts(a.answers), "stage_status", Texts(a.status));
  }

  function ThreeSections(x: string, m: seq<Entry>, y: string, s: seq<Entry>, z: string, t: seq<Entry>): Table {
    AddTable(AddTable(AddTable(TomlTree.EMPTY, x, Section(m)), y, Section(s)), z, Section(t))
  }

  lemma SectionsParse(x: string, m: seq<Entry>, y: string, s: seq<Entry>, z: string, t: seq<Entry>)
    requires WritableAfter(TomlTree.EMPTY, m) && WritableAfter(TomlTree.EMPTY, s) && WritableAfter(TomlTree.EMPTY, t)
    requires WritableKey(x) && WritableKey(y) && WritableKey(z) && x != y && x != z && y != z
    requires Valid(TomlTree.EMPTY) && At(TomlTree.EMPTY, []).Some?
    ensures Doc(TomlTree.EMPTY, [],
                Header(x) + (Lines(m) + ("\n" + (Header(y) + (Lines(s) + ("\n" + (Header(z) + (Lines(t) + ""))))))))
         == Some(ThreeSections(x, m, y, s, z, t))
  {
    var root1 := AddTable(TomlTree.EMPTY, x, Section(m));
    var root2 := AddTable(root1, y, Section(s));
    var text3 := Header(z) + (Lines(t) + "");
    NameAbsent(TomlTree.EMPTY, x);
    NameAbsent(root1, y);
    NameAbsent(root2, z);
    SectionAndBlank(TomlTree.EMPTY, [], x, m, Header(y) + (Lines(s) + ("\n" + text3)));
    SectionAndBlank(root1, [x], y, s, text3);
    SectionAndEnd(root2, [y], z, t);
  }

  lemma SectionAndBlank(root: Table, path: seq<string>, name: string, s: seq<Entry>, rest: string)
    requires Valid(root) && At(root, path).Some? && WritableKey(name) && CheckKey(root, name) == Nowhere
    requires WritableAfter(TomlTree.EMPTY, s)
    ensures Valid(AddTable(root, name, Section(s))) && At(AddTable(root, name, Section(s)), [name]).Some?
    ensures Doc(root, path, Header(name) + (Lines(s) + ("\n" + rest))) == Doc(AddTable(root, name, Section(s)), [name], rest)
  {
    SectionDoc(root, path, name, s, "\n" + rest);
    DocBlank(AddTable(root, name, Section(s)), [name], rest);
  }

  lemma SectionAndEnd(root: Table, path: seq<string>, name: string, s: seq<Entry>)
    requires Valid(root) && At(root, path).Some? && WritableKey(name) && CheckKey(root, name) == Nowhere
    requires WritableAfter(TomlTree.EMPTY, s)
    ensures Doc(root, path, Header(name) + (Lines(s) + "")) == Some(AddTable(root, name, Section(s)))
  {
    SectionDoc(root, path, name, s, "");
    DocEnd(AddTable(root, name, Section(s)), [name]);
  }

  // ---- reading the tree ----

  function RawPairs(s: seq<Entry>): (ps: seq<Named<string>>)
    ensures |ps| == |s| && forall i :: 0 <= i < |s| ==> ps[i] == (s[i].0, RawText(s[i].1))
  {
    seq(|s|, i requires 0 <= i < |s| => (s[i].0, RawText(s[i].1)))
  }

  lemma {:induction false} AddAllValues(tab: Table, s: seq<Entry>)
    ensures AddAll(tab, s) == tab.(kvals := tab.kvals + RawPairs(s))
    decreases |s|
  {
    if s == [] {
      assert tab.kvals + RawPairs(s) == tab.kvals;
    } else {
      AddAllValues(AddValue(tab, s[0].0, RawText(s[0].1)), s[1..]);
      assert tab.kvals + [(s[0].0, RawText(s[0].1))] + RawPairs(s[1..]) == tab.kvals + RawPairs(s);
    }
  }

  lemma {:induction false} IndexDistinct<T>(s: seq<Named<T>>, i: nat)
    requires i < |s| && forall j, k :: 0 <= j < k < |s| ==> s[j].0 != s[k].0
    ensures Index(s, s[i].0) == Some(i)
    decreases |s|
  {
    if i > 0 {
      IndexDistinct(s[1..], i - 1);
    }
  }

  /** Reading a section with one text after the other under its key. */
  lemma {:induction false} ReadsSection(tab: Table, s: seq<Pair>, n: nat, acc: seq<Pair>)
    requires SaveablePairs(s) && n <= |s|
    requires tab.kvals == RawPairs(Texts(s)) && tab.arrs == [] && tab.tabs == []
    ensures ReadPairs(tab, n, acc) == SetAll(acc, s[n..])
    decreases |s| - n
  {
    if n < |s| {
      IndexDistinct(tab.kvals, n);
      CleanReads(s[n].1, "");
      assert StringIn(tab, s[n].0) == Some(s[n].1);
      assert s[n..][0] == s[n] && s[n..][1..] == s[n + 1..];
      ReadsSection(tab, s, n + 1, Set(acc, s[n].0, s[n].1));
    } else {
      assert KeyIn(tab, n) == None;
    }
  }

  lemma SectionValues(s: seq<Entry>)
    ensures Section(s).kvals == RawPairs(s) && Section(s).arrs == [] && Section(s).tabs == []
  {
    AddAllValues(TomlTree.EMPTY, s);
    assert [] + RawPairs(s) == RawPairs(s);
  }

  lemma SectionRead(s: seq<Pair>)
    requires SaveablePairs(s)
    ensures ReadPairs(Section(Texts(s)), 0, []) == s
  {
    SectionValues(Texts(s));
    ReadsSection(Section(Texts(s)), s, 0, []);
    assert [] + s == s && s[0..] == s;
    SetAllAppends([], s);
  }

  lemma RawAt(s: seq<Entry>, i: nat)
    requires i < |s| && forall j, k :: 0 <= j < k < |s| ==> s[j].0 != s[k].0
    ensures RawIn(Section(s), s[i].0) == Some(RawText(s[i].1))
  {
    SectionValues(s);
    IndexDistinct(RawPairs(s), i);
  }

  lemma RawAbsent(s: seq<Entry>, key: string)
    requires forall j :: 0 <= j < |s| ==> s[j].0 != key
    ensures RawIn(Section(s), key) == None
  {
    SectionValues(s);
  }

  lemma MetaRead(a: Record)
    requires Saveable(a)
    ensures StringIn(Section(MetaEntries(a)), "flavor") == a.flavor
    ensures FlagIn(Section(MetaEntries(a)), "install_done") == a.installDone
    ensures FlagIn(Section(MetaEntries(a)), "oobe_done") == a.oobeDone
  {
    var s := MetaEntries(a);
    MetaWritable(a);
    RawAt(s, |s| - 1);
    RawAt(s, |s| - 2);
    if a.flavor.Some? {
      RawAt(s, 1);
      CleanReads(a.flavor.value, "");
    } else {
      RawAbsent(s, "flavor");
    }
  }

  lemma TreeTables(m: Table, s: Table, t: Table)
    ensures var root := AddTable(AddTable(AddTable(TomlTree.EMPTY, "meta", m), "answers", s), "stage_status", t);
            TableIn(root, "meta") == Some(m) && TableIn(root, "answers") == Some(s) && TableIn(root, "stage_status") == Some(t)
  {
    var root := AddTable(AddTable(AddTable(TomlTree.EMPTY, "meta", m), "answers", s), "stage_status", t);
    assert root.tabs == [("meta", m), ("answers", s), ("stage_status", t)];
    IndexDistinct(root.tabs, 0);
    IndexDistinct(root.tabs, 1);
    IndexDistinct(root.tabs, 2);
  }

  /** answers.toml: loading what was saved gives back the same flavor, flags, answers and stage
      statuses in the same order, for every store of clean texts under distinct bare keys. */
  lemma LoadSaved(a: Record)
    requires Saveable(a)
    ensures Load(Save(a)) == a
  {
    SavedParses(a);
    TreeTables(Section(MetaEntries(a)), Section(Texts(a.answers)), Section(Texts(a.status)));
    MetaRead(a);
    SectionRead(a.answers);
    SectionRead(a.status);
  }
}
