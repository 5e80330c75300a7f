// Saving and loading as operations on the store, and what happens to stores that are not clean.

module AnswersStore {
  import opened Wrappers
  import opened Pairs
  import opened Answers
  import opened TomlString
  import opened TomlSpelling
  import opened TomlLexer
  import opened TomlTree
  import opened TomlParser
  import opened AnswersText
  import opened AnswersFile
  import opened AnswersRoundTrip
  import TomlContext

  // ---- the two operations ----

  lemma {:induction false} LinesSnoc(s: seq<Entry>, e: Entry)
    ensures Lines(s + [e]) == Lines(s) + Line(e)
  {
    if s == [] {
      assert s + [e] == [e] && Lines([e]) == Line(e) + Lines([]);
    } else {
      assert (s + [e])[1..] == s[1..] + [e];
      LinesSnoc(s[1..], e);
      Regroup(Line(s[0]), Lines(s[1..]), Line(e));
    }
  }

  /** The lines of one list, appended to the text. */
  method PrintPairs(store: Store, before: string) returns (text: string)
    requires store.Valid()
    ensures text == before + Lines(Texts(store.Contents()))
  {
    text := before;
    ghost var s := store.Contents();
    assert before + "" == before;
    for i := 0 to store.n
      invariant text == before + Lines(Texts(s[..i]))
    {
      var e := (store.keys[i], Text(store.vals[i]));
      assert s[i] == (store.keys[i], store.vals[i]);
      assert Texts(s[..i + 1]) == Texts(s[..i]) + [e];
      LinesSnoc(Texts(s[..i]), e);
      Regroup(before, Lines(Texts(s[..i])), Line(e));
      text := text + Line(e);
    }
    assert s[..store.n] == s;
  }

  /** bp_answers_save, as the text written. */
  method SaveAnswers(book: Book) returns (text: string)
    requires book.Valid()
    ensures text == Save(book.Value())
  {
    text := PrintMeta(book.flavor, book.installDone, book.oobeDone);
    text := PrintPairs(book.answers, text + "\n" + Header("answers"));
    text := PrintPairs(book.status, text + "\n" + Header("stage_status"));
  }

  method PrintMeta(flavor: Option<string>, installDone: bool, oobeDone: bool) returns (text: string)
    ensures forall a: Record :: a.flavor == flavor && a.installDone == installDone && a.oobeDone == oobeDone ==>
      text == Header("meta") + Lines(MetaEntries(a))
  {
    var entries := [("schema", Word("1"))];
    if flavor.Some? {
      entries := entries + [("flavor", Text(flavor.value))];
    }
    entries := entries + [("install_done", Word(Truth(installDone))), ("oobe_done", Word(Truth(oobeDone)))];
    text := Header("meta");
    assert text + "" == text;
    for i := 0 to |entries|
      invariant text == Header("meta") + Lines(entries[..i])
    {
      assert entries[..i + 1] == entries[..i] + [entries[i]];
      LinesSnoc(entries[..i], entries[i]);
      Regroup(Header("meta"), Lines(entries[..i]), Line(entries[i]));
      text := text + Line(entries[i]);
    }
    assert entries[..|entries|] == entries;
    forall a: Record | a.flavor == flavor && a.installDone == installDone && a.oobeDone == oobeDone
      ensures entries == MetaEntries(a)
    {
    }
  }

  /** The strings of a section set in the store one after the other: the loop over toml_key_in. */
  method ReadInto(tab: Table, store: Store)
    requires store.Valid() && store.Contents() == []
    modifies store, store.keys, store.vals
    ensures store.Valid() && store.Contents() == ReadPairs(tab, 0, [])
    ensures fresh({store.keys, store.vals} - old({store.keys, store.vals}))
  {
    var i := 0;
    while true
      invariant store.Valid() && fresh({store.keys, store.vals} - old({store.keys, store.vals}))
      invariant ReadPairs(tab, 0, []) == ReadPairs(tab, i, store.Contents())
      decreases |TomlTree.Keys(tab)| - i
    {
      KeyInEnumerates(tab, i);
      var k := KeyIn(tab, i);
      if k.None? { break; }
      var raw := RawIn(tab, k.value);
      if raw.Some? {
        var v := TomlRtos(raw.value);
        if v.Some? {
          store.Set(k.value, v.value);
        }
      }
      i := i + 1;
    }
  }

  method ReadSectionInto(root: Table, name: string, store: Store)
    requires store.Valid() && store.Contents() == []
    modifies store, store.keys, store.vals
    ensures store.Valid() && store.Contents() == ReadSection(root, name)
    ensures fresh({store.keys, store.vals} - old({store.keys, store.vals}))
  {
    var tab := TableIn(root, name);
    if tab.Some? {
      ReadInto(tab.value, store);
    }
  }

  /** The scalars of the store, from the first section. */
  method ReadMeta(root: Table, book: Book)
    requires book.flavor == None && !book.installDone && !book.oobeDone
    modifies book
    ensures var meta := TableIn(root, "meta");
      && book.flavor == (if meta.Some? then StringIn(meta.value, "flavor") else None)
      && book.installDone == (meta.Some? && FlagIn(meta.value, "install_done"))
      && book.oobeDone == (meta.Some? && FlagIn(meta.value, "oobe_done"))
  {
    var meta := TableIn(root, "meta");
    if meta.Some? {
      book.flavor := StringIn(meta.value, "flavor");
      book.installDone := FlagIn(meta.value, "install_done");
      book.oobeDone := FlagIn(meta.value, "oobe_done");
    }
  }

  /** The sections read into the empty lists of a store. */
  method ReadLists(root: Table, book: Book)
    requires book.Valid() && book.Value().answers == [] && book.Value().status == []
    modifies book.answers, book.answers.keys, book.answers.vals, book.status, book.status.keys, book.status.vals
    ensures book.Valid() && fresh(book.Repr() - old(book.Repr()))
    ensures book.Value() == old(book.Value()).(answers := ReadSection(root, "answers"), status := ReadSection(root, "stage_status"))
  {
    ReadSectionInto(root, "answers", book.answers);
    ReadSectionInto(root, "stage_status", book.status);
  }

  /** bp_answers_load on the text of the file. */
  method LoadAnswers(text: string) returns (book: Book)
    ensures fresh(book) && book.Valid() && fresh(book.Repr()) && book.Value() == Load(text)
  {
    book := new Book();
    var root := TomlContext.TomlParse(text);
    if root.Some? {
      ReadTree(root.value, book);
    }
  }

  /** The three sections of a tree, read into an empty store. */
  method ReadTree(root: Table, book: Book)
    requires book.Valid() && book.Value() == Answers.EMPTY
    modifies book, book.Repr()
    ensures book.Valid() && fresh(book.Repr() - old(book.Repr()))
    ensures book.Value() == Loaded(root)
  {
    ReadMeta(root, book);
    ReadLists(root, book);
  }

  // ---- a store that is not clean ----

  /** A clean text, a double quote, and more. */
  function Broken(v: string, w: string): string {
    v + "\"" + w
  }

  lemma BrokenParts(v: string, w: string, rest: string)
    ensures Quoted(Broken(v, w)) + ("\n" + rest) == Quoted(v) + (w + "\"\n" + rest)
  {
    assert ['"'] == "\"";
    FourParts("\"", v, "\"", w, "\"");
    Regroup(Quoted(v), w + "\"", "\n" + rest);
    Regroup(w, "\"", "\n" + rest);
    assert "\"" + ("\n" + rest) == "\"\n" + rest;
    Regroup(w, "\"\n", rest);
    Regroup(Quoted(v), w, "\"");
  }

  /** The string ends at the quote, and another string token follows. */
  lemma BrokenTokens(v: string, w: string, rest: string)
    requires Clean(v) && w != "" && KeyChar(w[0])
    ensures NextToken(Quoted(v) + (w + rest), false) == Some(Token(Str, Quoted(v), w + rest, false))
    ensures NextToken(w + rest, true).Some? && NextToken(w + rest, true).value.kind == Str
  {
    var back := w + rest;
    assert back[0] == w[0];
    EndsAtQuote(v, back);
    StringToken(back, true, ScanString(back, true).value);
  }

  lemma EndsAtQuote(v: string, back: string)
    requires Clean(v) && back != "" && KeyChar(back[0])
    ensures NextToken(Quoted(v) + back, false) == Some(Token(Str, Quoted(v), back, false))
  {
    var s := Quoted(v) + back;
    NoLeadingQuote(v);
    QuotedParts(v);
    CleanEnds(v, back, 1);
    assert s[0] == '"' && (if v == "" then s[2] == back[0] else s[1] == v[0]);
    assert ScanString(s, false) == Some(|v| + 2);
    assert s[..|v| + 2] == Quoted(v) && s[|v| + 2..] == back;
  }

  /** A line with such a value does not parse: something follows the value. */
  lemma BrokenLine(root: Table, name: string, i: nat, k: string, v: string, w: string, rest: string)
    requires Current(root, name, i) && At(root, [name]).Some? && CheckKey(root.tabs[i].1, k) == Nowhere
    requires WritableKey(k) && Clean(v) && w != "" && KeyChar(w[0])
    ensures Doc(root, [name], Line((k, Text(Broken(v, w)))) + rest).None?
  {
    var e := (k, Text(Broken(v, w)));
    var value := Quoted(v) + (w + "\"\n" + rest);
    CurrentAt(root, name, i);
    LineParts(e, rest);
    BrokenParts(v, w, rest);
    KeyToken(k, " = " + value);
    EqualToken(value);
    Regroup(w, "\"\n", rest);
    BrokenTokens(v, w, "\"\n" + rest);
    BareName(k);
    var end := NextToken(w + "\"\n" + rest, true).value;
    EntryWhen(root.tabs[i].1, Token(Str, k, " = " + value, false), Token(Equal, "=", " " + value, false),
              Token(Str, Quoted(v), w + "\"\n" + rest, false), end, k);
    NotALine(root, [name], k + (" = " + value), Token(Str, k, " = " + value, false));
  }

  lemma NotALine(root: Table, path: seq<string>, text: string, tok: Token)
    requires Valid(root) && At(root, path).Some?
    requires NextToken(text, true) == Some(tok) && WellFormed(tok) && tok.kind == Str && !tok.eof
    requires ParseKeyval(At(root, path).value, tok).Some? && ParseKeyval(At(root, path).value, tok).value.1.kind != Newline
    ensures Doc(root, path, text).None?
  {
    assert Advance(Token(Newline, "", text, false), true) == Some(tok);
  }

  lemma {:induction false} LinesConcat(s: seq<Entry>, t: seq<Entry>)
    ensures Lines(s + t) == Lines(s) + Lines(t)
  {
    if s == [] {
      assert s + t == t;
    } else {
      assert (s + t)[1..] == s[1..] + t;
      LinesConcat(s[1..], t);
      Regroup(Line(s[0]), Lines(s[1..]), Lines(t));
    }
  }

  /** The lines of a section with a broken one among them, in front of the rest. */
  lemma SplitLines(front: seq<Pair>, x: Pair, back: seq<Pair>, rest: string)
    ensures Lines(Texts(front + [x] + back)) + rest
         == Lines(Texts(front)) + (Line((x.0, Text(x.1))) + (Lines(Texts(back)) + rest))
  {
    var e := (x.0, Text(x.1));
    assert Texts(front + [x] + back) == Texts(front) + ([e] + Texts(back));
    LinesConcat(Texts(front), [e] + Texts(back));
    assert ([e] + Texts(back))[1..] == Texts(back);
    Regroup(Lines(Texts(front)), Line(e) + Lines(Texts(back)), rest);
    Regroup(Line(e), Lines(Texts(back)), rest);
  }

  /** The section in which the broken line stands does not parse. */
  lemma BrokenSection(root: Table, path: seq<string>, name: string, front: seq<Pair>, k: string, v: string, w: string,
                      rest: string)
    requires Valid(root) && At(root, path).Some? && WritableKey(name) && CheckKey(root, name) == Nowhere
    requires SaveablePairs(front + [(k, v)]) && w != "" && KeyChar(w[0])
    ensures Doc(root, path, Header(name) + (Lines(Texts(front)) + (Line((k, Text(Broken(v, w)))) + rest))).None?
  {
    var x := (k, v);
    var back := Line((k, Text(Broken(v, w)))) + rest;
    var root1 := AddTable(root, name, TomlTree.EMPTY);
    assert forall j :: 0 <= j < |front| ==> front[j] == (front + [x])[j];
    assert (front + [x])[|front|] == x;
    PairsWritable(front);
    HeaderDoc(root, path, name, Lines(Texts(front)) + back);
    var root2 := PutTable(root1, |root.tabs|, Section(Texts(front)));
    LinesKeep(root1, name, |root.tabs|, Texts(front));
    LinesParse(root1, name, |root.tabs|, Texts(front), back, root2);
    KeyAbsent(front, k);
    BrokenLine(root2, name, |root.tabs|, k, v, w, rest);
  }

  lemma KeyAbsent(front: seq<Pair>, k: string)
    requires forall j :: 0 <= j < |front| ==> front[j].0 != k
    ensures CheckKey(Section(Texts(front)), k) == Nowhere
  {
    SectionValues(Texts(front));
  }

  /** The broken line in the second section of the file. */
  lemma BrokenSecond(x: string, m: seq<Entry>, y: string, front: seq<Pair>, k: string, v: string, w: string, rest: string)
    requires WritableKey(x) && WritableKey(y) && x != y && WritableAfter(TomlTree.EMPTY, m)
    requires SaveablePairs(front + [(k, v)]) && w != "" && KeyChar(w[0])
    requires Valid(TomlTree.EMPTY) && At(TomlTree.EMPTY, []).Some?
    ensures Doc(TomlTree.EMPTY, [], Header(x) + (Lines(m) + ("\n"
      + (Header(y) + (Lines(Texts(front)) + (Line((k, Text(Broken(v, w)))) + rest)))))).None?
  {
    var line := Line((k, Text(Broken(v, w)))) + rest;
    NameAbsent(TomlTree.EMPTY, x);
    SectionAndBlank(TomlTree.EMPTY, [], x, m, Header(y) + (Lines(Texts(front)) + line));
    NameAbsent(AddTable(TomlTree.EMPTY, x, Section(m)), y);
    BrokenSection(AddTable(TomlTree.EMPTY, x, Section(m)), [x], y, front, k, v, w, rest);
  }

  /** One quote inside an answer, with a character of a bare key behind it, loses the whole store:
      the file does not parse and loading gives the empty store. */
  lemma QuoteLosesStore(a: Record, front: seq<Pair>, k: string, v: string, w: string, back: seq<Pair>)
    requires a.flavor.Some? ==> Clean(a.flavor.value)
    requires a.answers == front + [(k, Broken(v, w))] + back
    requires SaveablePairs(front + [(k, v)]) && w != "" && KeyChar(w[0]) && NoNul(Save(a))
    ensures Load(Save(a)) == Answers.EMPTY
  {
    var tail := "\n" + (Header("stage_status") + (Lines(Texts(a.status)) + ""));
    CStringWhole(Save(a));
    SaveParts(a);
    SplitLines(front, (k, Broken(v, w)), back, tail);
    WordsWritable();
    EmptyValid();
    MetaOnly(a);
    BrokenSecond("meta", MetaEntries(a), "answers", front, k, v, w, Lines(Texts(back)) + tail);
  }

  lemma MetaOnly(a: Record)
    requires a.flavor.Some? ==> Clean(a.flavor.value)
    ensures WritableAfter(TomlTree.EMPTY, MetaEntries(a))
  {
    MetaWritable(a.(answers := [], status := []));
    assert MetaEntries(a) == MetaEntries(a.(answers := [], status := []));
  }
}
