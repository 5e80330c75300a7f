// Documents of written values are read back: every text, array and inline table, at any depth
// and in any layout, is found in the tree under its key, and in an array at its place.

module TomlReadBack {
  import opened Wrappers
  import opened TomlLexer
  import opened TomlTree
  import opened TomlParser
  import opened TomlDocument
  import opened TomlValues
  import AnswersFile
  import TomlSpelling
  import TomlString
  import Utf8

  // ---- the first token of a text ----

  function First(s: string, dot: bool): (r: Option<Token>)
    ensures r == NextToken(s, dot) && (r.Some? ==> WellFormed(r.value) && Left(r.value) <= |s|)
  {
    Advance(Token(Newline, "", s, false), dot)
  }

  lemma AdvanceIsFirst(tok: Token, dot: bool)
    ensures Advance(tok, dot) == First(tok.after, dot)
  {}

  /** The first token that is no line end. */
  function Settle(s: string, dot: bool): Option<Token> {
    match First(s, dot)
    case None => None
    case Some(t) => SkipNewlines(t, false)
  }

  lemma LineSettles(s: string, tail: string, dot: bool)
    requires NextToken(s, dot) == Some(Token(Newline, ['\n'], tail, false))
    ensures Settle(s, dot) == Settle(tail, false)
  {
    var t := Token(Newline, ['\n'], tail, false);
    AdvanceIsFirst(t, false);
    if First(tail, false).Some? && First(tail, false).value.eof {
      AdvanceIsFirst(END, false);
      assert SkipNewlines(END, false) == Some(END);
    }
  }

  /** Fillers are passed over; behind a line end a dot no longer counts. */
  lemma {:induction false} FillerSettles(g: seq<Filler>, tail: string, dot: bool)
    requires RightFiller(g) && Settle(tail, dot) == Settle(tail, false)
    ensures Settle(ShowFiller(g, tail), dot) == Settle(tail, false)
    decreases |g|
  {
    if g != [] {
      var rest := ShowFiller(g[1..], tail);
      match g[0]
      case Space(c) =>
        SpaceSkipped(c, rest, dot);
        FillerSettles(g[1..], tail, dot);
      case LineEnd =>
        MarkToken('\n', rest, dot);
        LineSettles(['\n'] + rest, rest, dot);
        FillerSettles(g[1..], tail, false);
      case Comment(text) =>
        CommentToken(text, rest, dot);
        LineSettles(['#'] + (text + (['\n'] + rest)), rest, dot);
        FillerSettles(g[1..], tail, false);
    }
  }

  lemma MarkSettles(c: char, tail: string, dot: bool)
    requires c == ',' || c == ']'
    ensures Settle([c] + tail, dot) == Some(Token(if c == ',' then Kind.Comma else RBracket, [c], tail, false))
  {
    MarkToken(c, tail, dot);
  }

  lemma FillerFollows(g: seq<Filler>, tail: string)
    requires RightFiller(g) && Follows(tail)
    ensures Follows(ShowFiller(g, tail))
  {}

  lemma BlanksFollow(b: string, tail: string)
    requires Blanks(b) && Follows(tail)
    ensures Follows(b + tail)
  {
    if b != "" {
      assert (b + tail)[0] == b[0];
    } else {
      assert b + tail == tail;
    }
  }

  // ---- the token that a value begins with ----

  ghost function Head(v: Val, tail: string): (t: Token)
    requires Right(v)
    ensures WellFormed(t) && t.kind != Newline && !t.eof
  {
    match v
    case Txt(items) => Token(Str, TomlSpelling.Quoted(TomlSpelling.SpellAll(items)), tail, false)
    case Lst(elems, lastComma, end) =>
      Token(LBracket, ['['], ShowElems(elems, lastComma, ShowFiller(end, [']'] + tail)), false)
    case Tbl(fields, lastComma, blanks) =>
      Token(LBrace, ['{'], ShowFields(fields, lastComma, blanks + (['}'] + tail)), false)
  }

  lemma HeadToken(v: Val, tail: string, dot: bool)
    requires Right(v) && Follows(tail)
    ensures NextToken(Show(v, tail), dot) == Some(Head(v, tail))
  {
    match v
    case Txt(items) => TextToken(items, tail, dot);
    case Lst(elems, lastComma, end) => MarkToken('[', ShowElems(elems, lastComma, ShowFiller(end, [']'] + tail)), dot);
    case Tbl(fields, lastComma, blanks) =>
      MarkToken('{', ShowFields(fields, lastComma, blanks + (['}'] + tail)), dot);
  }

  // ---- what the parser makes of the values ----

  ghost function ItemOf(v: Val): Item
    requires Right(v)
    decreases v, 0
  {
    match v
    case Txt(items) => Value(TomlSpelling.Quoted(TomlSpelling.SpellAll(items)))
    case Lst(elems, _, _) => SubArray(ArrFrom(Arr(NoKind, []), elems))
    case Tbl(fields, _, _) => SubTable(TableFrom(EMPTY, fields).(readonly := true))
  }

  ghost function ArrFrom(arr: Arr, es: seq<Elem>): Arr
    requires forall k :: 0 <= k < |es| ==> RightElem(es[k])
    decreases es, |es|
  {
    if es == [] then arr else ArrFrom(AddItem(arr, ElemItem(es[0])), es[1..])
  }

  ghost function ElemItem(e: Elem): Item
    requires RightElem(e)
    decreases e, 1
  {
    ItemOf(e.val)
  }

  ghost function TableFrom(tab: Table, fs: seq<Field>): Table
    requires forall k :: 0 <= k < |fs| ==> RightField(fs[k])
    decreases fs, |fs|
  {
    if fs == [] then tab else TableFrom(Put(tab, fs[0]), fs[1..])
  }

  /** A field put into a table. */
  ghost function Put(tab: Table, f: Field): Table
    requires RightField(f)
    decreases f, 1
  {
    match ItemOf(f.val)
    case Value(raw) => AddValue(tab, f.key, raw)
    case SubArray(arr) => AddArray(tab, f.key, arr)
    case SubTable(sub) => AddTable(tab, f.key, sub)
  }

  // ---- arrays ----

  /** The elements from a text on. */
  function ItemsAt(arr: Arr, s: string): Option<(Arr, Token)> {
    match First(s, false)
    case None => None
    case Some(t) => ArrayItems(arr, t)
  }

  lemma ItemsSettle(arr: Arr, s: string, s': string)
    requires Settle(s, false) == Settle(s', false)
    ensures ItemsAt(arr, s) == ItemsAt(arr, s')
  {}

  /** The loop at the closing bracket. */
  lemma ItemsEnd(arr: Arr, g: seq<Filler>, tail: string)
    requires RightFiller(g)
    ensures ItemsAt(arr, ShowFiller(g, [']'] + tail)) == Some((arr, Token(RBracket, [']'], tail, false)))
  {
    MarkSettles(']', tail, false);
    FillerSettles(g, [']'] + tail, false);
  }

  /** The loop at an element, which is parsed from its first token to the one behind it, and what
      follows: a comma and the next elements, or something else. */
  lemma ItemsStep(arr: Arr, s: string, start: Token, item: Item, end: Token, sep: Token)
    requires Settle(s, false) == Some(start) && WellFormed(start) && start.kind != RBracket
    requires ParseItem(start) == Some((item, end)) && SkipNewlines(end, false) == Some(sep)
    ensures sep.kind == Kind.Comma ==> ItemsAt(arr, s) == ItemsAt(AddItem(arr, item), sep.after)
    ensures sep.kind != Kind.Comma ==> ItemsAt(arr, s) == Some((AddItem(arr, item), sep))
  {
    if sep.kind == Kind.Comma {
      AdvanceIsFirst(sep, false);
    }
  }

  /** A text behind which the parser comes to the token `sep`, past line ends, in either way of reading dots. */
  ghost predicate Closes(s: string, sep: Token) {
    Follows(s) && Settle(s, true) == Some(sep) && Settle(s, false) == Some(sep)
  }

  lemma FillerCloses(g: seq<Filler>, tail: string, sep: Token)
    requires RightFiller(g) && Closes(tail, sep)
    ensures Closes(ShowFiller(g, tail), sep)
  {
    FillerFollows(g, tail);
    FillerSettles(g, tail, true);
    FillerSettles(g, tail, false);
  }

  lemma MarkCloses(c: char, tail: string)
    requires c == ',' || c == ']'
    ensures Closes([c] + tail, Token(if c == ',' then Kind.Comma else RBracket, [c], tail, false))
  {
    MarkSettles(c, tail, true);
    MarkSettles(c, tail, false);
  }

  /** What stands behind an element closes it. */
  lemma ElemCloses(put: bool, rest: string, end: seq<Filler>, tail: string) returns (sep: Token)
    requires RightFiller(end) && (!put ==> rest == ShowFiller(end, [']'] + tail))
    ensures Closes(Separated(put, rest), sep)
    ensures sep == if put then Token(Kind.Comma, [','], rest, false) else Token(RBracket, [']'], tail, false)
  {
    if put {
      MarkCloses(',', rest);
      sep := Token(Kind.Comma, [','], rest, false);
    } else {
      MarkCloses(']', tail);
      sep := Token(RBracket, [']'], tail, false);
      FillerCloses(end, [']'] + tail, sep);
    }
  }

  /** parse_array between two closings. */
  lemma ArrayWhen(start: Token, arr: Arr, last: Token, end: Token)
    requires WellFormed(start) && start.kind == LBracket && WellFormed(last) && last.kind == RBracket
    requires ItemsAt(Arr(NoKind, []), start.after) == Some((arr, last)) && First(last.after, true) == Some(end)
    ensures ParseArray(start) == Some((arr, end))
  {
    AdvanceIsFirst(start, false);
    AdvanceIsFirst(last, true);
  }

  lemma {:induction false} ArrayParses(v: Val, tail: string, end: Token)
    requires Right(v) && v.Lst? && First(tail, true) == Some(end)
    ensures ParseArray(Head(v, tail)) == Some((ItemOf(v).arr, end))
    decreases v, 1
  {
    ElemsParse(Arr(NoKind, []), v.elems, v.lastComma, v.end, tail);
    ArrayWhen(Head(v, tail), ItemOf(v).arr, Token(RBracket, [']'], tail, false), end);
  }

  /** An element, up to the token behind it. */
  lemma {:induction false} ItemParses(v: Val, tail: string, end: Token)
    requires Right(v) && First(tail, !v.Txt?) == Some(end)
    ensures ParseItem(Head(v, tail)) == Some((ItemOf(v), end))
    decreases v, 3
  {
    match v
    case Txt(_) => AdvanceIsFirst(Head(v, tail), false);
    case Lst(_, _, _) => ArrayParses(v, tail, end);
    case Tbl(_, _, _) => InlineParses(v, tail, end);
  }

  lemma {:induction false} ElemsParse(arr: Arr, es: seq<Elem>, lastComma: bool, end: seq<Filler>, tail: string)
    requires RightFiller(end) && forall k :: 0 <= k < |es| ==> RightElem(es[k])
    ensures ItemsAt(arr, ShowElems(es, lastComma, ShowFiller(end, [']'] + tail)))
         == Some((ArrFrom(arr, es), Token(RBracket, [']'], tail, false)))
    decreases es, |es|
  {
    if es == [] {
      ItemsEnd(arr, end, tail);
    } else {
      var rest, put := ShowElems(es[1..], lastComma, ShowFiller(end, [']'] + tail)), |es| > 1 || lastComma;
      var sep := ElemCloses(put, rest, end, tail);
      ElemParses(arr, es[0], Separated(put, rest), sep);
      if put {
        ElemsParse(AddItem(arr, ElemItem(es[0])), es[1..], lastComma, end, tail);
      }
    }
  }

  /** One element with its layout. */
  lemma {:induction false} ElemParses(arr: Arr, e: Elem, tail: string, sep: Token)
    requires RightElem(e) && Closes(tail, sep)
    ensures sep.kind == Kind.Comma ==> ItemsAt(arr, ShowElem(e, tail)) == ItemsAt(AddItem(arr, ElemItem(e)), sep.after)
    ensures sep.kind != Kind.Comma ==> ItemsAt(arr, ShowElem(e, tail)) == Some((AddItem(arr, ElemItem(e)), sep))
    decreases e, 2
  {
    var after := ShowFiller(e.after, tail);
    FillerCloses(e.after, tail, sep);
    HeadToken(e.val, after, false);
    var start := Head(e.val, after);
    FillerSettles(e.before, Show(e.val, after), false);
    var end := First(after, !e.val.Txt?).value;
    ItemParses(e.val, after, end);
    ItemsStep(arr, ShowElem(e, tail), start, ItemOf(e.val), end, sep);
  }

  // ---- inline tables ----

  /** The entries from a text on. */
  function FieldsAt(tab: Table, s: string): Option<(Table, Token)> {
    match First(s, true)
    case None => None
    case Some(t) => InlineItems(tab, t)
  }

  /** parse_inline_table between two closings. */
  lemma InlineWhen(start: Token, tab: Table, last: Token, end: Token)
    requires WellFormed(start) && start.kind == LBrace && WellFormed(last) && last.kind == RBrace
    requires FieldsAt(EMPTY, start.after) == Some((tab, last)) && First(last.after, true) == Some(end)
    ensures ParseInline(EMPTY, start) == Some((tab.(readonly := true), end))
  {
    AdvanceIsFirst(start, true);
    AdvanceIsFirst(last, true);
  }

  lemma {:induction false} InlineParses(v: Val, tail: string, end: Token)
    requires Right(v) && v.Tbl? && First(tail, true) == Some(end)
    ensures ParseInline(EMPTY, Head(v, tail)) == Some((ItemOf(v).tab, end))
    decreases v, 1
  {
    forall k | 0 <= k < |v.fields| ensures CheckKey(EMPTY, v.fields[k].key) == Nowhere {}
    FieldsParse(EMPTY, v.fields, v.lastComma, v.blanks, tail);
    InlineWhen(Head(v, tail), TableFrom(EMPTY, v.fields), Token(RBrace, ['}'], tail, false), end);
  }

  lemma {:induction false} FieldsParse(tab: Table, fs: seq<Field>, lastComma: bool, blanks: string, tail: string)
    requires Blanks(blanks) && DistinctKeys(fs) && forall k :: 0 <= k < |fs| ==> RightField(fs[k])
    requires !tab.readonly && forall k :: 0 <= k < |fs| ==> CheckKey(tab, fs[k].key) == Nowhere
    ensures FieldsAt(tab, ShowFields(fs, lastComma, blanks + (['}'] + tail)))
         == Some((TableFrom(tab, fs), Token(RBrace, ['}'], tail, false)))
    decreases fs, |fs|
  {
    MarkToken('}', tail, true);
    BlanksSkipped(blanks, ['}'] + tail, true);
    if fs != [] {
      var closing := blanks + (['}'] + tail);
      var rest, put := ShowFields(fs[1..], lastComma, closing), |fs| > 1 || lastComma;
      if put {
        MarkToken(',', rest, true);
      } else {
        BlanksFollow(blanks, ['}'] + tail);
      }
      var end := First(Separated(put, rest), true).value;
      var tok := FieldParses(tab, fs[0], Separated(put, rest), end);
      FieldsStep(tab, ShowFields(fs, lastComma, closing), tok, Put(tab, fs[0]), end);
      if put {
        PutLeaves(tab, fs);
        FieldsParse(Put(tab, fs[0]), fs[1..], lastComma, blanks, tail);
      }
    }
  }

  /** The loop over the entries at an entry. */
  lemma FieldsStep(tab: Table, s: string, tok: Token, tab1: Table, end: Token)
    requires First(s, true) == Some(tok) && tok.kind == Str && WellFormed(end)
    requires ParseKeyval(tab, tok) == Some((tab1, end)) && end.kind != Newline
    ensures end.kind == Kind.Comma ==> FieldsAt(tab, s) == FieldsAt(tab1, end.after)
    ensures end.kind != Kind.Comma ==> FieldsAt(tab, s) == Some((tab1, end))
  {
    if end.kind == Kind.Comma {
      AdvanceIsFirst(end, true);
    }
  }

  /** The other keys are still free when a field has been put into a table. */
  lemma PutLeaves(tab: Table, fs: seq<Field>)
    requires fs != [] && DistinctKeys(fs) && forall k :: 0 <= k < |fs| ==> RightField(fs[k])
    requires !tab.readonly && forall k :: 0 <= k < |fs| ==> CheckKey(tab, fs[k].key) == Nowhere
    ensures DistinctKeys(fs[1..]) && !Put(tab, fs[0]).readonly
    ensures forall k :: 0 <= k < |fs[1..]| ==> RightField(fs[1..][k])
    ensures forall k :: 0 <= k < |fs[1..]| ==> CheckKey(Put(tab, fs[0]), fs[1..][k].key) == Nowhere
  {
    forall k | 0 <= k < |fs[1..]| ensures CheckKey(Put(tab, fs[0]), fs[1..][k].key) == Nowhere {
      assert fs[1..][k] == fs[k + 1] && CheckKey(tab, fs[k + 1].key) == Nowhere;
      PutElsewhere(tab, fs[0], fs[k + 1].key);
    }
  }

  /** Another key is where it was. */
  lemma PutElsewhere(tab: Table, f: Field, key: string)
    requires RightField(f) && f.key != key
    ensures CheckKey(Put(tab, f), key) == CheckKey(tab, key)
  {
    match ItemOf(f.val)
    case Value(raw) => IndexOther(tab.kvals, f.key, raw, key);
    case SubArray(arr) => IndexOther(tab.arrs, f.key, arr, key);
    case SubTable(sub) => IndexOther(tab.tabs, f.key, sub, key);
  }

  lemma {:induction false} IndexOther<T>(s: seq<Named<T>>, key: string, x: T, other: string)
    requires key != other
    ensures Index(s + [(key, x)], other) == Index(s, other)
    decreases |s|
  {
    if s == [] {
      assert ([(key, x)])[1..] == [];
      assert s + [(key, x)] == [(key, x)];
    } else {
      assert (s + [(key, x)])[1..] == s[1..] + [(key, x)];
      IndexOther(s[1..], key, x, other);
    }
  }

  // ---- entries ----

  /** parse_keyval for a key, the equals sign and the first token of a value. */
  lemma KeyvalWhen(tab: Table, tok: Token, t: Token, val: Token)
    requires WellFormed(tok) && !tab.readonly && tok.kind == Str && Advance(tok, true) == Some(t) && t.kind == Equal
    requires Advance(t, false) == Some(val)
    ensures ParseKeyval(tab, tok) == ParseValue(tab, tok.text, val)
  {}

  /** The tokens of a field up to its value. */
  lemma FieldTokens(f: Field, tail: string) returns (tok: Token, t: Token)
    requires RightField(f) && Follows(f.after + tail)
    ensures WellFormed(tok) && tok.kind == Str && tok.text == f.key && !tok.eof && t.kind == Equal
    ensures NextToken(ShowField(f, tail), true) == Some(tok) && Advance(tok, true) == Some(t)
    ensures Advance(t, false) == Some(Head(f.val, f.after + tail))
  {
    var value := Show(f.val, f.after + tail);
    var behind := ['='] + (f.behind + value);
    tok, t := Token(Str, f.key, f.mid + behind, false), Token(Equal, ['='], f.behind + value, false);
    BlanksSkipped(f.before, f.key + (f.mid + behind), true);
    assert BehindKey(f.mid + behind) by {
      assert (f.mid + behind)[0] == if f.mid == "" then '=' else f.mid[0];
    }
    PlainKeyToken(f.key, f.mid + behind);
    BlanksSkipped(f.mid, behind, true);
    MarkToken('=', f.behind + value, true);
    BlanksSkipped(f.behind, value, false);
    HeadToken(f.val, f.after + tail, false);
  }

  /** A field under a free key is put into the table; the parser comes to the token behind it. */
  lemma {:induction false} FieldParses(tab: Table, f: Field, tail: string, end: Token) returns (tok: Token)
    requires RightField(f) && !tab.readonly && CheckKey(tab, f.key) == Nowhere && Follows(tail)
    requires First(tail, true) == Some(end)
    ensures WellFormed(tok) && tok.kind == Str && !tok.eof && First(ShowField(f, tail), true) == Some(tok)
    ensures ParseKeyval(tab, tok) == Some((Put(tab, f), end))
    decreases f, 3
  {
    BlanksFollow(f.after, tail);
    var t;
    tok, t := FieldTokens(f, tail);
    BlanksSkipped(f.after, tail, true);
    ValueParses(tab, f, f.after + tail, end);
    KeyvalWhen(tab, tok, t, Head(f.val, f.after + tail));
  }

  /** The value of a field. */
  lemma {:induction false} ValueParses(tab: Table, f: Field, tail: string, end: Token)
    requires RightField(f) && CheckKey(tab, f.key) == Nowhere && First(tail, true) == Some(end)
    ensures ParseValue(tab, f.key, Head(f.val, tail)) == Some((Put(tab, f), end))
    decreases f, 2
  {
    assert f.key != "" && KeyChar(f.key[0]) && NormalizeKey(f.key) == Some(f.key);
    match f.val
    case Txt(_) =>
      AdvanceIsFirst(Head(f.val, tail), true);
    case Lst(_, _, _) =>
      ArrayParses(f.val, tail, end);
    case Tbl(_, _, _) =>
      InlineParses(f.val, tail, end);
      NewTable(tab, f.key, ItemOf(f.val).tab);
  }

  /** A table under a free key, filled afterwards. */
  lemma NewTable(tab: Table, key: string, sub: Table)
    requires CheckKey(tab, key) == Nowhere
    ensures OpenTable(tab, key) == Some((AddTable(tab, key, EMPTY), |tab.tabs|))
    ensures AddTable(tab, key, EMPTY).tabs[|tab.tabs|].1 == EMPTY
    ensures PutTable(AddTable(tab, key, EMPTY), |tab.tabs|, sub) == AddTable(tab, key, sub)
  {
    assert (tab.tabs + [(key, EMPTY)])[|tab.tabs| := (key, sub)] == tab.tabs + [(key, sub)];
  }

  // ---- what is read back ----

  /** The text that a list of spelled codes denotes: the UTF-8 of the codes. */
  ghost function TextOf(items: seq<TomlSpelling.Item>): string
    requires TomlSpelling.AllSpellable(items)
  {
    Utf8.EncodeAll(TomlSpelling.Codes(items))
  }

  /** An item of an array stands for a value. */
  ghost predicate Stands(item: Item, v: Val)
    requires Right(v)
    decreases v, 0
  {
    match v
    case Txt(items) => item.Value? && TomlString.Rtos(item.raw) == Some(TextOf(items))
    case Lst(elems, _, _) => item.SubArray? && ArrayStands(item.arr, elems)
    case Tbl(fields, _, _) => item.SubTable? && item.tab.readonly && TableStands(item.tab, fields)
  }

  /** One item for each element, in order, and the kind that they have in common. */
  ghost predicate ArrayStands(arr: Arr, es: seq<Elem>)
    requires forall k :: 0 <= k < |es| ==> RightElem(es[k])
    decreases es, 1
  {
    && |arr.items| == |es|
    && (forall k :: 0 <= k < |es| ==> ElemStands(arr.items[k], es[k]))
    && KindStands(arr.kind, es)
  }

  ghost predicate ElemStands(item: Item, e: Elem)
    requires RightElem(e)
    decreases e, 1
  {
    Stands(item, e.val)
  }

  ghost predicate KindStands(kind: ElementKind, es: seq<Elem>) {
    && (es == [] ==> kind == NoKind)
    && (es != [] && (forall k :: 0 <= k < |es| ==> KindOf(es[k]) == KindOf(es[0])) ==> kind == KindOf(es[0]))
  }

  /** One child for each field, and each field found under its key. */
  ghost predicate TableStands(tab: Table, fs: seq<Field>)
    requires forall k :: 0 <= k < |fs| ==> RightField(fs[k])
    decreases fs, 1
  {
    && |tab.kvals| + |tab.arrs| + |tab.tabs| == |fs|
    && (forall k :: 0 <= k < |fs| ==> FieldStands(tab, fs[k]))
  }

  /** What stands under a key, as toml_raw_in, toml_array_in and toml_table_in find it. */
  function Child(tab: Table, key: string): Option<Item> {
    match Index(tab.kvals, key)
    case Some(i) => Some(Value(tab.kvals[i].1))
    case None =>
      match Index(tab.arrs, key)
      case Some(i) => Some(SubArray(tab.arrs[i].1))
      case None =>
        match Index(tab.tabs, key)
        case Some(i) => Some(SubTable(tab.tabs[i].1))
        case None => None
  }

  ghost predicate FieldStands(tab: Table, f: Field)
    requires RightField(f)
    decreases f, 1
  {
    Child(tab, f.key).Some? && Stands(Child(tab, f.key).value, f.val)
  }

  lemma {:induction false} ArrFromItems(arr: Arr, es: seq<Elem>)
    requires forall k :: 0 <= k < |es| ==> RightElem(es[k])
    ensures |ArrFrom(arr, es).items| == |arr.items| + |es| && arr.items <= ArrFrom(arr, es).items
    ensures forall k :: 0 <= k < |es| ==> ArrFrom(arr, es).items[|arr.items| + k] == ElemItem(es[k])
    decreases |es|
  {
    if es != [] {
      var next := AddItem(arr, ElemItem(es[0]));
      ArrFromItems(next, es[1..]);
      forall k | 0 <= k < |es| ensures ArrFrom(arr, es).items[|arr.items| + k] == ElemItem(es[k]) {
        if k == 0 {
          assert next.items[|arr.items|] == ElemItem(es[0]);
        } else {
          assert es[k] == es[1..][k - 1];
        }
      }
    }
  }

  function KindOf(e: Elem): ElementKind {
    match e.val
    case Txt(_) => Values
    case Lst(_, _, _) => Arrays
    case Tbl(_, _, _) => Tables
  }

  lemma AddedKind(arr: Arr, e: Elem)
    requires RightElem(e) && (arr.kind == NoKind || arr.kind == KindOf(e))
    ensures AddItem(arr, ElemItem(e)).kind == KindOf(e)
  {
    match e.val
    case Txt(_) => assert ItemOf(e.val).Value?;
    case Lst(_, _, _) => assert ItemOf(e.val).SubArray?;
    case Tbl(_, _, _) => assert ItemOf(e.val).SubTable?;
  }

  /** The kind stays while only values of the kind are added. */
  lemma {:induction false} KindKept(arr: Arr, es: seq<Elem>, kind: ElementKind)
    requires forall k :: 0 <= k < |es| ==> RightElem(es[k])
    requires arr.kind == kind && kind != NoKind && forall k :: 0 <= k < |es| ==> KindOf(es[k]) == kind
    ensures ArrFrom(arr, es).kind == kind
    decreases |es|
  {
    if es != [] {
      AddedKind(arr, es[0]);
      KindKept(AddItem(arr, ElemItem(es[0])), es[1..], kind);
    }
  }

  lemma KindsStand(es: seq<Elem>, kind: ElementKind)
    requires es != [] && forall k :: 0 <= k < |es| ==> RightElem(es[k])
    requires forall k :: 0 <= k < |es| ==> KindOf(es[k]) == kind
    ensures ArrFrom(Arr(NoKind, []), es).kind == kind
  {
    AddedKind(Arr(NoKind, []), es[0]);
    KindKept(AddItem(Arr(NoKind, []), ElemItem(es[0])), es[1..], kind);
  }

  /** What the parser makes of a value stands for it. */
  lemma {:induction false} ItemStands(v: Val)
    requires Right(v)
    ensures Stands(ItemOf(v), v)
    decreases v, 0
  {
    match v
    case Txt(items) => TomlSpelling.QuotedDenotes(items);
    case Lst(elems, _, _) => ElemsStand(elems);
    case Tbl(fields, _, _) =>
      FieldsStand(fields);
      FlagStands(TableFrom(EMPTY, fields), fields);
  }

  lemma {:induction false} ElemsStand(es: seq<Elem>)
    requires forall k :: 0 <= k < |es| ==> RightElem(es[k])
    ensures ArrayStands(ArrFrom(Arr(NoKind, []), es), es)
    decreases es, 1
  {
    ArrFromItems(Arr(NoKind, []), es);
    if es != [] && forall k :: 0 <= k < |es| ==> KindOf(es[k]) == KindOf(es[0]) {
      KindsStand(es, KindOf(es[0]));
    }
    forall k | 0 <= k < |es| ensures ElemStands(ArrFrom(Arr(NoKind, []), es).items[k], es[k]) {
      assert RightElem(es[k]);
      ItemStands(es[k].val);
    }
  }

  /** The mark of a table does not matter to what stands in it. */
  lemma FlagStands(tab: Table, fs: seq<Field>)
    requires (forall k :: 0 <= k < |fs| ==> RightField(fs[k])) && TableStands(tab, fs)
    ensures TableStands(tab.(readonly := true), fs)
  {
    forall k | 0 <= k < |fs| ensures FieldStands(tab.(readonly := true), fs[k]) {
      assert FieldStands(tab, fs[k]);
    }
  }

  /** A field that was put into a table is found there. */
  lemma PutFound(tab: Table, f: Field)
    requires RightField(f) && CheckKey(tab, f.key) == Nowhere
    ensures Child(Put(tab, f), f.key) == Some(ItemOf(f.val))
  {
    match ItemOf(f.val)
    case Value(raw) => IndexSnoc(tab.kvals, f.key, raw);
    case SubArray(arr) => IndexSnoc(tab.arrs, f.key, arr);
    case SubTable(sub) => IndexSnoc(tab.tabs, f.key, sub);
  }

  /** What stands under another key still does. */
  lemma ChildElsewhere(tab: Table, f: Field, key: string)
    requires RightField(f) && f.key != key
    ensures Child(Put(tab, f), key) == Child(tab, key)
  {
    match ItemOf(f.val)
    case Value(raw) => IndexOther(tab.kvals, f.key, raw, key);
    case SubArray(arr) => IndexOther(tab.arrs, f.key, arr, key);
    case SubTable(sub) => IndexOther(tab.tabs, f.key, sub, key);
  }

  lemma {:induction false} ChildKept(tab: Table, fs: seq<Field>, key: string)
    requires forall j :: 0 <= j < |fs| ==> RightField(fs[j]) && fs[j].key != key
    ensures Child(TableFrom(tab, fs), key) == Child(tab, key)
    decreases |fs|
  {
    if fs != [] {
      ChildElsewhere(tab, fs[0], key);
      ChildKept(Put(tab, fs[0]), fs[1..], key);
    }
  }

  /** Each field is found in the table that the fields are put into. */
  lemma {:induction false} FieldsFound(tab: Table, fs: seq<Field>, k: nat)
    requires DistinctKeys(fs) && (forall j :: 0 <= j < |fs| ==> RightField(fs[j])) && k < |fs|
    requires !tab.readonly && forall j :: 0 <= j < |fs| ==> CheckKey(tab, fs[j].key) == Nowhere
    ensures Child(TableFrom(tab, fs), fs[k].key) == Some(ItemOf(fs[k].val))
    decreases |fs|
  {
    PutLeaves(tab, fs);
    if k == 0 {
      PutFound(tab, fs[0]);
      forall j | 0 <= j < |fs[1..]| ensures fs[1..][j].key != fs[0].key {
        assert fs[1..][j] == fs[j + 1];
      }
      ChildKept(Put(tab, fs[0]), fs[1..], fs[0].key);
    } else {
      assert fs[k] == fs[1..][k - 1];
      FieldsFound(Put(tab, fs[0]), fs[1..], k - 1);
    }
  }

  function Children(tab: Table): nat {
    |tab.kvals| + |tab.arrs| + |tab.tabs|
  }

  lemma {:induction false} FieldsCounted(tab: Table, fs: seq<Field>)
    requires forall k :: 0 <= k < |fs| ==> RightField(fs[k])
    ensures Children(TableFrom(tab, fs)) == Children(tab) + |fs|
    decreases |fs|
  {
    if fs != [] {
      FieldsCounted(Put(tab, fs[0]), fs[1..]);
    }
  }

  lemma {:induction false} FieldsStand(fs: seq<Field>)
    requires DistinctKeys(fs) && forall k :: 0 <= k < |fs| ==> RightField(fs[k])
    ensures TableStands(TableFrom(EMPTY, fs), fs)
    decreases fs, 1
  {
    FieldsCounted(EMPTY, fs);
    forall k | 0 <= k < |fs| ensures FieldStands(TableFrom(EMPTY, fs), fs[k]) {
      forall j | 0 <= j < |fs| ensures CheckKey(EMPTY, fs[j].key) == Nowhere {}
      FieldsFound(EMPTY, fs, k);
      assert RightField(fs[k]);
      ItemStands(fs[k].val);
    }
  }
}
