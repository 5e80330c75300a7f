// Printing a formula in disjunctive normal form and evaluating the text gives the boolean
// meaning of the formula over the answers as a map.

module WhenMeaning {
  import opened Wrappers
  import opened Pairs
  import opened When

  // ---- formulas ----

  /** An atom as it may be written: `pads` are the blanks before and after the key and the
      value, and the value may stand in quotes. */
  datatype Atom = Atom(key: string, negated: bool, val: string, quote: Option<char>, pads: seq<string>)

  /** A disjunction of conjunctions of atoms. */
  type Formula = seq<seq<Atom>>

  function Lookup(m: map<string, string>, key: string): string {
    if key in m then m[key] else ""
  }

  ghost predicate AtomMeaning(a: Atom, m: map<string, string>) {
    (Lookup(m, a.key) == a.val) != a.negated
  }

  ghost predicate TermMeaning(t: seq<Atom>, m: map<string, string>) {
    forall i :: 0 <= i < |t| ==> AtomMeaning(t[i], m)
  }

  ghost predicate Meaning(f: Formula, m: map<string, string>) {
    exists i :: 0 <= i < |f| && TermMeaning(f[i], m)
  }

  // ---- writing them ----

  function Written(a: Atom): string {
    match a.quote
    case None => a.val
    case Some(q) => [q] + a.val + [q]
  }

  function Before(a: Atom): string
    requires |a.pads| == 4
  {
    a.pads[0] + a.key + a.pads[1]
  }

  function After(a: Atom): string
    requires |a.pads| == 4
  {
    a.pads[2] + Written(a) + a.pads[3]
  }

  function PrintAtom(a: Atom): string
    requires |a.pads| == 4
  {
    Before(a) + (if a.negated then "!=" else "==") + After(a)
  }

  /** The parts with the delimiter twice between them. */
  function Join(parts: seq<string>, d: char): string {
    if parts == [] then ""
    else if |parts| == 1 then parts[0]
    else parts[0] + ([d, d] + Join(parts[1..], d))
  }

  function PrintAtoms(t: seq<Atom>): (parts: seq<string>)
    requires forall i :: 0 <= i < |t| ==> |t[i].pads| == 4
    ensures |parts| == |t| && forall i :: 0 <= i < |t| ==> parts[i] == PrintAtom(t[i])
  {
    seq(|t|, i requires 0 <= i < |t| => PrintAtom(t[i]))
  }

  function PrintTerm(t: seq<Atom>): string
    requires HasPads(t)
  {
    Join(PrintAtoms(t), '&')
  }

  predicate HasPads(t: seq<Atom>) {
    forall i :: 0 <= i < |t| ==> |t[i].pads| == 4
  }

  function PrintTerms(f: Formula): (parts: seq<string>)
    requires forall i :: 0 <= i < |f| ==> HasPads(f[i])
    ensures |parts| == |f| && forall i :: 0 <= i < |f| ==> parts[i] == PrintTerm(f[i])
  {
    seq(|f|, i requires 0 <= i < |f| => PrintTerm(f[i]))
  }

  function Print(f: Formula): string
    requires forall i :: 0 <= i < |f| ==> HasPads(f[i])
  {
    Join(PrintTerms(f), '|')
  }

  // ---- what may be written ----

  ghost predicate Blanks(s: string) {
    forall k :: 0 <= k < |s| ==> Blank(s[k])
  }

  /** Free of the characters that separate and compare. */
  ghost predicate Plain(s: string) {
    forall k :: 0 <= k < |s| ==> s[k] != '=' && s[k] != '!' && s[k] != '|' && s[k] != '&'
  }

  ghost predicate NoOuterBlanks(s: string) {
    s != [] ==> !Blank(s[0]) && !Blank(s[|s| - 1])
  }

  ghost predicate Writable(a: Atom) {
    && |a.pads| == 4 && (forall p :: p in a.pads ==> Blanks(p))
    && Plain(a.key) && Plain(a.val) && NoOuterBlanks(a.key)
    && (match a.quote
        case None => NoOuterBlanks(a.val) && Unquote(a.val) == a.val
        case Some(q) => q == '"' || q == '\'')
    && |PrintAtom(a)| <= ATOM_ROOM
  }

  ghost predicate WritableTerm(t: seq<Atom>) {
    t != [] && forall i :: 0 <= i < |t| ==> Writable(t[i])
  }

  ghost predicate WritableFormula(f: Formula) {
    f != [] && (forall i :: 0 <= i < |f| ==> WritableTerm(f[i])) && |Print(f)| <= EXPRESSION_ROOM
  }

  // ---- trimming and splitting undone ----

  lemma {:induction false} TrimLeftPad(p: string, s: string)
    requires Blanks(p) && (s != [] ==> !Blank(s[0]))
    ensures TrimLeft(p + s) == s
  {
    if p == [] {
      assert p + s == s;
    } else {
      assert (p + s)[1..] == p[1..] + s;
      TrimLeftPad(p[1..], s);
    }
  }

  lemma {:induction false} TrimRightPad(s: string, p: string)
    requires Blanks(p) && (s != [] ==> !Blank(s[|s| - 1]))
    ensures TrimRight(s + p) == s
    decreases |p|
  {
    if p == [] {
      assert s + p == s;
    } else {
      assert (s + p)[..|s + p| - 1] == s + p[..|p| - 1];
      TrimRightPad(s, p[..|p| - 1]);
    }
  }

  lemma TrimPad(p: string, s: string, q: string)
    requires Blanks(p) && Blanks(q) && NoOuterBlanks(s)
    ensures Trim(p + s + q) == s
  {
    if s == [] {
      assert p + s + q == (p + q) + [];
      TrimLeftPad(p + q, []);
    } else {
      assert p + s + q == p + (s + q);
      TrimLeftPad(p, s + q);
      TrimRightPad(s, q);
    }
  }

  lemma {:induction false} RunOver(w: string, rest: string, d: char)
    requires forall k :: 0 <= k < |w| ==> w[k] != d
    requires rest == [] || rest[0] == d
    ensures Run(w + rest, d, false) == |w|
  {
    if w == [] {
      assert w + rest == rest;
    } else {
      assert (w + rest)[1..] == w[1..] + rest;
      RunOver(w[1..], rest, d);
    }
  }

  ghost predicate IsToken(w: string, d: char) {
    w != [] && forall k :: 0 <= k < |w| ==> w[k] != d
  }

  lemma TokensFront(w: string, rest: string, d: char)
    requires IsToken(w, d) && (rest == [] || rest[0] == d)
    ensures Tokens(w + rest, d) == [w] + Tokens(rest, d)
  {
    var s := w + rest;
    assert s[0] == w[0] && s[0..] == s;
    RunOver(w, rest, d);
    assert s[..|w|] == w && s[|w|..] == rest;
  }

  lemma TokensSkip(s: string, d: char)
    ensures Tokens([d] + s, d) == Tokens(s, d)
  {
    var t := [d] + s;
    assert t[1..] == s;
    assert t[Run(t, d, true)..] == s[Run(s, d, true)..];
  }

  ghost predicate AreTokens(parts: seq<string>, d: char) {
    forall i :: 0 <= i < |parts| ==> IsToken(parts[i], d)
  }

  /** Splitting undoes joining. */
  lemma {:induction false} TokensOfJoin(parts: seq<string>, d: char)
    requires AreTokens(parts, d)
    ensures Tokens(Join(parts, d), d) == parts
  {
    if |parts| == 1 {
      TokensFront(parts[0], [], d);
      assert parts[0] + [] == parts[0];
    } else if |parts| > 1 {
      var rest := Join(parts[1..], d);
      assert [d, d] + rest == [d] + ([d] + rest);
      TokensSkip([d] + rest, d);
      TokensSkip(rest, d);
      TokensOfJoin(parts[1..], d);
      TokensFront(parts[0], [d, d] + rest, d);
      assert parts == [parts[0]] + parts[1..];
    }
  }

  // ---- finding the operator ----

  lemma {:induction false} FindAt(x: string, y: string, a: char)
    requires Plain(x) && (a == '=' || a == '!')
    ensures Find(x + [a, '='] + y, a, '=') == Some(|x|)
  {
    if x == [] {
      assert x + [a, '='] + y == [a, '='] + y;
    } else {
      assert (x + [a, '='] + y)[1..] == x[1..] + [a, '='] + y;
      FindAt(x[1..], y, a);
    }
  }

  /** One "!=" alone has no "==" in it. */
  lemma {:induction false} FindNot(x: string, y: string)
    requires Plain(x) && Plain(y)
    ensures Find(x + ['!', '='] + y, '=', '=') == None
  {
    if x == [] {
      var t := ['!', '='] + y;
      FindNone(y);
      assert t[1..] == ['='] + y && t[1..][1..] == y;
      assert Find(t[1..], '=', '=') == None;
      assert x + t == t;
    } else {
      assert (x + ['!', '='] + y)[1..] == x[1..] + ['!', '='] + y;
      FindNot(x[1..], y);
    }
  }

  lemma {:induction false} FindNone(y: string)
    requires Plain(y)
    ensures Find(y, '=', '=') == None
  {
    if |y| >= 2 {
      FindNone(y[1..]);
    }
  }

  // ---- atoms ----

  lemma AtomText(a: Atom)
    requires Writable(a)
    ensures Plain(Before(a)) && Plain(After(a))
    ensures Trim(Before(a)) == a.key && Unquote(Trim(After(a))) == a.val
  {
    assert Blanks(a.pads[0]) && Blanks(a.pads[1]) && Blanks(a.pads[2]) && Blanks(a.pads[3]);
    PlainParts(a.pads[0], a.key, a.pads[1]);
    TrimPad(a.pads[0], a.key, a.pads[1]);
    WrittenText(a);
    PlainParts(a.pads[2], Written(a), a.pads[3]);
    TrimPad(a.pads[2], Written(a), a.pads[3]);
  }

  lemma WrittenText(a: Atom)
    requires Writable(a)
    ensures Plain(Written(a)) && NoOuterBlanks(Written(a)) && Unquote(Written(a)) == a.val
  {
    if a.quote.Some? {
      var w := Written(a);
      assert w[0] == a.quote.value && w[|w| - 1] == a.quote.value && w[1..|w| - 1] == a.val;
    }
  }

  lemma PlainParts(p: string, s: string, q: string)
    requires Blanks(p) && Plain(s) && Blanks(q)
    ensures Plain(p + s + q)
  {}

  lemma AtomIsToken(a: Atom, d: char)
    requires Writable(a) && (d == '&' || d == '|')
    ensures IsToken(PrintAtom(a), d)
  {
    AtomText(a);
    var x, y, text := Before(a), After(a), PrintAtom(a);
    forall k | 0 <= k < |text| ensures text[k] != d {
      if k < |x| {
        assert text[k] == x[k];
      } else if k >= |x| + 2 {
        assert text[k] == y[k - |x| - 2];
      }
    }
  }

  /** A written atom holds just when it is true of the answers. */
  lemma AtomMeans(a: Atom, s: seq<Pair>)
    requires Writable(a)
    ensures AtomHolds(PrintAtom(a), s) <==> AtomMeaning(a, AsMap(s))
  {
    var x, y := Before(a), After(a);
    AtomText(a);
    GetIsLookup(s, a.key);
    var mark := if a.negated then '!' else '=';
    assert PrintAtom(a) == x + [mark, '='] + y;
    FindAt(x, y, mark);
    if a.negated {
      FindNot(x, y);
    }
    ComparedParts(s, x, y, mark, a.negated);
  }

  lemma ComparedParts(s: seq<Pair>, x: string, y: string, mark: char, negated: bool)
    ensures Compare(s, x + [mark, '='] + y, |x|, negated)
       <==> (Answer(s, Trim(x)) == Unquote(Trim(y))) != negated
  {
    var text := x + [mark, '='] + y;
    assert text[..|x|] == x && text[|x| + 2..] == y;
  }

  // ---- terms and formulas ----

  lemma {:induction false} AllHoldIff(atoms: seq<string>, s: seq<Pair>)
    ensures AllHold(atoms, s) <==> forall i :: 0 <= i < |atoms| ==> AtomHolds(atoms[i], s)
  {
    if atoms != [] {
      AllHoldIff(atoms[1..], s);
      assert forall i :: 0 < i < |atoms| ==> atoms[i] == atoms[1..][i - 1];
    }
  }

  lemma {:induction false} AnyHoldsIff(terms: seq<string>, s: seq<Pair>)
    ensures AnyHolds(terms, s) <==> exists i :: 0 <= i < |terms| && TermHolds(terms[i], s)
  {
    if terms != [] {
      AnyHoldsIff(terms[1..], s);
      assert forall i :: 0 < i < |terms| ==> terms[i] == terms[1..][i - 1];
    }
  }

  /** Joining with a character keeps a text free of another one. */
  lemma {:induction false} JoinToken(parts: seq<string>, d: char, e: char)
    requires parts != [] && AreTokens(parts, e) && d != e
    ensures IsToken(Join(parts, d), e)
  {
    if |parts| > 1 {
      JoinToken(parts[1..], d, e);
    }
  }

  lemma TermMeans(t: seq<Atom>, s: seq<Pair>)
    requires WritableTerm(t)
    ensures TermHolds(PrintTerm(t), s) <==> TermMeaning(t, AsMap(s))
    ensures IsToken(PrintTerm(t), '|')
  {
    var parts := PrintAtoms(t);
    forall i | 0 <= i < |t|
      ensures IsToken(parts[i], '&') && IsToken(parts[i], '|')
      ensures AtomHolds(parts[i], s) <==> AtomMeaning(t[i], AsMap(s))
    {
      AtomIsToken(t[i], '&');
      AtomIsToken(t[i], '|');
      AtomMeans(t[i], s);
    }
    TokensOfJoin(parts, '&');
    AllHoldIff(parts, s);
    JoinToken(parts, '&', '|');
  }

  /** The printed formula is evaluated to its meaning over the answers. */
  lemma PrintedMeans(f: Formula, s: seq<Pair>)
    requires WritableFormula(f)
    ensures Holds(Some(Print(f)), s) <==> Meaning(f, AsMap(s))
  {
    var parts := PrintTerms(f);
    forall i | 0 <= i < |f|
      ensures IsToken(parts[i], '|')
      ensures TermHolds(parts[i], s) <==> TermMeaning(f[i], AsMap(s))
    {
      TermMeans(f[i], s);
    }
    TokensOfJoin(parts, '|');
    AnyHoldsIff(parts, s);
    assert Print(f) != [] by {
      assert IsToken(parts[0], '|');
    }
  }
}
