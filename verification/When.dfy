// The show-if expressions of stages and fields: atoms `key == value` and `key != value`
// joined by && and ||, evaluated over the answers. Texts are C strings: no NUL in them.

module When {
  import opened Wrappers
  import opened Pairs
  import Answers

  const EXPRESSION_ROOM := 511
  const ATOM_ROOM := 255

  /** What snprintf leaves of a text in a buffer. */
  function Cut(s: string, room: nat): (r: string)
    ensures r <= s && |r| <= room && (|s| <= room ==> r == s)
  {
    if |s| <= room then s else s[..room]
  }

  // ---- trimming ----

  predicate Blank(c: char) { c == ' ' || c == '\t' }

  function TrimLeft(s: string): string {
    if s != [] && Blank(s[0]) then TrimLeft(s[1..]) else s
  }

  function TrimRight(s: string): string {
    if s != [] && Blank(s[|s| - 1]) then TrimRight(s[..|s| - 1]) else s
  }

  function Trim(s: string): string { TrimRight(TrimLeft(s)) }

  method SkipBlanks(s: string) returns (r: string)
    ensures r == TrimLeft(s)
  {
    var p := 0;
    while p < |s| && Blank(s[p])
      invariant p <= |s| && TrimLeft(s[p..]) == TrimLeft(s)
    {
      assert s[p..][1..] == s[p + 1..];
      p := p + 1;
    }
    r := s[p..];
  }

  method TrimInPlace(s: string) returns (r: string)
    ensures r == Trim(s)
  {
    r := SkipBlanks(s);
    var n: nat := |r|;
    assert r[..n] == r;
    while n > 0 && Blank(r[n - 1])
      invariant n <= |r| && TrimRight(r[..n]) == TrimRight(r)
    {
      assert r[..n][..n - 1] == r[..n - 1];
      n := n - 1;
    }
    r := r[..n];
  }

  // ---- splitting ----

  /** How many characters at the front differ from `d`, or are equal to it. */
  function Run(s: string, d: char, equal: bool): (n: nat)
    ensures n <= |s|
  {
    if s != [] && (s[0] == d) == equal then 1 + Run(s[1..], d, equal) else 0
  }

  /** The non-empty stretches between delimiters, which is what strtok_r gives one by one. */
  function Tokens(s: string, d: char): seq<string>
    decreases |s|
  {
    var t := s[Run(s, d, true)..];
    if t == [] then []
    else
      RunStops(s, d, true);
      [t[..Run(t, d, false)]] + Tokens(t[Run(t, d, false)..], d)
  }

  lemma {:induction false} RunStops(s: string, d: char, equal: bool)
    ensures Run(s, d, equal) < |s| ==> (s[Run(s, d, equal)] == d) != equal
    ensures forall k :: 0 <= k < Run(s, d, equal) ==> (s[k] == d) == equal
  {
    if s != [] && (s[0] == d) == equal {
      RunStops(s[1..], d, equal);
      forall k | 0 <= k < Run(s, d, equal) ensures (s[k] == d) == equal {
        if k > 0 {
          assert s[k] == s[1..][k - 1];
        }
      }
    }
  }

  method CountRun(s: string, d: char, equal: bool) returns (n: nat)
    ensures n == Run(s, d, equal)
  {
    n := 0;
    while n < |s| && (s[n] == d) == equal
      invariant n <= |s| && Run(s, d, equal) == n + Run(s[n..], d, equal)
    {
      assert s[n..][1..] == s[n + 1..];
      n := n + 1;
    }
  }

  /** strtok_r: the next token and what is left behind it. */
  method NextToken(s: string, d: char) returns (token: Option<string>, rest: string)
    ensures token.None? ==> Tokens(s, d) == []
    ensures token.Some? ==> token.value != [] && Tokens(s, d) == [token.value] + Tokens(rest, d) && |rest| < |s|
  {
    var skip := CountRun(s, d, true);
    var t := s[skip..];
    if t == [] { return None, []; }
    RunStops(s, d, true);
    var n := CountRun(t, d, false);
    token, rest := Some(t[..n]), t[n..];
  }

  // ---- atoms ----

  /** Where two given characters first stand next to each other. */
  function Find(s: string, a: char, b: char): (r: Option<nat>)
    ensures r.Some? ==> r.value + 2 <= |s|
  {
    if |s| < 2 then None
    else if s[0] == a && s[1] == b then Some(0)
    else
      match Find(s[1..], a, b)
      case None => None
      case Some(k) => Some(k + 1)
  }

  /** strstr for a pattern of two characters. */
  method Strstr(s: string, a: char, b: char) returns (r: Option<nat>)
    ensures r == Find(s, a, b)
  {
    var k := 0;
    while k + 2 <= |s|
      invariant k <= |s|
      invariant Find(s, a, b) == match Find(s[k..], a, b)
                                 case None => None
                                 case Some(j) => Some(k + j)
    {
      if s[k] == a && s[k + 1] == b {
        return Some(k);
      }
      assert s[k..][1..] == s[k + 1..];
      k := k + 1;
    }
    return None;
  }

  /** A value in matching quotes, single or double, without them. */
  function Unquote(v: string): string {
    if |v| >= 2 && (v[0] == '"' || v[0] == '\'') && v[|v| - 1] == v[0] then v[1..|v| - 1] else v
  }

  /** The answer for a key, unset ones reading as "". */
  function Answer(s: seq<Pair>, key: string): string {
    match Get(s, key)
    case None => ""
    case Some(v) => v
  }

  function Compare(s: seq<Pair>, text: string, op: nat, negated: bool): bool
    requires op + 2 <= |text|
  {
    (Answer(s, Trim(text[..op])) == Unquote(Trim(text[op + 2..]))) != negated
  }

  /** eval_atom: "==" is looked for before "!="; a text with neither holds. */
  function AtomHolds(atom: string, s: seq<Pair>): bool {
    var text := Cut(atom, ATOM_ROOM);
    match Find(text, '=', '=')
    case Some(op) => Compare(s, text, op, false)
    case None =>
      match Find(text, '!', '=')
      case Some(op) => Compare(s, text, op, true)
      case None => true
  }

  method EvalAtom(atom: string, answers: Answers.Store) returns (r: bool)
    requires answers.Valid()
    ensures r == AtomHolds(atom, answers.Contents())
  {
    var buf := Cut(atom, ATOM_ROOM);
    var neg := false;
    var op := Strstr(buf, '=', '=');
    if op.None? {
      op := Strstr(buf, '!', '=');
      neg := true;
    }
    if op.None? { return true; }
    r := CompareAt(buf, op.value, neg, answers);
  }

  /** The rest of eval_atom, from the operator on. */
  method CompareAt(buf: string, op: nat, neg: bool, answers: Answers.Store) returns (r: bool)
    requires answers.Valid() && op + 2 <= |buf|
    ensures r == Compare(answers.Contents(), buf, op, neg)
  {
    var key := TrimInPlace(buf[..op]);
    var val := TrimInPlace(buf[op + 2..]);
    var vl := |val|;
    if vl >= 2 && (val[0] == '"' || val[0] == '\'') && val[vl - 1] == val[0] {
      val := val[1..vl - 1];
    }
    var cur := answers.Get(key);
    var eq := (if cur.None? then "" else cur.value) == val;
    return if neg then !eq else eq;
  }

  // ---- expressions ----

  predicate AllHold(atoms: seq<string>, s: seq<Pair>) {
    atoms == [] || (AtomHolds(atoms[0], s) && AllHold(atoms[1..], s))
  }

  /** A term: at least one atom, and all of them hold. */
  predicate TermHolds(term: string, s: seq<Pair>) {
    Tokens(term, '&') != [] && AllHold(Tokens(term, '&'), s)
  }

  predicate AnyHolds(terms: seq<string>, s: seq<Pair>) {
    terms != [] && (TermHolds(terms[0], s) || AnyHolds(terms[1..], s))
  }

  /** bp_when_eval: nothing and the empty text hold. */
  function Holds(expr: Option<string>, s: seq<Pair>): bool {
    expr.None? || expr.value == [] || AnyHolds(Tokens(Cut(expr.value, EXPRESSION_ROOM), '|'), s)
  }

  /** The tokens still to come: the one in hand and those in the rest. */
  ghost function Left(token: Option<string>, rest: string, d: char): seq<string> {
    match token
    case None => []
    case Some(t) => [t] + Tokens(rest, d)
  }

  /** The inner loop: the atoms of one term, up to the first that fails. */
  method EvalTerm(term: string, answers: Answers.Store) returns (r: bool)
    requires answers.Valid()
    ensures r == TermHolds(term, answers.Contents())
  {
    var any := false;
    ghost var s, atoms := answers.Contents(), Tokens(term, '&');
    var at, rest := NextToken(term, '&');
    while at.Some?
      invariant any || at.Some? <==> atoms != []
      invariant AllHold(atoms, s) <==> AllHold(Left(at, rest, '&'), s)
      decreases at.Some?, |rest|
    {
      any := true;
      ghost var left := Left(at, rest, '&');
      assert left[0] == at.value && left[1..] == Tokens(rest, '&');
      var holds := EvalAtom(at.value, answers);
      if !holds { return false; }
      at, rest := NextToken(rest, '&');
    }
    return any;
  }

  method BpWhenEval(expr: Option<string>, answers: Answers.Store) returns (r: bool)
    requires answers.Valid()
    ensures r == Holds(expr, answers.Contents())
  {
    if expr.None? || expr.value == [] { return true; }
    var buf := Cut(expr.value, EXPRESSION_ROOM);
    ghost var s, terms := answers.Contents(), Tokens(buf, '|');
    var term, rest := NextToken(buf, '|');
    while term.Some?
      invariant AnyHolds(terms, s) <==> AnyHolds(Left(term, rest, '|'), s)
      decreases term.Some?, |rest|
    {
      ghost var left := Left(term, rest, '|');
      assert left[0] == term.value && left[1..] == Tokens(rest, '|');
      var holds := EvalTerm(term.value, answers);
      if holds { return true; }
      term, rest := NextToken(rest, '|');
    }
    return false;
  }
}
