// The order in which the stages of a phase run. Stages are named by their index in the
// blueprint; only the first 256 are looked at.

module StageOrder {
  import opened Wrappers

  datatype Phase = Install | Oobe

  /** A stage, as far as running it goes. */
  datatype Stage = Stage(id: Option<string>, phase: Phase, when: Option<string>, requires_: seq<Option<string>>,
                         action: Option<string>, script: Option<string>)

  const FLAGS := 256

  function Visible(stages: seq<Stage>): (s: seq<Stage>)
    ensures |s| <= FLAGS && s <= stages
  {
    if |stages| <= FLAGS then stages else stages[..FLAGS]
  }

  // ---- what must come first ----

  /** Stage `k` is of the phase and has an id that stage `i` requires. */
  predicate Needs(s: seq<Stage>, phase: Phase, i: nat, k: nat) {
    i < |s| && k < |s| && s[k].phase == phase && s[k].id.Some? && s[k].id in s[i].requires_
  }

  /** Everything that stage `i` needs is in `order`. */
  predicate Ready(s: seq<Stage>, phase: Phase, order: seq<nat>, i: nat) {
    forall k: nat :: k < |s| && Needs(s, phase, i, k) ==> k in order
  }

  /** Stage `i` is put out next. */
  predicate Due(s: seq<Stage>, phase: Phase, order: seq<nat>, i: nat) {
    i < |s| && s[i].phase == phase && i !in order && Ready(s, phase, order, i)
  }

  // ---- the passes ----

  /** One pass over the stages from `i` on. */
  function Pass(s: seq<Stage>, phase: Phase, order: seq<nat>, i: nat): seq<nat>
    requires i <= |s|
    decreases |s| - i
  {
    if i == |s| then order
    else Pass(s, phase, if Due(s, phase, order, i) then order + [i] else order, i + 1)
  }

  function Passes(s: seq<Stage>, phase: Phase, n: nat): seq<nat> {
    if n == 0 then [] else Pass(s, phase, Passes(s, phase, n - 1), 0)
  }

  /** The order of the stages of a phase. */
  function PhaseOrder(stages: seq<Stage>, phase: Phase): seq<nat> {
    Passes(Visible(stages), phase, |Visible(stages)|)
  }

  // ---- what every pass keeps ----

  /** Distinct stages of the phase, each after all that it needs. */
  ghost predicate Ordered(s: seq<Stage>, phase: Phase, order: seq<nat>) {
    && (forall j :: 0 <= j < |order| ==> order[j] < |s| && s[order[j]].phase == phase)
    && (forall j, k :: 0 <= j < k < |order| ==> order[j] != order[k])
    && (forall j :: 0 <= j < |order| ==> AfterNeeds(s, phase, order, j))
  }

  /** The stage at `j` comes after all that it needs. */
  ghost predicate AfterNeeds(s: seq<Stage>, phase: Phase, order: seq<nat>, j: nat)
    requires j < |order|
  {
    forall k: nat :: k < |s| && Needs(s, phase, order[j], k) ==> k in order[..j]
  }

  lemma DueKeepsOrdered(s: seq<Stage>, phase: Phase, order: seq<nat>, i: nat)
    requires Ordered(s, phase, order) && Due(s, phase, order, i)
    ensures Ordered(s, phase, order + [i])
  {
    var o := order + [i];
    forall j | 0 <= j < |o| ensures AfterNeeds(s, phase, o, j) {
      if j < |order| {
        assert AfterNeeds(s, phase, order, j);
        assert o[..j] == order[..j];
      } else {
        assert o[..j] == order;
      }
    }
  }

  lemma {:induction false} PassKeepsOrdered(s: seq<Stage>, phase: Phase, order: seq<nat>, i: nat)
    requires i <= |s| && Ordered(s, phase, order)
    ensures Ordered(s, phase, Pass(s, phase, order, i)) && order <= Pass(s, phase, order, i)
    decreases |s| - i
  {
    if i < |s| {
      if Due(s, phase, order, i) {
        DueKeepsOrdered(s, phase, order, i);
        PassKeepsOrdered(s, phase, order + [i], i + 1);
      } else {
        PassKeepsOrdered(s, phase, order, i + 1);
      }
    }
  }

  lemma {:induction false} PassesOrdered(s: seq<Stage>, phase: Phase, n: nat)
    ensures Ordered(s, phase, Passes(s, phase, n))
  {
    if n > 0 {
      PassesOrdered(s, phase, n - 1);
      PassKeepsOrdered(s, phase, Passes(s, phase, n - 1), 0);
    }
  }

  // ---- reaching a fixpoint ----

  /** Nothing more can be put out. */
  ghost predicate Settled(s: seq<Stage>, phase: Phase, order: seq<nat>) {
    forall i: nat :: i < |s| ==> !Due(s, phase, order, i)
  }

  /** A pass adds nothing just when nothing is due. */
  lemma {:induction false} IdlePass(s: seq<Stage>, phase: Phase, order: seq<nat>, i: nat)
    requires i <= |s| && Ordered(s, phase, order)
    ensures |Pass(s, phase, order, i)| == |order| <==> forall k: nat :: i <= k < |s| ==> !Due(s, phase, order, k)
    ensures |Pass(s, phase, order, i)| == |order| ==> Pass(s, phase, order, i) == order
    decreases |s| - i
  {
    if i < |s| {
      if Due(s, phase, order, i) {
        DueKeepsOrdered(s, phase, order, i);
        PassKeepsOrdered(s, phase, order + [i], i + 1);
      } else {
        IdlePass(s, phase, order, i + 1);
      }
    }
  }

  /** Distinct numbers below `n` are at most `n`. */
  lemma {:induction false} Pigeonhole(p: seq<nat>, n: nat)
    requires forall j :: 0 <= j < |p| ==> p[j] < n
    requires forall j, k :: 0 <= j < k < |p| ==> p[j] != p[k]
    ensures |p| <= n
    decreases n
  {
    if p != [] {
      assert p[0] < n;
      if j :| 0 <= j < |p| && p[j] == n - 1 {
        var rest := p[..j] + p[j + 1..];
        Pigeonhole(rest, n - 1);
      } else if n > 0 {
        Pigeonhole(p, n - 1);
      }
    }
  }

  /** Every pass either adds something or comes after one that added nothing. */
  lemma {:induction false} PassesGrow(s: seq<Stage>, phase: Phase, n: nat)
    ensures |Passes(s, phase, n)| >= n || Settled(s, phase, Passes(s, phase, n))
  {
    if n > 0 {
      var before := Passes(s, phase, n - 1);
      PassesGrow(s, phase, n - 1);
      PassesOrdered(s, phase, n - 1);
      IdlePass(s, phase, before, 0);
      PassKeepsOrdered(s, phase, before, 0);
    }
  }

  /** As many passes as there are stages are enough. */
  lemma PassesSettle(s: seq<Stage>, phase: Phase)
    ensures Settled(s, phase, Passes(s, phase, |s|))
  {
    var order := Passes(s, phase, |s|);
    PassesGrow(s, phase, |s|);
    PassesOrdered(s, phase, |s|);
    if i: nat :| i < |s| && Due(s, phase, order, i) {
      DueKeepsOrdered(s, phase, order, i);
      Pigeonhole(order + [i], |s|);
    }
  }

  /** Once nothing is due, further passes change nothing. */
  lemma {:induction false} PassesStay(s: seq<Stage>, phase: Phase, n: nat, m: nat)
    requires n <= m && Settled(s, phase, Passes(s, phase, n))
    ensures Passes(s, phase, m) == Passes(s, phase, n)
  {
    if n < m {
      PassesStay(s, phase, n, m - 1);
      PassesOrdered(s, phase, n);
      IdlePass(s, phase, Passes(s, phase, n), 0);
    }
  }

  /** The order is reached from any number of passes after which nothing is due. */
  lemma SettledIsOrder(s: seq<Stage>, phase: Phase, n: nat)
    requires Settled(s, phase, Passes(s, phase, n))
    ensures Passes(s, phase, n) == Passes(s, phase, |s|)
  {
    PassesSettle(s, phase);
    if n <= |s| {
      PassesStay(s, phase, n, |s|);
    } else {
      PassesStay(s, phase, |s|, n);
    }
  }

  // ---- the order put out ----

  /** Each stage at most once, of the phase, and after every stage of the phase it requires. */
  lemma OrderSound(stages: seq<Stage>, phase: Phase)
    ensures Ordered(Visible(stages), phase, PhaseOrder(stages, phase))
  {
    PassesOrdered(Visible(stages), phase, |Visible(stages)|);
  }

  /** A set of stages that has every stage of the phase all of whose needs it has. */
  ghost predicate Closed(s: seq<Stage>, phase: Phase, c: set<nat>) {
    forall i: nat :: i < |s| && s[i].phase == phase && Supported(s, phase, c, i) ==> i in c
  }

  ghost predicate Supported(s: seq<Stage>, phase: Phase, c: set<nat>, i: nat) {
    forall k: nat :: k < |s| && Needs(s, phase, i, k) ==> k in c
  }

  /** An ordered list lies within every closed set. */
  lemma {:induction false} OrderedWithin(s: seq<Stage>, phase: Phase, order: seq<nat>, c: set<nat>, j: nat)
    requires Ordered(s, phase, order) && Closed(s, phase, c) && j <= |order|
    ensures forall k :: k in order[..j] ==> k in c
  {
    if j > 0 {
      OrderedWithin(s, phase, order, c, j - 1);
      assert AfterNeeds(s, phase, order, j - 1);
      assert Supported(s, phase, c, order[j - 1]);
      assert order[..j] == order[..j - 1] + [order[j - 1]];
    }
  }

  ghost function Members(order: seq<nat>): set<nat> {
    set i | i in order
  }

  /** What is put out is the least set closed under readiness. */
  lemma OrderIsLeast(stages: seq<Stage>, phase: Phase)
    ensures Closed(Visible(stages), phase, Members(PhaseOrder(stages, phase)))
    ensures forall c :: Closed(Visible(stages), phase, c) ==> Members(PhaseOrder(stages, phase)) <= c
  {
    var s, order := Visible(stages), PhaseOrder(stages, phase);
    OrderSound(stages, phase);
    PassesSettle(s, phase);
    forall i: nat | i < |s| && s[i].phase == phase && Supported(s, phase, Members(order), i) ensures i in Members(order) {
      assert !Due(s, phase, order, i);
      assert Ready(s, phase, order, i);
    }
    forall c | Closed(s, phase, c) ensures Members(order) <= c {
      OrderedWithin(s, phase, order, c, |order|);
      assert order[..|order|] == order;
    }
  }

  // ---- cycles ----

  /** Stages each of which needs the next. */
  ghost predicate Walk(s: seq<Stage>, phase: Phase, p: seq<nat>) {
    p != [] && forall j :: 0 <= j < |p| - 1 ==> Needs(s, phase, p[j], p[j + 1])
  }

  /** A walk from stage `i` that comes back to a stage it passed. */
  ghost predicate WalkIntoCycle(s: seq<Stage>, phase: Phase, p: seq<nat>, i: nat) {
    Walk(s, phase, p) && p[0] == i && p[|p| - 1] in p[..|p| - 1]
  }

  function IndexIn(order: seq<nat>, x: nat): (j: nat)
    requires x in order
    ensures j < |order| && order[j] == x
  {
    if order[0] == x then 0 else 1 + IndexIn(order[1..], x)
  }

  lemma NeedsEarlier(s: seq<Stage>, phase: Phase, order: seq<nat>, i: nat, k: nat)
    requires Ordered(s, phase, order) && i in order && Needs(s, phase, i, k)
    ensures k in order && IndexIn(order, k) < IndexIn(order, i)
  {
    var j := IndexIn(order, i);
    assert AfterNeeds(s, phase, order, j);
    var m :| 0 <= m < j && order[..j][m] == k;
    assert order[m] == k && IndexIn(order, k) == m;
  }

  /** A walk from a stage put out leads only to earlier ones. */
  lemma {:induction false} WalkEarlier(s: seq<Stage>, phase: Phase, order: seq<nat>, p: seq<nat>, a: nat, b: nat)
    requires Ordered(s, phase, order) && Walk(s, phase, p) && p[0] in order && a <= b < |p|
    ensures p[a] in order && p[b] in order
    ensures a < b ==> IndexIn(order, p[b]) < IndexIn(order, p[a])
    decreases b
  {
    if b > 0 {
      WalkEarlier(s, phase, order, p, if a < b then a else b - 1, b - 1);
      NeedsEarlier(s, phase, order, p[b - 1], p[b]);
    }
  }

  /** A walk among stages not put out goes on until it comes back to itself. */
  lemma {:induction false} FindCycle(s: seq<Stage>, phase: Phase, order: seq<nat>, p: seq<nat>) returns (q: seq<nat>)
    requires Settled(s, phase, order) && Walk(s, phase, p)
    requires forall j :: 0 <= j < |p| ==> p[j] < |s| && s[p[j]].phase == phase && p[j] !in order
    requires forall j, k :: 0 <= j < k < |p| ==> p[j] != p[k]
    ensures WalkIntoCycle(s, phase, q, p[0])
    decreases |s| - |p|
  {
    var i := p[|p| - 1];
    assert !Due(s, phase, order, i);
    var k: nat :| k < |s| && Needs(s, phase, i, k) && k !in order;
    q := p + [k];
    assert q[..|q| - 1] == p;
    if k !in p {
      Pigeonhole(q, |s|);
      q := FindCycle(s, phase, order, q);
    }
  }

  /** The requirements of stage `i` lead into a cycle. */
  ghost predicate IntoCycle(s: seq<Stage>, phase: Phase, i: nat) {
    exists p :: WalkIntoCycle(s, phase, p, i)
  }

  /** A stage of the phase is left out exactly when it stands behind the first 256 stages or its
      requirements lead into a cycle. */
  lemma LeftOutIff(stages: seq<Stage>, phase: Phase, i: nat)
    requires i < |stages| && stages[i].phase == phase
    ensures i !in PhaseOrder(stages, phase) <==> i >= FLAGS || IntoCycle(Visible(stages), phase, i)
  {
    var s, order := Visible(stages), PhaseOrder(stages, phase);
    OrderSound(stages, phase);
    PassesSettle(s, phase);
    if i < FLAGS && i !in order {
      var p := FindCycle(s, phase, order, [i]);
      assert WalkIntoCycle(s, phase, p, i);
    }
    forall p | WalkIntoCycle(s, phase, p, i) && i in order ensures false {
      var m :| 0 <= m < |p| - 1 && p[..|p| - 1][m] == p[|p| - 1];
      WalkEarlier(s, phase, order, p, m, |p| - 1);
    }
  }

  /** No walk in the phase comes back to itself. */
  ghost predicate Acyclic(s: seq<Stage>, phase: Phase) {
    forall i: nat, p :: i < |s| && s[i].phase == phase ==> !WalkIntoCycle(s, phase, p, i)
  }

  /** All stages of the phase are put out. */
  ghost predicate Complete(s: seq<Stage>, phase: Phase, order: seq<nat>) {
    forall i: nat :: i < |s| && s[i].phase == phase ==> i in order
  }

  /** No stage of the phase stands behind the first 256. */
  ghost predicate NoneBeyond(stages: seq<Stage>, phase: Phase) {
    forall i :: FLAGS <= i < |stages| ==> stages[i].phase != phase
  }

  /** All stages of the phase, wherever they stand, are put out exactly when none stands behind the
      first 256 and the requirements among these have no cycle. */
  lemma CompleteIffAcyclic(stages: seq<Stage>, phase: Phase)
    ensures Complete(stages, phase, PhaseOrder(stages, phase))
       <==> NoneBeyond(stages, phase) && Acyclic(Visible(stages), phase)
  {
    var s, order := Visible(stages), PhaseOrder(stages, phase);
    forall i: nat | i < |stages| && stages[i].phase == phase
      ensures i !in order <==> i >= FLAGS || IntoCycle(s, phase, i)
    {
      LeftOutIff(stages, phase, i);
    }
    if Complete(stages, phase, order) {
      forall i: nat, p | i < |s| && s[i].phase == phase ensures !WalkIntoCycle(s, phase, p, i) {
        assert stages[i].phase == phase && !IntoCycle(s, phase, i);
      }
    }
  }

  // ---- a list already in order ----

  /** The stages of the phase from `i` on, as they stand. */
  function AsListed(s: seq<Stage>, phase: Phase, i: nat): seq<nat>
    requires i <= |s|
    decreases |s| - i
  {
    if i == |s| then []
    else (if s[i].phase == phase then [i] else []) + AsListed(s, phase, i + 1)
  }

  /** Every stage of the phase stands after what it needs. */
  ghost predicate InOrder(s: seq<Stage>, phase: Phase) {
    forall i: nat, k: nat :: i < |s| && s[i].phase == phase && Needs(s, phase, i, k) ==> k < i
  }

  /** What has been put out when a first pass comes to stage `i` of such a list. */
  ghost predicate ListedBelow(s: seq<Stage>, phase: Phase, order: seq<nat>, i: nat) {
    forall k: nat :: k < |s| ==> (k in order <==> k < i && s[k].phase == phase)
  }

  lemma ListedStep(s: seq<Stage>, phase: Phase, order: seq<nat>, i: nat, next: seq<nat>)
    requires InOrder(s, phase) && i < |s| && ListedBelow(s, phase, order, i)
    requires next == if s[i].phase == phase then order + [i] else order
    ensures Due(s, phase, order, i) <==> s[i].phase == phase
    ensures ListedBelow(s, phase, next, i + 1)
  {}

  lemma PassOn(s: seq<Stage>, phase: Phase, order: seq<nat>, i: nat, next: seq<nat>)
    requires i < |s| && next == if Due(s, phase, order, i) then order + [i] else order
    ensures Pass(s, phase, order, i) == Pass(s, phase, next, i + 1)
  {}

  lemma AsListedOn(s: seq<Stage>, phase: Phase, order: seq<nat>, i: nat, next: seq<nat>)
    requires i < |s| && next == if s[i].phase == phase then order + [i] else order
    ensures next + AsListed(s, phase, i + 1) == order + AsListed(s, phase, i)
  {}

  lemma {:induction false} FirstPass(s: seq<Stage>, phase: Phase, order: seq<nat>, i: nat)
    requires InOrder(s, phase) && i <= |s|
    requires ListedBelow(s, phase, order, i)
    ensures Pass(s, phase, order, i) == order + AsListed(s, phase, i)
    decreases |s| - i
  {
    if i < |s| {
      var next := if s[i].phase == phase then order + [i] else order;
      ListedStep(s, phase, order, i, next);
      PassOn(s, phase, order, i, next);
      FirstPass(s, phase, next, i + 1);
      AsListedOn(s, phase, order, i, next);
    }
  }

  lemma {:induction false} AsListedHas(s: seq<Stage>, phase: Phase, i: nat, k: nat)
    requires i <= k < |s| && s[k].phase == phase
    ensures k in AsListed(s, phase, i)
    decreases |s| - i
  {
    if i < k {
      AsListedHas(s, phase, i + 1, k);
    }
  }

  /** A list already in order comes out as it stands. */
  lemma InOrderUnchanged(stages: seq<Stage>, phase: Phase)
    requires InOrder(Visible(stages), phase)
    ensures PhaseOrder(stages, phase) == AsListed(Visible(stages), phase, 0)
  {
    var s := Visible(stages);
    FirstPass(s, phase, [], 0);
    assert Passes(s, phase, 1) == Pass(s, phase, Passes(s, phase, 0), 0);
    assert [] + AsListed(s, phase, 0) == AsListed(s, phase, 0);
    forall k: nat | k < |s| && s[k].phase == phase ensures k in Passes(s, phase, 1) {
      AsListedHas(s, phase, 0, k);
    }
    assert Settled(s, phase, Passes(s, phase, 1));
    SettledIsOrder(s, phase, 1);
  }

  // ---- the loops ----

  function PhaseCount(s: seq<Stage>, phase: Phase, n: nat): nat
    requires n <= |s|
  {
    if n == 0 then 0 else PhaseCount(s, phase, n - 1) + (if s[n - 1].phase == phase then 1 else 0)
  }

  /** Distinct stages of the phase are at most as many as there are, and all of them when as many. */
  lemma {:induction false} CountBounds(s: seq<Stage>, phase: Phase, p: seq<nat>, n: nat)
    requires n <= |s| && forall j :: 0 <= j < |p| ==> p[j] < n && s[p[j]].phase == phase
    requires forall j, k :: 0 <= j < k < |p| ==> p[j] != p[k]
    ensures |p| <= PhaseCount(s, phase, n)
    ensures |p| == PhaseCount(s, phase, n) ==> forall i: nat :: i < n && s[i].phase == phase ==> i in p
    decreases n
  {
    if p != [] {
      assert p[0] < n;
    }
    if n == 0 {
    } else if j :| 0 <= j < |p| && p[j] == n - 1 {
      var rest := p[..j] + p[j + 1..];
      CountBounds(s, phase, rest, n - 1);
      assert forall i :: i in rest ==> i in p;
    } else {
      CountBounds(s, phase, p, n - 1);
    }
  }

  lemma {:induction false} CountOfPrefix(stages: seq<Stage>, s: seq<Stage>, phase: Phase, n: nat, m: nat)
    requires s <= stages && n <= |s| && n <= m <= |stages|
    ensures PhaseCount(s, phase, n) <= PhaseCount(stages, phase, m)
    decreases m
  {
    if m > n {
      CountOfPrefix(stages, s, phase, n, m - 1);
    } else if n > 0 {
      assert s[n - 1] == stages[n - 1];
      CountOfPrefix(stages, s, phase, n - 1, m - 1);
    }
  }

  /** The flags say which stages have been put out. */
  ghost predicate Flags(emitted: seq<bool>, order: seq<nat>) {
    |emitted| == FLAGS && forall i: nat :: i < FLAGS ==> (emitted[i] <==> i in order)
  }

  /** The two inner loops: whether everything that stage `i` needs has been put out. */
  method IsReady(stages: seq<Stage>, phase: Phase, emitted: array<bool>, i: nat, ghost order: seq<nat>) returns (ready: bool)
    requires emitted.Length == FLAGS && Flags(emitted[..], order) && i < |Visible(stages)|
    ensures ready == Ready(Visible(stages), phase, order, i)
  {
    ready := true;
    var s, reqs := Visible(stages), stages[i].requires_;
    for r := 0 to |reqs|
      invariant ready <==> forall k: nat :: k < |s| && NeedsBy(s, phase, reqs, r, k) ==> k in order
    {
      ghost var before := ready;
      var k := 0;
      while k < |stages| && k < FLAGS
        invariant k <= |s|
        invariant ready <==> before && forall m: nat :: m < k && NeedsBy(s, phase, reqs[r..], 1, m) ==> m in order
      {
        assert NeedsBy(s, phase, reqs[r..], 1, k) <==> s[k].phase == phase && s[k].id.Some? && s[k].id == reqs[r];
        if stages[k].id.Some? && reqs[r].Some? && stages[k].id.value == reqs[r].value
           && stages[k].phase == phase && !emitted[k] {
          ready := false;
        }
        k := k + 1;
      }
      assert forall m: nat :: m < |s| ==>
        (NeedsBy(s, phase, reqs, r + 1, m) <==> NeedsBy(s, phase, reqs, r, m) || NeedsBy(s, phase, reqs[r..], 1, m));
    }
    assert reqs[..|reqs|] == reqs;
    assert forall k: nat :: k < |s| ==> (NeedsBy(s, phase, reqs, |reqs|, k) <==> Needs(s, phase, i, k));
  }

  /** Stage `k` is of the phase and has one of the first `r` ids. */
  ghost predicate NeedsBy(s: seq<Stage>, phase: Phase, ids: seq<Option<string>>, r: nat, k: nat)
    requires r <= |ids|
  {
    k < |s| && s[k].phase == phase && s[k].id.Some? && s[k].id in ids[..r]
  }

  /** `out[count++] = s; emitted[i] = 1` */
  method PutOut(emitted: array<bool>, out: array<nat>, count: nat, i: nat)
    requires emitted.Length == FLAGS && i < FLAGS && count < out.Length && Flags(emitted[..], out[..count])
    modifies emitted, out
    ensures out[..count + 1] == old(out[..count]) + [i] && out[count + 1..] == old(out[count + 1..])
    ensures Flags(emitted[..], out[..count + 1])
  {
    ghost var before := out[..count];
    out[count] := i;
    emitted[i] := true;
    assert out[..count + 1] == before + [i];
  }

  /** The body of the pass loop: stage `i` is put out when it is due. */
  method Visit(stages: seq<Stage>, phase: Phase, emitted: array<bool>, out: array<nat>, count: nat, i: nat)
    returns (count': nat)
    requires emitted.Length == FLAGS && count <= out.Length && |stages| <= out.Length && i < |Visible(stages)|
    requires Flags(emitted[..], out[..count]) && Ordered(Visible(stages), phase, out[..count])
    modifies emitted, out
    ensures count <= count' <= out.Length && Flags(emitted[..], out[..count'])
    ensures out[..count'] == old(if Due(Visible(stages), phase, out[..count], i) then out[..count] + [i] else out[..count])
    ensures out[count'..] == old(out[count'..])
    ensures Ordered(Visible(stages), phase, out[..count'])
  {
    count' := count;
    ghost var order := out[..count];
    if stages[i].phase == phase && !emitted[i] {
      var ready := IsReady(stages, phase, emitted, i, order);
      if ready {
        DueKeepsOrdered(Visible(stages), phase, order, i);
        Pigeonhole(order + [i], |Visible(stages)|);
        PutOut(emitted, out, count, i);
        count' := count + 1;
      }
    }
  }

  /** A pass that has come to stage `i` with `now` put out and flagged. */
  ghost predicate Midway(s: seq<Stage>, phase: Phase, order: seq<nat>, flags: seq<bool>, now: seq<nat>, i: nat) {
    i <= |s| && Ordered(s, phase, now) && Flags(flags, now) && Pass(s, phase, order, 0) == Pass(s, phase, now, i)
  }

  /** One iteration of the pass loop. */
  method VisitNext(stages: seq<Stage>, phase: Phase, emitted: array<bool>, out: array<nat>, count: nat, i: nat,
                   ghost order: seq<nat>) returns (count': nat)
    requires emitted.Length == FLAGS && count <= out.Length && |stages| <= out.Length && i < |Visible(stages)|
    requires Midway(Visible(stages), phase, order, emitted[..], out[..count], i)
    modifies emitted, out
    ensures count <= count' <= out.Length && out[count'..] == old(out[count'..])
    ensures Midway(Visible(stages), phase, order, emitted[..], out[..count'], i + 1)
  {
    count' := Visit(stages, phase, emitted, out, count, i);
  }

  /** One pass over the stages. */
  method RunPass(stages: seq<Stage>, phase: Phase, emitted: array<bool>, out: array<nat>, count: nat)
    returns (count': nat, progress: bool)
    requires emitted.Length == FLAGS && count <= out.Length && |stages| <= out.Length
    requires Flags(emitted[..], out[..count]) && Ordered(Visible(stages), phase, out[..count])
    modifies emitted, out
    ensures count <= count' <= out.Length && out[..count'] == Pass(Visible(stages), phase, old(out[..count]), 0)
    ensures Flags(emitted[..], out[..count']) && out[count'..] == old(out[count'..])
    ensures progress <==> count' > count
  {
    count', progress := count, false;
    ghost var order := out[..count];
    var i := 0;
    while i < |stages| && i < FLAGS
      invariant i <= |Visible(stages)| && count <= count' <= out.Length
      invariant Midway(Visible(stages), phase, order, emitted[..], out[..count'], i)
      invariant out[count'..] == old(out[count'..])
      invariant progress <==> count' > count
    {
      var next := VisitNext(stages, phase, emitted, out, count', i, order);
      progress := progress || next > count';
      count', i := next, i + 1;
    }
  }

  /** bp_phase_order: how many stages were put out, and which. */
  method BpPhaseOrder(stages: seq<Stage>, phase: Phase, out: array<nat>) returns (count: nat)
    requires |stages| <= out.Length
    modifies out
    ensures count <= out.Length && out[..count] == PhaseOrder(stages, phase) && out[count..] == old(out[count..])
  {
    var emitted := new bool[FLAGS](_ => false);
    ghost var s, rest := Visible(stages), out[..];
    var want := 0;
    for i := 0 to |stages|
      invariant want == PhaseCount(stages, phase, i)
    {
      if stages[i].phase == phase { want := want + 1; }
    }
    count := 0;
    var pass, progress := 0, true;
    while pass < |stages| + 1 && count < want && progress
      invariant pass <= |stages| + 1 && count <= out.Length && out[..count] == Passes(s, phase, pass)
      invariant Flags(emitted[..], out[..count]) && out[count..] == rest[count..]
      invariant !progress ==> Settled(s, phase, out[..count])
      decreases |stages| + 1 - pass
    {
      ghost var before := out[..count];
      PassesOrdered(s, phase, pass);
      IdlePass(s, phase, before, 0);
      count, progress := RunPass(stages, phase, emitted, out, count);
      pass := pass + 1;
    }
    Stopped(stages, phase, pass, count, want, progress);
  }

  /** However the passes stop, the order is reached: nothing was added, everything wanted is
      there, or the limit, which is never the reason. */
  lemma Stopped(stages: seq<Stage>, phase: Phase, pass: nat, count: nat, want: nat, progress: bool)
    requires want == PhaseCount(stages, phase, |stages|) && count == |Passes(Visible(stages), phase, pass)|
    requires pass == |stages| + 1 || count >= want || !progress
    requires !progress ==> Settled(Visible(stages), phase, Passes(Visible(stages), phase, pass))
    ensures Passes(Visible(stages), phase, pass) == PhaseOrder(stages, phase)
  {
    var s, order := Visible(stages), Passes(Visible(stages), phase, pass);
    PassesOrdered(s, phase, pass);
    CountBounds(s, phase, order, |s|);
    CountOfPrefix(stages, s, phase, |s|, |stages|);
    PassesGrow(s, phase, pass);
    Pigeonhole(order, |s|);
    if count >= want {
      assert Complete(s, phase, order);
    }
    SettledIsOrder(s, phase, pass);
  }
}
