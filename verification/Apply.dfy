// A run of --apply: the ordered stages one after the other, each skipped, fetched and run, up
// to the first failure. What a fetch or an action does is not modelled, only whether it
// succeeds, which is up to two arbitrary functions of the stage.

module Apply {
  import opened Wrappers
  import opened Pairs
  import opened Answers
  import opened StageOrder
  import When

  /** What happened to a stage. */
  datatype Event =
    | Skipped(stage: nat)
    | Done(stage: nat)
    | FetchFailed(stage: nat)
    | ActionFailed(stage: nat)

  predicate Succeeded(e: Event) {
    e.Skipped? || e.Done?
  }

  /** Whether downloading the script of a stage and running the action of a stage succeed. */
  datatype World = World(local: bool, fetches: nat -> bool, actions: nat -> bool)

  /** A stage without an action or a script does nothing, successfully. */
  predicate ActionSucceeds(stages: seq<Stage>, world: World, i: nat)
    requires i < |stages|
  {
    (stages[i].action.None? && stages[i].script.None?) || world.actions(i)
  }

  /** What happens to one stage. */
  function Step(stages: seq<Stage>, world: World, answers: seq<Pair>, i: nat): (e: Event)
    requires i < |stages|
    ensures e.stage == i
  {
    if !When.Holds(stages[i].when, answers) then Skipped(i)
    else if !world.local && stages[i].script.Some? && !world.fetches(i) then FetchFailed(i)
    else if !ActionSucceeds(stages, world, i) then ActionFailed(i)
    else Done(i)
  }

  predicate InRange(order: seq<nat>, stages: seq<Stage>) {
    forall j :: 0 <= j < |order| ==> order[j] < |stages|
  }

  /** What would happen to the stages in `order`, each for itself. */
  function Outcomes(stages: seq<Stage>, world: World, answers: seq<Pair>, order: seq<nat>): (es: seq<Event>)
    requires InRange(order, stages)
    ensures |es| == |order| && EventsInRange(es, stages)
    ensures forall j :: 0 <= j < |order| ==> es[j].stage == order[j]
  {
    seq(|order|, j requires 0 <= j < |order| => Step(stages, world, answers, order[j]))
  }

  /** The events up to the first failure. */
  function UpToFailure(es: seq<Event>): (t: seq<Event>)
    ensures t <= es
  {
    if es == [] then []
    else if Succeeded(es[0]) then [es[0]] + UpToFailure(es[1..])
    else [es[0]]
  }

  /** What the loop does with the stages in `order`. */
  function Trace(stages: seq<Stage>, world: World, answers: seq<Pair>, order: seq<nat>): seq<Event>
    requires InRange(order, stages)
  {
    UpToFailure(Outcomes(stages, world, answers, order))
  }

  predicate EventsInRange(t: seq<Event>, stages: seq<Stage>) {
    forall j :: 0 <= j < |t| ==> t[j].stage < |stages|
  }

  predicate AllSucceeded(t: seq<Event>) {
    forall j :: 0 <= j < |t| ==> Succeeded(t[j])
  }

  /** The stages put out have ids; what the others have does not matter. */
  predicate HasIds(order: seq<nat>, stages: seq<Stage>) {
    forall j :: 0 <= j < |order| ==> order[j] < |stages| && stages[order[j]].id.Some?
  }

  predicate EventsNamed(t: seq<Event>, stages: seq<Stage>) {
    forall j :: 0 <= j < |t| ==> t[j].stage < |stages| && stages[t[j].stage].id.Some?
  }

  /** The status that is noted for an event: none when only the download failed. */
  function State(e: Event): Option<string> {
    match e
    case Skipped(_) => Some("skipped")
    case Done(_) => Some("done")
    case ActionFailed(_) => Some("pending")
    case FetchFailed(_) => None
  }

  function Noted(stages: seq<Stage>, status: seq<Pair>, e: Event): seq<Pair>
    requires e.stage < |stages| && stages[e.stage].id.Some?
  {
    match State(e)
    case None => status
    case Some(state) => Set(status, stages[e.stage].id.value, state)
  }

  function NotedAll(stages: seq<Stage>, status: seq<Pair>, t: seq<Event>): seq<Pair>
    requires EventsNamed(t, stages)
    decreases |t|
  {
    if t == [] then status else Noted(stages, NotedAll(stages, status, t[..|t| - 1]), t[|t| - 1])
  }

  // ---- the loop ----

  /** What happens to one stage: the expression, the download and the action. */
  method Attempt(stages: seq<Stage>, world: World, answers: Store, i: nat) returns (e: Event)
    requires i < |stages| && answers.Valid()
    ensures e == Step(stages, world, answers.Contents(), i)
  {
    var st := stages[i];
    var shown := When.BpWhenEval(st.when, answers);
    if !shown { return Skipped(i); }
    if !world.local && st.script.Some? {
      if !world.fetches(i) { return FetchFailed(i); }
    }
    var ok := (st.action.None? && st.script.None?) || world.actions(i);
    return if ok then Done(i) else ActionFailed(i);
  }

  /** The body of the loop for one stage, and what it leaves in the store. */
  method RunStage(stages: seq<Stage>, world: World, book: Book, i: nat) returns (e: Event)
    requires i < |stages| && stages[i].id.Some? && book.Valid()
    modifies book.Repr()
    ensures book.Valid() && fresh(book.Repr() - old(book.Repr()))
    ensures e == Step(stages, world, old(book.Value().answers), i)
    ensures book.Value() == old(book.Value()).(status := Noted(stages, old(book.Value().status), e))
  {
    e := Attempt(stages, world, book.answers, i);
    var state := State(e);
    if state.Some? {
      book.SetStatus(stages[i].id.value, state.value);
    }
  }

  /** The run goes on while all succeed and ends with the first that does not. */
  lemma {:induction false} RunsUpTo(es: seq<Event>, n: nat)
    requires n <= |es| && AllSucceeded(es[..n])
    ensures n == |es| ==> UpToFailure(es) == es
    ensures n < |es| && !Succeeded(es[n]) ==> UpToFailure(es) == es[..n + 1] && !AllSucceeded(es[..n + 1])
  {
    if n > 0 {
      var rest := es[1..];
      assert es[..n][0] == es[0];
      assert AllSucceeded(rest[..n - 1]) by {
        var front := rest[..n - 1];
        forall k | 0 <= k < |front| ensures Succeeded(front[k]) {
          assert front[k] == es[..n][k + 1];
        }
      }
      RunsUpTo(rest, n - 1);
      if n < |es| && !Succeeded(es[n]) {
        assert [es[0]] + rest[..n] == es[..n + 1];
        assert es[..n + 1][n] == es[n];
      }
    } else if n < |es| && !Succeeded(es[n]) {
      assert es[..1] == [es[0]];
    }
  }

  lemma NotedLast(stages: seq<Stage>, status: seq<Pair>, t: seq<Event>, e: Event)
    requires e.stage < |stages| && stages[e.stage].id.Some? && EventsNamed(t, stages)
    ensures EventsNamed(t + [e], stages)
    ensures NotedAll(stages, status, t + [e]) == Noted(stages, NotedAll(stages, status, t), e)
  {
    assert (t + [e])[..|t|] == t;
  }

  /** The store after the events: only the statuses have changed. */
  ghost predicate Recorded(stages: seq<Stage>, before: Record, trace: seq<Event>, now: Record) {
    EventsNamed(trace, stages)
    && now == before.(status := NotedAll(stages, before.status, trace))
  }

  /** The successes so far are the beginning of what happens. */
  ghost predicate SoFar(es: seq<Event>, trace: seq<Event>) {
    trace <= es && AllSucceeded(trace)
  }

  /** One iteration of the stage loop: the run goes on, or has ended with what happens. */
  method RunNext(stages: seq<Stage>, order: seq<nat>, world: World, book: Book, trace: seq<Event>,
                 ghost es: seq<Event>, ghost before: Record) returns (trace': seq<Event>, ok: bool)
    requires book.Valid() && HasIds(order, stages) && es == Outcomes(stages, world, before.answers, order)
    requires |trace| < |order| && SoFar(es, trace) && Recorded(stages, before, trace, book.Value())
    modifies book.Repr()
    ensures book.Valid() && fresh(book.Repr() - old(book.Repr()))
    ensures Recorded(stages, before, trace', book.Value())
    ensures ok ==> |trace'| == |trace| + 1 && SoFar(es, trace')
    ensures !ok ==> trace' == UpToFailure(es) && !AllSucceeded(trace')
  {
    var n := |trace|;
    var e := RunStage(stages, world, book, order[n]);
    NotedLast(stages, before.status, trace, e);
    NextEvent(es, trace, e);
    trace', ok := trace + [e], Succeeded(e);
  }

  lemma NextEvent(es: seq<Event>, trace: seq<Event>, e: Event)
    requires SoFar(es, trace) && |trace| < |es| && e == es[|trace|]
    ensures Succeeded(e) ==> SoFar(es, trace + [e])
    ensures !Succeeded(e) ==> trace + [e] == UpToFailure(es) && !AllSucceeded(trace + [e])
  {
    var n := |trace|;
    assert es[..n] == trace && es[..n + 1] == trace + [e];
    RunsUpTo(es, n);
  }

  /** The loop, against what happens. */
  method RunLoop(stages: seq<Stage>, order: seq<nat>, world: World, book: Book,
                 ghost es: seq<Event>, ghost before: Record) returns (ok: bool, trace: seq<Event>)
    requires book.Valid() && HasIds(order, stages) && before == book.Value()
    requires es == Outcomes(stages, world, before.answers, order)
    modifies book.Repr()
    ensures book.Valid() && fresh(book.Repr() - old(book.Repr()))
    ensures ok ==> SoFar(es, trace) && |trace| == |es|
    ensures !ok ==> trace == UpToFailure(es) && !AllSucceeded(trace)
    ensures Recorded(stages, before, trace, book.Value())
  {
    ok, trace := true, [];
    while ok && |trace| < |order|
      invariant book.Valid() && fresh(book.Repr() - old(book.Repr()))
      invariant Recorded(stages, before, trace, book.Value())
      invariant ok ==> |trace| <= |order| && SoFar(es, trace)
      invariant !ok ==> trace == UpToFailure(es) && !AllSucceeded(trace)
      decreases ok, |order| - |trace|
    {
      trace, ok := RunNext(stages, order, world, book, trace, es, before);
    }
  }

  /** The stage loop of --apply. */
  method RunStages(stages: seq<Stage>, order: seq<nat>, world: World, book: Book) returns (rc: int, trace: seq<Event>)
    requires HasIds(order, stages) && book.Valid()
    modifies book.Repr()
    ensures book.Valid() && fresh(book.Repr() - old(book.Repr()))
    ensures trace == Trace(stages, world, old(book.Value().answers), order)
    ensures rc == if AllSucceeded(trace) then 0 else 1
    ensures Recorded(stages, old(book.Value()), trace, book.Value())
  {
    ghost var before := book.Value();
    ghost var es := Outcomes(stages, world, before.answers, order);
    var ok;
    ok, trace := RunLoop(stages, order, world, book, es, before);
    rc := if ok then 0 else 1;
    WholeRun(es, ok, trace);
  }

  lemma WholeRun(es: seq<Event>, ok: bool, trace: seq<Event>)
    requires ok ==> SoFar(es, trace) && |trace| == |es|
    requires !ok ==> trace == UpToFailure(es) && !AllSucceeded(trace)
    ensures trace == UpToFailure(es) && (ok <==> AllSucceeded(trace))
  {
    if ok {
      assert es[..|es|] == trace == es;
      RunsUpTo(es, |es|);
    }
  }

  // ---- the whole run ----

  /** The events of --apply for a phase. */
  function Run(stages: seq<Stage>, phase: Phase, world: World, answers: seq<Pair>): seq<Event> {
    OrderInRange(stages, phase);
    Trace(stages, world, answers, PhaseOrder(stages, phase))
  }

  lemma OrderInRange(stages: seq<Stage>, phase: Phase)
    ensures InRange(PhaseOrder(stages, phase), stages)
  {
    OrderSound(stages, phase);
  }

  /** The store after the run: the statuses, and the flag of the phase if all succeeded. */
  function Finished(stages: seq<Stage>, phase: Phase, before: Record, trace: seq<Event>): Record
    requires EventsNamed(trace, stages)
  {
    var r := before.(status := NotedAll(stages, before.status, trace));
    if !AllSucceeded(trace) then r
    else if phase == Oobe then r.(oobeDone := true) else r.(installDone := true)
  }

  /** The part of main behind --apply, from the ordering on. `saved` says whether the store is
      written to the answers file. */
  method ApplyBlueprint(stages: seq<Stage>, phase: Phase, world: World, book: Book, toFile: bool)
    returns (rc: int, trace: seq<Event>, saved: bool)
    requires HasIds(PhaseOrder(stages, phase), stages) && book.Valid()
    modifies book.Repr()
    ensures book.Valid()
    ensures trace == Run(stages, phase, world, old(book.Value().answers)) && EventsNamed(trace, stages)
    ensures rc == if AllSucceeded(trace) then 0 else 1
    ensures saved <==> rc == 0 && toFile
    ensures book.Value() == Finished(stages, phase, old(book.Value()), trace)
  {
    var out := new nat[|stages|];
    var n := BpPhaseOrder(stages, phase, out);
    OrderInRange(stages, phase);
    rc, trace := RunStages(stages, out[..n], world, book);
    saved := false;
    if rc == 0 {
      if phase == Oobe { book.oobeDone := true; } else { book.installDone := true; }
      saved := toFile;
    }
  }

  // ---- safety ----

  /** `k` was skipped or done before event `j`. */
  ghost predicate SucceededBefore(t: seq<Event>, j: nat, k: nat) {
    exists m :: 0 <= m < j && m < |t| && t[m].stage == k && Succeeded(t[m])
  }

  lemma {:induction false} OnlyLastFails(es: seq<Event>, j: nat)
    requires j < |UpToFailure(es)|
    ensures j < |UpToFailure(es)| - 1 ==> Succeeded(UpToFailure(es)[j])
    ensures AllSucceeded(UpToFailure(es)) ==> UpToFailure(es) == es
    decreases |es|
  {
    var t := UpToFailure(es);
    if Succeeded(es[0]) {
      if |t| > 1 {
        var rest := UpToFailure(es[1..]);
        OnlyLastFails(es[1..], if j > 0 then j - 1 else 0);
        if AllSucceeded(t) {
          assert forall k :: 0 <= k < |rest| ==> rest[k] == t[k + 1];
        }
      }
    } else {
      assert t[0] == es[0];
    }
  }

  /** Whatever the world does: the events are those of the first stages of the order, one each. */
  lemma RunFollowsOrder(stages: seq<Stage>, phase: Phase, world: World, answers: seq<Pair>, j: nat)
    requires j < |Run(stages, phase, world, answers)|
    ensures j < |PhaseOrder(stages, phase)|
    ensures Run(stages, phase, world, answers)[j].stage == PhaseOrder(stages, phase)[j]
  {
    OrderInRange(stages, phase);
    var es := Outcomes(stages, world, answers, PhaseOrder(stages, phase));
    assert UpToFailure(es)[j] == es[j];
  }

  /** Nothing happens after the first failure. */
  lemma NothingAfterFailure(stages: seq<Stage>, phase: Phase, world: World, answers: seq<Pair>, j: nat)
    requires j < |Run(stages, phase, world, answers)| && !Succeeded(Run(stages, phase, world, answers)[j])
    ensures j == |Run(stages, phase, world, answers)| - 1
  {
    OrderInRange(stages, phase);
    OnlyLastFails(Outcomes(stages, world, answers, PhaseOrder(stages, phase)), j);
  }

  /** Whatever the world does: when it comes to a stage, in particular when its action is
      started, every stage of the phase that it requires was skipped or done before. */
  lemma RequirementsFirst(stages: seq<Stage>, phase: Phase, world: World, answers: seq<Pair>, j: nat, k: nat)
    requires j < |Run(stages, phase, world, answers)|
    requires Needs(Visible(stages), phase, Run(stages, phase, world, answers)[j].stage, k)
    ensures SucceededBefore(Run(stages, phase, world, answers), j, k)
  {
    var t, order := Run(stages, phase, world, answers), PhaseOrder(stages, phase);
    RunFollowsOrder(stages, phase, world, answers, j);
    OrderSound(stages, phase);
    assert AfterNeeds(Visible(stages), phase, order, j);
    var m :| 0 <= m < j && order[..j][m] == k;
    RunFollowsOrder(stages, phase, world, answers, m);
    OrderInRange(stages, phase);
    OnlyLastFails(Outcomes(stages, world, answers, order), m);
    assert t[m].stage == k && Succeeded(t[m]);
  }

  /** Stage `i` was skipped or done in the run. */
  ghost predicate SucceededIn(t: seq<Event>, i: nat) {
    SucceededBefore(t, |t|, i)
  }

  /** The run succeeds, which is when the flag of the phase is set and the store is saved, exactly
      when every stage put out by the ordering was skipped or done. */
  lemma FlagIffOrderedDone(stages: seq<Stage>, phase: Phase, world: World, answers: seq<Pair>)
    ensures AllSucceeded(Run(stages, phase, world, answers))
       <==> forall i :: i in PhaseOrder(stages, phase) ==> SucceededIn(Run(stages, phase, world, answers), i)
  {
    var t, order := Run(stages, phase, world, answers), PhaseOrder(stages, phase);
    OrderInRange(stages, phase);
    OrderSound(stages, phase);
    if AllSucceeded(t) {
      if t != [] {
        OnlyLastFails(Outcomes(stages, world, answers, order), 0);
      }
      forall i | i in order ensures SucceededIn(t, i) {
        var j :| 0 <= j < |order| && order[j] == i;
        RunFollowsOrder(stages, phase, world, answers, j);
        assert Succeeded(t[j]);
      }
    } else {
      var j :| 0 <= j < |t| && !Succeeded(t[j]);
      RunFollowsOrder(stages, phase, world, answers, j);
      forall m | 0 <= m < |t| && t[m].stage == order[j] ensures m == j {
        RunFollowsOrder(stages, phase, world, answers, m);
      }
      assert !SucceededIn(t, order[j]);
    }
  }

  /** Every stage of the phase, wherever it stands, was skipped or done. */
  ghost predicate WholePhase(stages: seq<Stage>, phase: Phase, t: seq<Event>) {
    forall i: nat :: i < |stages| && stages[i].phase == phase ==> SucceededIn(t, i)
  }

  /** When the flag is set, the whole phase was skipped or done exactly when no stage of the phase
      stands behind the first 256 and the requirements among these have no cycle: stages behind
      them, in a cycle, or that require one, are left out silently. */
  lemma FlagMeansWholePhaseIff(stages: seq<Stage>, phase: Phase, world: World, answers: seq<Pair>)
    requires AllSucceeded(Run(stages, phase, world, answers))
    ensures WholePhase(stages, phase, Run(stages, phase, world, answers))
       <==> NoneBeyond(stages, phase) && Acyclic(Visible(stages), phase)
  {
    var t, order := Run(stages, phase, world, answers), PhaseOrder(stages, phase);
    FlagIffOrderedDone(stages, phase, world, answers);
    CompleteIffAcyclic(stages, phase);
    forall i: nat | SucceededIn(t, i) ensures i in order {
      var m :| 0 <= m < |t| && t[m].stage == i;
      RunFollowsOrder(stages, phase, world, answers, m);
    }
  }

  lemma FirstIsIn(order: seq<nat>)
    ensures order == [] || order[0] in order
  {}

  /** Two stages that require each other: the run does nothing and succeeds. */
  lemma FlagDespiteCycle(world: World, answers: seq<Pair>)
    ensures var a := Stage(Some("a"), Oobe, None, [Some("b")], Some("x"), None);
            var b := Stage(Some("b"), Oobe, None, [Some("a")], Some("y"), None);
            Run([a, b], Oobe, world, answers) == [] && !WholePhase([a, b], Oobe, [])
  {
    var a := Stage(Some("a"), Oobe, None, [Some("b")], Some("x"), None);
    var b := Stage(Some("b"), Oobe, None, [Some("a")], Some("y"), None);
    var s, order := [a, b], PhaseOrder([a, b], Oobe);
    assert a.id in b.requires_ && b.id in a.requires_;
    assert Walk(s, Oobe, [0, 1, 0]) && [0, 1, 0][..2][0] == 0;
    assert Walk(s, Oobe, [1, 0, 1]) && [1, 0, 1][..2][0] == 1;
    assert WalkIntoCycle(s, Oobe, [0, 1, 0], 0) && WalkIntoCycle(s, Oobe, [1, 0, 1], 1);
    LeftOutIff(s, Oobe, 0);
    LeftOutIff(s, Oobe, 1);
    OrderSound(s, Oobe);
    FirstIsIn(order);
    assert s[0].phase == Oobe && !SucceededIn([], 0);
  }

  /** 257 stages that require nothing and have nothing to do: the run succeeds without the last. */
  lemma FlagDespiteLength(world: World, answers: seq<Pair>)
    ensures var stages := seq(257, _ => Stage(Some("a"), Oobe, None, [], None, None));
            var t := Run(stages, Oobe, world, answers);
            AllSucceeded(t) && !SucceededIn(t, 256)
  {
    var stages := seq(257, _ => Stage(Some("a"), Oobe, None, [], None, None));
    var t, order := Run(stages, Oobe, world, answers), PhaseOrder(stages, Oobe);
    LeftOutIff(stages, Oobe, 256);
    forall j: nat | j < |t| ensures Succeeded(t[j]) && t[j].stage != 256 {
      RunFollowsOrder(stages, Oobe, world, answers, j);
      OrderInRange(stages, Oobe);
      assert t[j] == Outcomes(stages, world, answers, order)[j];
    }
  }
}
