// What the events of a run of --apply mean: which stages are skipped, in terms of the boolean
// meaning of their conditions over the answers, which are done, and what is noted about them.

module ApplyEvents {
  import opened Wrappers
  import opened Pairs
  import opened Answers
  import opened StageOrder
  import opened Apply
  import When
  import WhenMeaning

  // ---- which event ----

  lemma EventOfStep(stages: seq<Stage>, phase: Phase, world: World, answers: seq<Pair>, j: nat)
    requires j < |Run(stages, phase, world, answers)|
    ensures Run(stages, phase, world, answers)[j].stage < |stages|
    ensures Run(stages, phase, world, answers)[j]
         == Step(stages, world, answers, Run(stages, phase, world, answers)[j].stage)
  {
    OrderInRange(stages, phase);
    var es := Outcomes(stages, world, answers, PhaseOrder(stages, phase));
    assert UpToFailure(es)[j] == es[j];
  }

  /** A stage without a condition, or with an empty one, is never skipped. */
  lemma UnconditionalNotSkipped(stages: seq<Stage>, phase: Phase, world: World, answers: seq<Pair>, j: nat, i: nat)
    requires j < |Run(stages, phase, world, answers)| && i == Run(stages, phase, world, answers)[j].stage
    requires i < |stages| && (stages[i].when == None || stages[i].when == Some(""))
    ensures !Run(stages, phase, world, answers)[j].Skipped?
  {
    EventOfStep(stages, phase, world, answers, j);
  }

  /** A stage whose condition is a written formula is skipped exactly when the formula is false over
      the answers. */
  lemma SkippedIff(stages: seq<Stage>, phase: Phase, world: World, answers: seq<Pair>, j: nat, i: nat,
                   f: WhenMeaning.Formula)
    requires j < |Run(stages, phase, world, answers)| && i == Run(stages, phase, world, answers)[j].stage
    requires WhenMeaning.WritableFormula(f) && i < |stages| && stages[i].when == Some(WhenMeaning.Print(f))
    ensures Run(stages, phase, world, answers)[j].Skipped? <==> !WhenMeaning.Meaning(f, AsMap(answers))
  {
    EventOfStep(stages, phase, world, answers, j);
    WhenMeaning.PrintedMeans(f, answers);
  }

  /** The script of the stage is at hand: there is none, the scripts are local, or it was fetched. */
  predicate Fetched(st: Stage, world: World, i: nat) {
    st.script == None || world.local || world.fetches(i)
  }

  /** There is nothing to run, or it succeeded. */
  predicate Acted(st: Stage, world: World, i: nat) {
    (st.script == None && st.action == None) || world.actions(i)
  }

  /** A stage is done exactly when it was not skipped, its script was at hand and its action
      succeeded; the first of these that is not so decides what happened instead. */
  lemma DoneIff(stages: seq<Stage>, phase: Phase, world: World, answers: seq<Pair>, j: nat, i: nat)
    requires j < |Run(stages, phase, world, answers)| && i == Run(stages, phase, world, answers)[j].stage
    requires i < |stages|
    ensures var e := Run(stages, phase, world, answers)[j];
            && (e.Done? <==> !e.Skipped? && Fetched(stages[i], world, i) && Acted(stages[i], world, i))
            && (e.FetchFailed? <==> !e.Skipped? && !Fetched(stages[i], world, i))
            && (e.ActionFailed? <==> !e.Skipped? && Fetched(stages[i], world, i) && !Acted(stages[i], world, i))
  {
    EventOfStep(stages, phase, world, answers, j);
  }

  // ---- what is noted ----

  /** Event `j` is about a stage with this id. */
  predicate Names(stages: seq<Stage>, t: seq<Event>, j: nat, id: string)
    requires j < |t| && EventsInRange(t, stages)
  {
    stages[t[j].stage].id == Some(id)
  }

  /** Only event `j` is about a stage with this id. */
  ghost predicate OnlyHere(stages: seq<Stage>, t: seq<Event>, j: nat, id: string)
    requires EventsInRange(t, stages)
  {
    j < |t| && forall k :: 0 <= k < |t| ==> (Names(stages, t, k, id) <==> k == j)
  }

  /** What stands under an id that no event is about stays. */
  lemma {:induction false} OtherStatus(stages: seq<Stage>, status: seq<Pair>, t: seq<Event>, id: string)
    requires EventsNamed(t, stages) && forall k :: 0 <= k < |t| ==> !Names(stages, t, k, id)
    ensures Get(NotedAll(stages, status, t), id) == Get(status, id)
    decreases |t|
  {
    if t != [] {
      var n := |t| - 1;
      forall k | 0 <= k < n ensures !Names(stages, t[..n], k, id) {
        assert !Names(stages, t, k, id);
      }
      OtherStatus(stages, status, t[..n], id);
      assert !Names(stages, t, n, id);
      NotedElsewhere(stages, NotedAll(stages, status, t[..n]), t[n], id);
    }
  }

  lemma NotedElsewhere(stages: seq<Stage>, status: seq<Pair>, e: Event, id: string)
    requires e.stage < |stages| && stages[e.stage].id.Some? && stages[e.stage].id != Some(id)
    ensures Get(Noted(stages, status, e), id) == Get(status, id)
  {
    GetIsLookup(status, id);
    if State(e).Some? {
      SetIsUpdate(status, stages[e.stage].id.value, State(e).value);
      GetIsLookup(Noted(stages, status, e), id);
    }
  }

  /** What an event leaves under the id of its stage, over what stood there. */
  function Left(e: Event, before: Option<string>): Option<string> {
    match e
    case Skipped(_) => Some("skipped")
    case Done(_) => Some("done")
    case ActionFailed(_) => Some("pending")
    case FetchFailed(_) => before
  }

  lemma NotedHere(stages: seq<Stage>, status: seq<Pair>, e: Event, id: string)
    requires e.stage < |stages| && stages[e.stage].id == Some(id)
    ensures Get(Noted(stages, status, e), id) == Left(e, Get(status, id))
  {
    if State(e).Some? {
      SetIsUpdate(status, id, State(e).value);
      GetIsLookup(Noted(stages, status, e), id);
    }
  }

  /** The status of a stage that the events name once. */
  lemma {:induction false} StatusOfEvent(stages: seq<Stage>, status: seq<Pair>, t: seq<Event>, j: nat, id: string)
    requires EventsNamed(t, stages) && OnlyHere(stages, t, j, id)
    ensures Get(NotedAll(stages, status, t), id) == Left(t[j], Get(status, id))
    decreases |t|
  {
    var n := |t| - 1;
    forall k | 0 <= k < n ensures Names(stages, t[..n], k, id) <==> k == j {
      assert Names(stages, t, k, id) <==> Names(stages, t[..n], k, id);
    }
    assert Names(stages, t, n, id) <==> n == j;
    if j == n {
      OtherStatus(stages, status, t[..n], id);
      NotedHere(stages, NotedAll(stages, status, t[..n]), t[n], id);
    } else {
      StatusOfEvent(stages, status, t[..n], j, id);
      NotedElsewhere(stages, NotedAll(stages, status, t[..n]), t[n], id);
    }
  }

  /** After a run the status under an id that the run names once is "skipped", "done" or "pending"
      as the stage was skipped, done, or failed in its action, and as before the run when only the
      download failed; under an id that the run does not name it is as before the run. */
  lemma StatusAfterRun(stages: seq<Stage>, phase: Phase, world: World, before: Record, t: seq<Event>, id: string)
    requires t == Run(stages, phase, world, before.answers) && EventsNamed(t, stages)
    ensures forall j :: 0 <= j < |t| && OnlyHere(stages, t, j, id) ==>
              Get(Finished(stages, phase, before, t).status, id) == Left(t[j], Get(before.status, id))
    ensures (forall j :: 0 <= j < |t| ==> !Names(stages, t, j, id)) ==>
              Get(Finished(stages, phase, before, t).status, id) == Get(before.status, id)
  {
    forall j | 0 <= j < |t| && OnlyHere(stages, t, j, id)
      ensures Get(Finished(stages, phase, before, t).status, id) == Left(t[j], Get(before.status, id))
    {
      StatusOfEvent(stages, before.status, t, j, id);
    }
    if forall j :: 0 <= j < |t| ==> !Names(stages, t, j, id) {
      OtherStatus(stages, before.status, t, id);
    }
  }

  /** After a run the flag of its phase is set if it was set or every ordered stage of the phase was
      skipped or done; the flag of the other phase and the answers are as before. */
  lemma FlagsAfterRun(stages: seq<Stage>, phase: Phase, world: World, before: Record, t: seq<Event>, complete: bool)
    requires t == Run(stages, phase, world, before.answers) && EventsNamed(t, stages)
    requires complete <==> forall i :: i in PhaseOrder(stages, phase) ==> SucceededIn(t, i)
    ensures var after := Finished(stages, phase, before, t);
            && (after.oobeDone <==> before.oobeDone || (phase == Oobe && complete))
            && (after.installDone <==> before.installDone || (phase == Install && complete))
            && after.answers == before.answers && after.flavor == before.flavor
  {
    FlagIffOrderedDone(stages, phase, world, before.answers);
  }
}
