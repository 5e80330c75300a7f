// What a successful run writes to the answers file is what the next one reads.

module SavedRun {
  import opened Pairs
  import opened Answers
  import opened StageOrder
  import opened Apply
  import opened AnswersText
  import opened AnswersFile
  import opened AnswersRoundTrip

  /** Setting a clean value under a writable key keeps a list that can be saved. */
  lemma SetSaveable(s: seq<Pair>, key: string, val: string)
    requires SaveablePairs(s) && WritableKey(key) && Clean(val)
    ensures SaveablePairs(Set(s, key, val))
  {
    SetDistinct(s, key, val);
    if i :| 0 <= i < |s| && s[i].0 == key {
      assert forall j :: 0 <= j < i ==> s[j].0 != key;
      GetFirst(s, key, i);
      assert Set(s, key, val) == s[i := (key, val)];
    } else {
      GetNone(s, key);
      assert Set(s, key, val) == s + [(key, val)];
    }
  }

  lemma StatesClean()
    ensures Clean("skipped") && Clean("done") && Clean("pending")
  {}

  /** The ids of the stages in a list of events can be written as keys. */
  ghost predicate WritableIds(t: seq<Event>, stages: seq<Stage>) {
    EventsNamed(t, stages) && forall j :: 0 <= j < |t| ==> WritableKey(stages[t[j].stage].id.value)
  }

  /** The statuses noted in a run can be saved. */
  lemma {:induction false} NotedSaveable(stages: seq<Stage>, status: seq<Pair>, t: seq<Event>)
    requires WritableIds(t, stages) && SaveablePairs(status)
    ensures SaveablePairs(NotedAll(stages, status, t))
    decreases |t|
  {
    if t != [] {
      var n := |t| - 1;
      NotedSaveable(stages, status, t[..n]);
      StatesClean();
      if State(t[n]).Some? {
        SetSaveable(NotedAll(stages, status, t[..n]), stages[t[n].stage].id.value, State(t[n]).value);
      }
    }
  }

  /** Loading the file of a run gives back the store of the run, for every world: the file is
      saved by every run that succeeds and has an answers file. */
  lemma RunLoadsBack(stages: seq<Stage>, phase: Phase, world: World, before: Record, trace: seq<Event>)
    requires WritableIds(trace, stages) && Saveable(before)
    requires trace == Run(stages, phase, world, before.answers)
    ensures Saveable(Finished(stages, phase, before, trace))
    ensures Load(Save(Finished(stages, phase, before, trace))) == Finished(stages, phase, before, trace)
  {
    NotedSaveable(stages, before.status, trace);
    LoadSaved(Finished(stages, phase, before, trace));
  }
}
