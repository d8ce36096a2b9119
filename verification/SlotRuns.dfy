/**
 * Progress in the table of connections (include/server.hpp, src/servers/http.cpp): what each read task comes
 * to, and that every connection which is closed or idle and which nobody uses is let go.
 */
module SlotRuns {
  import opened Options
  import opened Slots

  // ----- A few steps in a row -----

  ghost predicate Goes(s: State, a: Step, s': State) {
    Enabled(s, a) && Act(s, a) == s'
  }

  lemma OneStep(s: State, a: Step, s': State, rest: seq<Step>)
    requires Goes(s, a, s') && Possible(s', rest)
    ensures Possible(s, [a] + rest) && After(s, [a] + rest) == After(s', rest)
  {
    hide Enabled, Act;
    assert ([a] + rest)[1..] == rest;
  }

  lemma TwoSteps(s: State, a1: Step, s1: State, a2: Step, s2: State)
    requires Goes(s, a1, s1) && Goes(s1, a2, s2)
    ensures Possible(s, [a1, a2]) && After(s, [a1, a2]) == s2
  {
    hide Goes;
    assert Possible(s2, []) && After(s2, []) == s2;
    OneStep(s1, a2, s2, []);
    OneStep(s, a1, s1, [a2] + []);
    assert [a1] + ([a2] + []) == [a1, a2];
  }

  lemma ThreeSteps(s: State, a1: Step, s1: State, a2: Step, s2: State, a3: Step, s3: State)
    requires Goes(s, a1, s1) && Goes(s1, a2, s2) && Goes(s2, a3, s3)
    ensures Possible(s, [a1, a2, a3]) && After(s, [a1, a2, a3]) == s3
  {
    TwoSteps(s1, a2, s2, a3, s3);
    hide Goes, Possible, After;
    OneStep(s, a1, s1, [a2, a3]);
    assert [a1] + [a2, a3] == [a1, a2, a3];
  }

  // ----- Read tasks -----

  /** A state in which task `k` has come to a stage, and its connection to what is given. */
  function With(s: State, k: nat, stage: Stage, con: Con): State
    requires k < |s.tasks| && s.tasks[k].con < |s.cons|
  {
    s.(tasks := s.tasks[k := Task(s.tasks[k].con, stage)], cons := s.cons[s.tasks[k].con := con])
  }

  /** What one step makes of a stage and of its connection. */
  predicate Turns(stage: Stage, good: bool, con: Con, stage': Stage, con': Con) {
    match stage
    case Read => stage' == (if good then Parse else ReleaseDead) && con' == con
    case ReleaseDead => stage' == CloseDead && con' == con.(refs := con.refs - 1)
    case CloseDead => stage' == Finished && con' == con.(closed := true)
    case Parse =>
      if good then stage' == Respond && con' == con.(refs := con.refs + 1) else stage' == Release && con' == con
    case Respond => stage' == Release && con' == con.(refs := con.refs - 1)
    case Release => stage' == Finished && con' == con.(refs := con.refs - 1)
    case Finished => false
  }

  lemma TaskTurns(s: State, k: nat, stage: Stage, con: Con, good: bool, stage': Stage, con': Con)
    requires k < |s.tasks| && s.tasks[k].con < |s.cons| && Turns(stage, good, con, stage', con')
    ensures Goes(With(s, k, stage, con), TaskGoesOn(k, good), With(s, k, stage', con'))
  {
    var now := With(s, k, stage, con);
    assert now.cons[s.tasks[k].con := con] == now.cons;
  }

  lemma AsItIs(s: State, k: nat)
    requires k < |s.tasks| && s.tasks[k].con < |s.cons|
    ensures With(s, k, s.tasks[k].stage, s.cons[s.tasks[k].con]) == s
  {
    assert Task(s.tasks[k].con, s.tasks[k].stage) == s.tasks[k];
  }

  /**
   * A task whose read brought nothing releases its connection and closes it; one that read a request answers it
   * with one more reference while it does; and one that read something else only releases.  Nothing else in the
   * table changes.
   */
  lemma TaskComesTo(s: State, k: nat)
    requires k < |s.tasks| && s.tasks[k].con < |s.cons| && s.tasks[k].stage == Read
    ensures var c, goes, fails := s.cons[s.tasks[k].con], TaskGoesOn(k, true), TaskGoesOn(k, false);
            && Possible(s, [fails, goes, goes])
            && After(s, [fails, goes, goes]) == With(s, k, Finished, c.(refs := c.refs - 1, closed := true))
            && Possible(s, [goes, fails, goes])
            && After(s, [goes, fails, goes]) == With(s, k, Finished, c.(refs := c.refs - 1))
            && Possible(s, [goes, goes])
            && After(s, [goes, goes]) == With(s, k, Respond, c.(refs := c.refs + 1))
            && Possible(After(s, [goes, goes]), [goes, goes])
            && After(After(s, [goes, goes]), [goes, goes]) == With(s, k, Finished, c.(refs := c.refs - 1))
  {
    var c, goes, fails := s.cons[s.tasks[k].con], TaskGoesOn(k, true), TaskGoesOn(k, false);
    var less, more := c.(refs := c.refs - 1), c.(refs := c.refs + 1);
    var gone := less.(closed := true);
    AsItIs(s, k);
    TaskTurns(s, k, Read, c, false, ReleaseDead, c);
    TaskTurns(s, k, ReleaseDead, c, true, CloseDead, less);
    TaskTurns(s, k, CloseDead, less, true, Finished, gone);
    TaskTurns(s, k, Read, c, true, Parse, c);
    TaskTurns(s, k, Parse, c, false, Release, c);
    TaskTurns(s, k, Parse, c, true, Respond, more);
    TaskTurns(s, k, Respond, more, true, Release, c);
    TaskTurns(s, k, Release, c, true, Finished, less);
    hide With, Goes, Possible, After;
    ThreeSteps(s, fails, With(s, k, ReleaseDead, c), goes, With(s, k, CloseDead, less), goes, With(s, k, Finished, gone));
    ThreeSteps(s, goes, With(s, k, Parse, c), fails, With(s, k, Release, c), goes, With(s, k, Finished, less));
    TwoSteps(s, goes, With(s, k, Parse, c), goes, With(s, k, Respond, more));
    TwoSteps(With(s, k, Respond, more), goes, With(s, k, Release, c), goes, With(s, k, Finished, less));
  }

  // ----- Connections that nobody uses -----

  /** Slot `i` is free again, its connection deleted once more, and sentinel `k` gone. */
  function LetGo(s: State, k: nat, i: nat, c: nat): State
    requires k < |s.sentinels| && i < |s.slots| && c < |s.cons|
  {
    s.(slots := s.slots[i := Marked(Some(c))], sentinels := s.sentinels[k := Gone],
       cons := s.cons[c := s.cons[c].(deletions := s.cons[c].deletions + 1)])
  }

  /** A sentinel that has not looked yet takes up the connection in its slot. */
  lemma SentinelLooks(s: State, k: nat, i: nat)
    requires k < |s.sentinels| && s.sentinels[k] == Starting(i) && i < |s.slots| && s.slots[i].Unmarked?
    ensures Goes(s, SentinelReads(k), s.(sentinels := s.sentinels[k := Watching(i, s.slots[i].con)]))
  {
  }

  /**
   * A sentinel that watches a connection leaves it exactly when nobody uses it and it is idle or closed: its own
   * next steps then free the slot and delete the connection.  Otherwise it goes on watching.
   */
  lemma SentinelDecides(s: State, k: nat, i: nat, c: nat, idle: bool)
    requires k < |s.sentinels| && s.sentinels[k] == Watching(i, c) && i < |s.slots| && c < |s.cons|
    ensures var steps := [SentinelTests(k, idle), SentinelMarks(k), SentinelDeletes(k)];
            if (idle || s.cons[c].closed) && s.cons[c].refs <= 0 then
              Possible(s, steps) && After(s, steps) == LetGo(s, k, i, c)
            else Goes(s, SentinelTests(k, idle), s)
  {
    if (idle || s.cons[c].closed) && s.cons[c].refs <= 0 {
      var s1 := s.(sentinels := s.sentinels[k := Leaving(i, c)]);
      var s2 := s.(sentinels := s.sentinels[k := Deleting(c)], slots := s.slots[i := Marked(Some(c))]);
      SentinelTurns(s, k, i, c, idle);
      hide Goes, LetGo;
      ThreeSteps(s, SentinelTests(k, idle), s1, SentinelMarks(k), s2, SentinelDeletes(k), LetGo(s, k, i, c));
    }
  }

  lemma SentinelTurns(s: State, k: nat, i: nat, c: nat, idle: bool)
    requires k < |s.sentinels| && s.sentinels[k] == Watching(i, c) && i < |s.slots| && c < |s.cons|
    requires (idle || s.cons[c].closed) && s.cons[c].refs <= 0
    ensures var s1 := s.(sentinels := s.sentinels[k := Leaving(i, c)]);
            var s2 := s.(sentinels := s.sentinels[k := Deleting(c)], slots := s.slots[i := Marked(Some(c))]);
            && Goes(s, SentinelTests(k, idle), s1) && Goes(s1, SentinelMarks(k), s2)
            && Goes(s2, SentinelDeletes(k), LetGo(s, k, i, c))
  {
    assert s.sentinels[k := Leaving(i, c)][k := Deleting(c)] == s.sentinels[k := Deleting(c)];
    assert s.sentinels[k := Deleting(c)][k := Gone] == s.sentinels[k := Gone];
  }

  /**
   * Nothing stays for ever: in every reachable state, from any slot whose connection is idle or closed and has no
   * task, response or hand-over outstanding, a few steps of one sentinel free the slot and delete the connection.
   */
  lemma UnusedConnectionGoes(size: nat, run: seq<Step>, i: nat, idle: bool) returns (steps: seq<Step>)
    requires Possible(Initial(size), run)
    requires var s := After(Initial(size), run);
             && i < |s.slots| && s.slots[i].Unmarked? && s.slots[i].con < |s.cons|
             && (idle || s.cons[s.slots[i].con].closed) && s.dispatching != Some(s.slots[i].con)
             && forall k :: 0 <= k < |s.tasks| && s.tasks[k].con == s.slots[i].con ==> s.tasks[k].stage in {CloseDead, Finished}
    ensures var s := After(Initial(size), run);
            var c := s.slots[i].con;
            && Possible(s, steps) && After(s, steps).slots == s.slots[i := Marked(Some(c))]
            && After(s, steps).cons == s.cons[c := s.cons[c].(deletions := 1)]
  {
    var s := After(Initial(size), run);
    var c := s.slots[i].con;
    EveryRunKeepsInv(size, run);
    RefsAreConserved(size, run, c, idle);
    hide Possible, After, NothingLeaks, RefsInv;
    var k := GuardOf(s, i);
    if s.sentinels[k].Leaving? {
      var s2 := s.(sentinels := s.sentinels[k := Deleting(c)], slots := s.slots[i := Marked(Some(c))]);
      LeavingTurns(s, k, i, c);
      hide Goes, LetGo, SlotsInv;
      TwoSteps(s, SentinelMarks(k), s2, SentinelDeletes(k), LetGo(s, k, i, c));
      steps := [SentinelMarks(k), SentinelDeletes(k)];
    } else {
      var watching := s.(sentinels := s.sentinels[k := Watching(i, c)]);
      steps := [SentinelTests(k, idle), SentinelMarks(k), SentinelDeletes(k)];
      SentinelDecides(watching, k, i, c, idle);
      assert LetGo(watching, k, i, c) == LetGo(s, k, i, c) by {
        assert watching.sentinels[k := Gone] == s.sentinels[k := Gone];
      }
      if s.sentinels[k].Starting? {
        SentinelLooks(s, k, i);
        hide Goes, LetGo, SlotsInv;
        OneStep(s, SentinelReads(k), watching, steps);
        steps := [SentinelReads(k)] + steps;
      } else {
        assert watching == s by { assert s.sentinels[k := Watching(i, c)] == s.sentinels; }
      }
    }
    LetGoIs(s, k, i, c);
  }

  /** The sentinel of a slot in use, and what it knows. */
  lemma GuardOf(s: State, i: nat) returns (k: nat)
    requires SlotsInv(s) && i < |s.slots| && s.slots[i].Unmarked?
    ensures var c := s.slots[i].con;
            && k < |s.sentinels| && s.sentinels[k] in {Starting(i), Watching(i, c), Leaving(i, c)}
            && c < |s.cons| && s.cons[c].deletions == 0
  {
    assert IsGuarded(s, i) && Alive(s, s.slots[i].con);
    k :| 0 <= k < |s.sentinels| && Guards(s.sentinels[k], i);
    assert GuardsWell(s, s.sentinels[k]);
  }

  lemma LeavingTurns(s: State, k: nat, i: nat, c: nat)
    requires k < |s.sentinels| && s.sentinels[k] == Leaving(i, c) && i < |s.slots| && c < |s.cons|
    ensures var s2 := s.(sentinels := s.sentinels[k := Deleting(c)], slots := s.slots[i := Marked(Some(c))]);
            Goes(s, SentinelMarks(k), s2) && Goes(s2, SentinelDeletes(k), LetGo(s, k, i, c))
  {
    assert s.sentinels[k := Deleting(c)][k := Gone] == s.sentinels[k := Gone];
  }

  lemma LetGoIs(s: State, k: nat, i: nat, c: nat)
    requires k < |s.sentinels| && i < |s.slots| && c < |s.cons| && s.cons[c].deletions == 0
    ensures LetGo(s, k, i, c).slots == s.slots[i := Marked(Some(c))]
    ensures LetGo(s, k, i, c).cons == s.cons[c := s.cons[c].(deletions := 1)]
  {
  }

  /** A newcomer is open and unused, in the first free slot, with a sentinel that has yet to look. */
  lemma NewcomerIsPlaced(s: State, i: nat)
    requires i < |s.slots| && s.slots[i].Marked? && forall j :: 0 <= j < i ==> s.slots[j].Unmarked?
    ensures var c := |s.cons|;
            Accepted(s) == s.(cons := s.cons + [Con(0, false, 0)], slots := s.slots[i := Unmarked(c)],
                              sentinels := s.sentinels + [Starting(i)])
  {
    FirstMarkedIs(s.slots, i);
  }

  /** An event on a slot in use takes a reference and starts a read task; on a free slot it does nothing. */
  lemma EventStartsTask(s: State, i: nat)
    requires s.dispatching.None? && i < |s.slots|
    ensures s.slots[i].Marked? ==> Goes(s, Event(i), s)
    ensures s.slots[i].Unmarked? && s.slots[i].con < |s.cons| ==>
              var c := s.slots[i].con;
              var taken := s.(cons := s.cons[c := s.cons[c].(refs := s.cons[c].refs + 1)], dispatching := Some(c));
              Goes(s, Event(i), taken) && Goes(taken, Dispatch, taken.(tasks := s.tasks + [Task(c, Read)], dispatching := None))
  {
  }
}
