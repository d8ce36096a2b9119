/**
 * The server's table of connections (include/server.hpp), with the reference counts of plain HTTP
 * connections (include/connection.hpp, src/servers/http.cpp), as interleaved steps of the event loop,
 * the sentinels and the read tasks.
 *
 * The event loop's test of a slot and the `take` that follows count as one step.  Handlers do not throw
 * and there is no thread pool for them, so the response is finished before its read task is.
 */
module Slots {
  import opened Options

  /** A pointer in the table.  Bit 63 marks a slot as free; the rest of the pointer is stale then. */
  datatype Slot = Marked(stale: Option<nat>) | Unmarked(con: nat)

  /** A connection; `deletions` counts how often it has been deleted. */
  datatype Con = Con(refs: int, closed: bool, deletions: nat)

  /** A sentinel thread, from its start to its end. */
  datatype Sentinel =
    | Starting(slot: nat)
    | Watching(slot: nat, con: nat)
    | Leaving(slot: nat, con: nat)
    | Deleting(con: nat)
    | Gone

  /** A read task: what it does next. */
  datatype Stage = Read | ReleaseDead | CloseDead | Parse | Respond | Release | Finished

  datatype Task = Task(con: nat, stage: Stage)

  /** `dispatching` is a connection that the event loop has taken but not yet handed to a task. */
  datatype State = State(slots: seq<Slot>, cons: seq<Con>, sentinels: seq<Sentinel>, dispatching: Option<nat>,
                           tasks: seq<Task>)

  datatype Step =
    | Accept
    | Event(slot: nat)
    | Dispatch
    | SentinelReads(k: nat)
    | SentinelTests(k: nat, idle: bool)
    | SentinelMarks(k: nat)
    | SentinelDeletes(k: nat)
    | TaskGoesOn(k: nat, good: bool)

  function Initial(size: nat): State {
    State(seq(size, _ => Marked(None)), [], [], None, [])
  }

  // ----- The steps -----

  /** The first slot that is free, or the size of the table. */
  function FirstMarked(slots: seq<Slot>): (i: nat)
    ensures i <= |slots| && (i < |slots| ==> slots[i].Marked?)
    ensures forall j :: 0 <= j < i ==> slots[j].Unmarked?
  {
    if slots == [] || slots[0].Marked? then 0 else 1 + FirstMarked(slots[1..])
  }

  function WithCon(s: State, c: nat, con: Con): State
    requires c < |s.cons|
  {
    s.(cons := s.cons[c := con])
  }

  function Taken(s: State, c: nat): State {
    if c < |s.cons| then WithCon(s, c, s.cons[c].(refs := s.cons[c].refs + 1)) else s
  }

  function Released(s: State, c: nat): State {
    if c < |s.cons| then WithCon(s, c, s.cons[c].(refs := s.cons[c].refs - 1)) else s
  }

  function Closed(s: State, c: nat): State {
    if c < |s.cons| then WithCon(s, c, s.cons[c].(closed := true)) else s
  }

  function Deleted(s: State, c: nat): State {
    if c < |s.cons| then WithCon(s, c, s.cons[c].(deletions := s.cons[c].deletions + 1)) else s
  }

  function WithSentinel(s: State, k: nat, t: Sentinel): State
    requires k < |s.sentinels|
  {
    s.(sentinels := s.sentinels[k := t])
  }

  function AtStage(s: State, k: nat, stage: Stage): State
    requires k < |s.tasks|
  {
    s.(tasks := s.tasks[k := s.tasks[k].(stage := stage)])
  }

  /** The sentinel's test: the connection is idle or closed, and nobody uses it. */
  predicate MayLeave(con: Con, idle: bool) {
    (idle && con.refs <= 0) || (con.closed && con.refs <= 0)
  }

  predicate Enabled(s: State, a: Step) {
    match a
    case Accept => s.dispatching.None?
    case Event(slot) => s.dispatching.None? && slot < |s.slots|
    case Dispatch => s.dispatching.Some?
    case SentinelReads(k) => k < |s.sentinels| && s.sentinels[k].Starting?
    case SentinelTests(k, _) => k < |s.sentinels| && s.sentinels[k].Watching?
    case SentinelMarks(k) => k < |s.sentinels| && s.sentinels[k].Leaving?
    case SentinelDeletes(k) => k < |s.sentinels| && s.sentinels[k].Deleting?
    case TaskGoesOn(k, _) => k < |s.tasks| && s.tasks[k].stage != Finished
  }

  function Act(s: State, a: Step): State
    requires Enabled(s, a)
  {
    match a
    case Accept => Accepted(s)
    case Event(slot) =>
      if s.slots[slot].Marked? then s else Taken(s, s.slots[slot].con).(dispatching := Some(s.slots[slot].con))
    case Dispatch => s.(tasks := s.tasks + [Task(s.dispatching.value, Read)], dispatching := None)
    case SentinelReads(k) => SentinelRead(s, k)
    case SentinelTests(k, idle) =>
      var t := s.sentinels[k];
      if t.con < |s.cons| && MayLeave(s.cons[t.con], idle) then WithSentinel(s, k, Leaving(t.slot, t.con)) else s
    case SentinelMarks(k) => SentinelMarked(s, k)
    case SentinelDeletes(k) => WithSentinel(Deleted(s, s.sentinels[k].con), k, Gone)
    case TaskGoesOn(k, good) => TaskStep(s, k, good)
  }

  /** A new connection gets the first free slot and a sentinel; when the table is full, it is deleted at once. */
  function Accepted(s: State): State {
    var c, i := |s.cons|, FirstMarked(s.slots);
    if i == |s.slots| then s.(cons := s.cons + [Con(0, false, 1)])
    else
      s.(cons := s.cons + [Con(0, false, 0)], slots := s.slots[i := Unmarked(c)],
         sentinels := s.sentinels + [Starting(i)])
  }

  function SentinelRead(s: State, k: nat): State
    requires k < |s.sentinels| && s.sentinels[k].Starting?
  {
    var i := s.sentinels[k].slot;
    if i < |s.slots| && s.slots[i].Unmarked? then WithSentinel(s, k, Watching(i, s.slots[i].con)) else s
  }

  function SentinelMarked(s: State, k: nat): State
    requires k < |s.sentinels| && s.sentinels[k].Leaving?
  {
    var t := s.sentinels[k];
    var s' := WithSentinel(s, k, Deleting(t.con));
    if t.slot < |s.slots| then s'.(slots := s.slots[t.slot := Marked(Some(t.con))]) else s'
  }

  /** `good` says whether the read brought bytes, or whether they parsed. */
  function TaskStep(s: State, k: nat, good: bool): State
    requires k < |s.tasks|
  {
    var c := s.tasks[k].con;
    match s.tasks[k].stage
    case Read => AtStage(s, k, if good then Parse else ReleaseDead)
    case ReleaseDead => AtStage(Released(s, c), k, CloseDead)
    case CloseDead => AtStage(Closed(s, c), k, Finished)
    case Parse => if good then AtStage(Taken(s, c), k, Respond) else AtStage(s, k, Release)
    case Respond => AtStage(Released(s, c), k, Release)
    case Release => AtStage(Released(s, c), k, Finished)
    case Finished => s
  }

  ghost predicate Possible(s: State, steps: seq<Step>)
    decreases |steps|
  {
    steps != [] ==> Enabled(s, steps[0]) && Possible(Act(s, steps[0]), steps[1..])
  }

  ghost function After(s: State, steps: seq<Step>): State
    requires Possible(s, steps)
    decreases |steps|
  {
    if steps == [] then s else After(Act(s, steps[0]), steps[1..])
  }

  // ----- Slots and sentinels -----

  /** The slot that a sentinel has not yet marked as free. */
  predicate Guards(t: Sentinel, i: nat) {
    (t.Starting? || t.Watching? || t.Leaving?) && t.slot == i
  }

  /** A guarding sentinel stands by an unmarked slot, and knows the connection in it once it has looked. */
  ghost predicate GuardsWell(s: State, t: Sentinel) {
    (t.Starting? || t.Watching? || t.Leaving?) ==>
      && t.slot < |s.slots| && s.slots[t.slot].Unmarked?
      && (t.Watching? || t.Leaving? ==> s.slots[t.slot].con == t.con)
  }

  ghost predicate SentinelsGuard(s: State) {
    && (forall k :: 0 <= k < |s.sentinels| ==> GuardsWell(s, s.sentinels[k]))
    && OneEach(s.sentinels)
    && (forall i :: 0 <= i < |s.slots| && s.slots[i].Unmarked? ==> IsGuarded(s, i))
  }

  ghost predicate IsGuarded(s: State, i: nat) {
    exists k :: 0 <= k < |s.sentinels| && Guards(s.sentinels[k], i)
  }

  /** A connection is in one slot, or about to be deleted by one sentinel, or deleted. */
  ghost predicate OneOwner(s: State) {
    && (forall i :: 0 <= i < |s.slots| && s.slots[i].Unmarked? ==> Alive(s, s.slots[i].con))
    && (forall k :: 0 <= k < |s.sentinels| && s.sentinels[k].Deleting? ==> Alive(s, s.sentinels[k].con))
    && OneSlotEach(s.slots) && OneDeletionEach(s.sentinels)
    && forall i, k :: 0 <= i < |s.slots| && 0 <= k < |s.sentinels| && s.sentinels[k].Deleting? ==>
         s.slots[i] != Unmarked(s.sentinels[k].con)
  }

  /** No two sentinels guard the same slot. */
  ghost predicate OneEach(sentinels: seq<Sentinel>) {
    forall k, l, i: nat ::
      0 <= k < |sentinels| && 0 <= l < |sentinels| && Guards(sentinels[k], i) && Guards(sentinels[l], i) ==> k == l
  }

  /** No connection is in two slots. */
  ghost predicate OneSlotEach(slots: seq<Slot>) {
    forall i, j :: 0 <= i < j < |slots| && slots[i].Unmarked? ==> slots[i] != slots[j]
  }

  /** No connection is about to be deleted by two sentinels. */
  ghost predicate OneDeletionEach(sentinels: seq<Sentinel>) {
    forall k, l :: 0 <= k < l < |sentinels| && sentinels[k].Deleting? ==> sentinels[k] != sentinels[l]
  }

  predicate Alive(s: State, c: nat) {
    c < |s.cons| && s.cons[c].deletions == 0
  }

  ghost predicate DeletedOnce(s: State) {
    forall c :: 0 <= c < |s.cons| ==> s.cons[c].deletions <= 1
  }

  ghost predicate SlotsInv(s: State) {
    SentinelsGuard(s) && OneOwner(s) && DeletedOnce(s)
  }

  /** Steps that leave slots and sentinels alone, and delete nothing. */
  ghost predicate SameTable(s: State, s': State) {
    && s'.slots == s.slots && s'.sentinels == s.sentinels && |s'.cons| == |s.cons|
    && forall c :: 0 <= c < |s.cons| ==> s'.cons[c].deletions == s.cons[c].deletions
  }

  lemma SameTableKeeps(s: State, s': State)
    requires SlotsInv(s) && SameTable(s, s')
    ensures SlotsInv(s')
  {
    assert forall c :: Alive(s', c) <==> Alive(s, c);
    forall i | 0 <= i < |s'.slots| && s'.slots[i].Unmarked? ensures IsGuarded(s', i) {
      assert IsGuarded(s, i);
    }
  }

  lemma AcceptKeepsSlots(s: State)
    requires SlotsInv(s)
    ensures SlotsInv(Accepted(s))
  {
    hide FirstMarked;
    var s', i := Accepted(s), FirstMarked(s.slots);
    assert forall c :: Alive(s, c) ==> Alive(s', c);
    if i < |s.slots| {
      assert forall k :: 0 <= k < |s.sentinels| ==> !Guards(s.sentinels[k], i);
      forall j | 0 <= j < |s'.slots| && s'.slots[j].Unmarked? ensures IsGuarded(s', j) {
        if j == i {
          assert Guards(s'.sentinels[|s.sentinels|], i);
        } else {
          assert IsGuarded(s, j);
          var k :| 0 <= k < |s.sentinels| && Guards(s.sentinels[k], j);
          assert s'.sentinels[k] == s.sentinels[k];
        }
      }
    } else {
      forall j | 0 <= j < |s'.slots| && s'.slots[j].Unmarked? ensures IsGuarded(s', j) {
        assert IsGuarded(s, j);
      }
    }
  }

  /** A sentinel that goes on watching its slot, or begins to, or decides to leave. */
  lemma SentinelAdvances(s: State, k: nat, t: Sentinel)
    requires SlotsInv(s) && k < |s.sentinels| && GuardsWell(s, t)
    requires exists i :: Guards(s.sentinels[k], i) && Guards(t, i)
    ensures SlotsInv(WithSentinel(s, k, t))
  {
    var s' := WithSentinel(s, k, t);
    assert forall c :: Alive(s', c) <==> Alive(s, c);
    assert forall l, i :: 0 <= l < |s.sentinels| ==> (Guards(s'.sentinels[l], i) <==> Guards(s.sentinels[l], i));
    forall i | 0 <= i < |s'.slots| && s'.slots[i].Unmarked? ensures IsGuarded(s', i) {
      assert IsGuarded(s, i);
      var l :| 0 <= l < |s.sentinels| && Guards(s.sentinels[l], i);
      assert Guards(s'.sentinels[l], i);
    }
  }

  lemma MarkKeepsSlots(s: State, k: nat)
    requires SlotsInv(s) && k < |s.sentinels| && s.sentinels[k].Leaving?
    ensures SlotsInv(SentinelMarked(s, k))
  {
    var s', t := SentinelMarked(s, k), s.sentinels[k];
    assert GuardsWell(s, t) && Guards(t, t.slot);
    assert forall c :: Alive(s', c) <==> Alive(s, c);
    forall i | 0 <= i < |s'.slots| && s'.slots[i].Unmarked? ensures IsGuarded(s', i) {
      assert IsGuarded(s, i);
      var l :| 0 <= l < |s.sentinels| && Guards(s.sentinels[l], i);
      assert Guards(s'.sentinels[l], i);
    }
  }

  lemma DeleteKeepsSlots(s: State, k: nat)
    requires SlotsInv(s) && k < |s.sentinels| && s.sentinels[k].Deleting?
    ensures SlotsInv(WithSentinel(Deleted(s, s.sentinels[k].con), k, Gone))
  {
    var c := s.sentinels[k].con;
    var s' := WithSentinel(Deleted(s, c), k, Gone);
    assert Alive(s, c);
    assert forall d :: d != c ==> (Alive(s', d) <==> Alive(s, d));
    forall i | 0 <= i < |s'.slots| && s'.slots[i].Unmarked? ensures IsGuarded(s', i) {
      assert IsGuarded(s, i);
      var l :| 0 <= l < |s.sentinels| && Guards(s.sentinels[l], i);
      assert Guards(s'.sentinels[l], i);
    }
  }

  lemma StepKeepsSlots(s: State, a: Step)
    requires SlotsInv(s) && Enabled(s, a)
    ensures SlotsInv(Act(s, a))
  {
    hide SlotsInv;
    match a
    case Accept => AcceptKeepsSlots(s);
    case Event(_) => SameTableKeeps(s, Act(s, a));
    case Dispatch => SameTableKeeps(s, Act(s, a));
    case SentinelReads(k) => SentinelReadsKeeps(s, k);
    case SentinelTests(k, idle) => SentinelTestsKeeps(s, k, idle);
    case SentinelMarks(k) => MarkKeepsSlots(s, k);
    case SentinelDeletes(k) => DeleteKeepsSlots(s, k);
    case TaskGoesOn(_, _) => SameTableKeeps(s, Act(s, a));
  }

  lemma SentinelReadsKeeps(s: State, k: nat)
    requires SlotsInv(s) && k < |s.sentinels| && s.sentinels[k].Starting?
    ensures SlotsInv(SentinelRead(s, k))
  {
    var i := s.sentinels[k].slot;
    assert GuardsWell(s, s.sentinels[k]) && Guards(s.sentinels[k], i);
    var t := Watching(i, s.slots[i].con);
    assert Guards(t, i);
    hide SlotsInv;
    SentinelAdvances(s, k, t);
  }

  lemma SentinelTestsKeeps(s: State, k: nat, idle: bool)
    requires SlotsInv(s) && Enabled(s, SentinelTests(k, idle))
    ensures SlotsInv(Act(s, SentinelTests(k, idle)))
  {
    var t := s.sentinels[k];
    assert GuardsWell(s, t) && Guards(t, t.slot);
    var t' := Leaving(t.slot, t.con);
    assert Guards(t', t.slot);
    hide SlotsInv;
    if Act(s, SentinelTests(k, idle)) != s { SentinelAdvances(s, k, t'); }
  }

  // ----- Nothing leaks -----

  /** Somebody is still to delete the connection: the guard of its slot, or a sentinel on its way out. */
  ghost predicate Owned(s: State, c: nat) {
    Unmarked(c) in s.slots || Deleting(c) in s.sentinels
  }

  ghost predicate NothingLeaks(s: State) {
    forall c: nat :: Alive(s, c) ==> Owned(s, c)
  }

  lemma StepLeaksNothing(s: State, a: Step)
    requires SlotsInv(s) && NothingLeaks(s) && Enabled(s, a)
    ensures NothingLeaks(Act(s, a))
  {
    var s' := Act(s, a);
    forall c: nat | Alive(s', c) ensures Owned(s', c) {
      if c < |s.cons| {
        assert Alive(s, c);
        StillOwned(s, a, c);
      } else {
        assert s'.slots[FirstMarked(s.slots)] == Unmarked(c);
      }
    }
  }

  lemma StillOwned(s: State, a: Step, c: nat)
    requires SlotsInv(s) && Owned(s, c) && Alive(s, c) && Enabled(s, a) && Alive(Act(s, a), c)
    ensures Owned(Act(s, a), c)
  {
    hide OneOwner, IsGuarded;
    var s' := Act(s, a);
    if Unmarked(c) in s.slots {
      var i :| 0 <= i < |s.slots| && s.slots[i] == Unmarked(c);
      if s'.slots[i] != s.slots[i] {
        assert GuardsWell(s, s.sentinels[a.k]);
        assert s'.sentinels[a.k] == Deleting(c);
      }
    } else {
      var k :| 0 <= k < |s.sentinels| && s.sentinels[k] == Deleting(c);
      assert s'.sentinels[k] == s.sentinels[k];
    }
  }

  // ----- Reference counts -----

  /** The references that a task holds: its own, and its response's while that is unfinished. */
  function Weight(t: Task, c: nat): nat {
    if t.con != c then 0
    else
      match t.stage
      case Read => 1
      case ReleaseDead => 1
      case CloseDead => 0
      case Parse => 1
      case Respond => 2
      case Release => 1
      case Finished => 0
  }

  function Outstanding(tasks: seq<Task>, c: nat): nat {
    if tasks == [] then 0 else Outstanding(tasks[..|tasks| - 1], c) + Weight(tasks[|tasks| - 1], c)
  }

  function InHand(s: State, c: nat): nat {
    if s.dispatching == Some(c) then 1 else 0
  }

  ghost predicate Counted(s: State) {
    forall c :: 0 <= c < |s.cons| ==> s.cons[c].refs == Outstanding(s.tasks, c) + InHand(s, c)
  }

  /** Tasks and the event loop know only connections that exist. */
  ghost predicate Known(s: State) {
    && (forall k :: 0 <= k < |s.tasks| ==> s.tasks[k].con < |s.cons|)
    && (s.dispatching.Some? ==> s.dispatching.value < |s.cons|)
  }

  ghost predicate RefsInv(s: State) {
    Counted(s) && Known(s)
  }

  lemma {:induction false} OutstandingUpdate(tasks: seq<Task>, k: nat, t: Task, c: nat)
    requires k < |tasks|
    ensures Outstanding(tasks[k := t], c) == Outstanding(tasks, c) - Weight(tasks[k], c) + Weight(t, c)
  {
    hide Weight;
    var n := |tasks| - 1;
    if k == n {
      assert tasks[k := t][..n] == tasks[..n];
    } else {
      assert tasks[k := t][..n] == tasks[..n][k := t];
      OutstandingUpdate(tasks[..n], k, t, c);
    }
  }

  lemma {:induction false} NoneOutstanding(tasks: seq<Task>, c: nat)
    requires forall k :: 0 <= k < |tasks| ==> tasks[k].con != c
    ensures Outstanding(tasks, c) == 0
  {
    if tasks != [] { NoneOutstanding(tasks[..|tasks| - 1], c); }
  }

  lemma AcceptKeepsRefs(s: State)
    requires RefsInv(s)
    ensures RefsInv(Accepted(s))
  {
    hide Outstanding;
    NoneOutstanding(s.tasks, |s.cons|);
  }

  lemma DispatchKeepsRefs(s: State)
    requires RefsInv(s) && s.dispatching.Some?
    ensures RefsInv(Act(s, Dispatch))
  {
    var s', t := Act(s, Dispatch), Task(s.dispatching.value, Read);
    assert s'.tasks[..|s.tasks|] == s.tasks;
    assert forall c :: Outstanding(s'.tasks, c) == Outstanding(s.tasks, c) + Weight(t, c);
    hide Outstanding;
  }

  /** A task's step changes the count of a connection as it changes what the task holds of it. */
  lemma TaskMovesRefs(s: State, k: nat, good: bool, c: nat)
    requires k < |s.tasks| && s.tasks[k].con < |s.cons| && c < |s.cons|
    ensures var s' := TaskStep(s, k, good);
            && |s'.cons| == |s.cons| && |s'.tasks| == |s.tasks| && s'.tasks[k].con == s.tasks[k].con
            && s'.dispatching == s.dispatching && s'.tasks == s.tasks[k := s'.tasks[k]]
            && s'.cons[c].refs == s.cons[c].refs - Weight(s.tasks[k], c) + Weight(s'.tasks[k], c)
  {
  }

  lemma TaskKeepsRefs(s: State, k: nat, good: bool)
    requires RefsInv(s) && k < |s.tasks|
    ensures RefsInv(TaskStep(s, k, good))
  {
    TaskMovesRefs(s, k, good, s.tasks[k].con);
    hide Outstanding, TaskStep;
    var s' := TaskStep(s, k, good);
    forall c | 0 <= c < |s'.cons| ensures s'.cons[c].refs == Outstanding(s'.tasks, c) + InHand(s', c) {
      TaskMovesRefs(s, k, good, c);
      OutstandingUpdate(s.tasks, k, s'.tasks[k], c);
    }
  }

  lemma StepKeepsRefs(s: State, a: Step)
    requires RefsInv(s) && SlotsInv(s) && Enabled(s, a)
    ensures RefsInv(Act(s, a))
  {
    hide Outstanding, FirstMarked, SentinelsGuard, DeletedOnce, MayLeave;
    match a
    case Accept => AcceptKeepsRefs(s);
    case Event(slot) => if s.slots[slot].Unmarked? { assert Alive(s, s.slots[slot].con); }
    case Dispatch => DispatchKeepsRefs(s);
    case TaskGoesOn(k, good) => TaskKeepsRefs(s, k, good);
    case _ =>
  }

  // ----- Every run -----

  ghost predicate Inv(s: State) {
    SlotsInv(s) && RefsInv(s) && NothingLeaks(s)
  }

  lemma {:induction false} RunKeepsInv(s: State, steps: seq<Step>)
    requires Inv(s) && Possible(s, steps)
    ensures Inv(After(s, steps))
    decreases |steps|
  {
    hide SlotsInv, RefsInv, NothingLeaks, Enabled, Act;
    if steps != [] {
      StepKeepsSlots(s, steps[0]);
      StepKeepsRefs(s, steps[0]);
      StepLeaksNothing(s, steps[0]);
      RunKeepsInv(Act(s, steps[0]), steps[1..]);
    }
  }

  lemma EveryRunKeepsInv(size: nat, steps: seq<Step>)
    requires Possible(Initial(size), steps)
    ensures Inv(After(Initial(size), steps))
  {
    assert Inv(Initial(size));
    RunKeepsInv(Initial(size), steps);
  }

  /**
   * In every reachable state, an unmarked slot holds a connection that has not been deleted, in no other
   * slot, and exactly one sentinel guards it; no connection is ever deleted twice; and one not yet deleted
   * has a sentinel that will do so.
   */
  lemma SlotsAreSafe(size: nat, steps: seq<Step>)
    requires Possible(Initial(size), steps)
    ensures var s := After(Initial(size), steps);
            && (forall i :: 0 <= i < |s.slots| && s.slots[i].Unmarked? ==>
                  && Alive(s, s.slots[i].con)
                  && (exists k :: 0 <= k < |s.sentinels| && Guards(s.sentinels[k], i)
                                  && forall l :: 0 <= l < |s.sentinels| && Guards(s.sentinels[l], i) ==> l == k))
            && (forall i, j :: 0 <= i < j < |s.slots| && s.slots[i].Unmarked? && s.slots[j].Unmarked? ==>
                  s.slots[i].con != s.slots[j].con)
            && (forall c :: 0 <= c < |s.cons| ==>
                  && s.cons[c].deletions <= 1
                  && (s.cons[c].deletions == 0 <==> Owned(s, c)))
  {
    EveryRunKeepsInv(size, steps);
    hide After, Possible, RefsInv;
    var s := After(Initial(size), steps);
    forall i | 0 <= i < |s.slots| && s.slots[i].Unmarked?
      ensures exists k :: 0 <= k < |s.sentinels| && Guards(s.sentinels[k], i)
                          && forall l :: 0 <= l < |s.sentinels| && Guards(s.sentinels[l], i) ==> l == k
    {
      assert IsGuarded(s, i);
    }
  }

  /** Accepting a connection leaves every slot in use as it was, and deletes the newcomer exactly if none is free. */
  lemma AcceptOverwritesNothing(s: State)
    requires SlotsInv(s)
    ensures var s' := Accepted(s);
            && (forall i :: 0 <= i < |s.slots| && s.slots[i].Unmarked? ==> s'.slots[i] == s.slots[i])
            && (Alive(s', |s.cons|) <==> exists i :: 0 <= i < |s.slots| && s.slots[i].Marked?)
            && (Alive(s', |s.cons|) <==> Unmarked(|s.cons|) in s'.slots)
  {
    var s', i := Accepted(s), FirstMarked(s.slots);
    if i < |s.slots| {
      assert s'.slots[i] == Unmarked(|s.cons|);
    } else {
      assert forall j :: 0 <= j < |s.slots| && s.slots[j].Unmarked? ==> Alive(s, s.slots[j].con);
    }
  }

  /**
   * In every reachable state the count of a connection is the number of its read tasks that have not
   * released it, plus its unfinished responses, plus one while the event loop is handing it over.  So a
   * sentinel's test passes exactly when the connection is idle or closed and nothing is outstanding.
   */
  lemma RefsAreConserved(size: nat, steps: seq<Step>, c: nat, idle: bool)
    requires Possible(Initial(size), steps) && c < |After(Initial(size), steps).cons|
    ensures var s := After(Initial(size), steps);
            && s.cons[c].refs == Outstanding(s.tasks, c) + InHand(s, c)
            && (MayLeave(s.cons[c], idle) <==>
                (idle || s.cons[c].closed) && s.dispatching != Some(c)
                && forall k :: 0 <= k < |s.tasks| && s.tasks[k].con == c ==> s.tasks[k].stage in {CloseDead, Finished})
  {
    EveryRunKeepsInv(size, steps);
    hide After, Possible, SlotsInv;
    var s := After(Initial(size), steps);
    NothingOutstanding(s.tasks, c);
  }

  lemma {:induction false} NothingOutstanding(tasks: seq<Task>, c: nat)
    ensures Outstanding(tasks, c) == 0 <==>
            forall k :: 0 <= k < |tasks| && tasks[k].con == c ==> tasks[k].stage in {CloseDead, Finished}
  {
    if tasks != [] {
      var n := |tasks| - 1;
      NothingOutstanding(tasks[..n], c);
      assert forall k :: 0 <= k < n ==> tasks[..n][k] == tasks[k];
    }
  }

  // ----- Deletion while in use -----

  /**
   * The event loop does not take a connection whose sentinel has just passed its test: the step that the
   * source does not exclude.
   */
  ghost predicate Careful(s: State, a: Step) {
    a.Event? && a.slot < |s.slots| ==>
      forall k :: 0 <= k < |s.sentinels| && s.sentinels[k].Leaving? ==> s.sentinels[k].slot != a.slot
  }

  ghost predicate CarefulRun(s: State, steps: seq<Step>)
    requires Possible(s, steps)
    decreases |steps|
  {
    steps != [] ==> Careful(s, steps[0]) && CarefulRun(Act(s, steps[0]), steps[1..])
  }

  predicate Unused(s: State, c: nat) {
    c < |s.cons| ==> s.cons[c].refs == 0
  }

  /** Nobody has a reference to a connection that is being let go, or gone. */
  ghost predicate LetGoUnused(s: State) {
    && (forall k :: 0 <= k < |s.sentinels| && (s.sentinels[k].Leaving? || s.sentinels[k].Deleting?) ==>
          Unused(s, s.sentinels[k].con))
    && (forall c :: 0 <= c < |s.cons| && s.cons[c].deletions > 0 ==> s.cons[c].refs == 0)
  }

  /** A task that holds a reference is counted. */
  lemma {:induction false} WeightIsCounted(tasks: seq<Task>, k: nat, c: nat)
    requires k < |tasks|
    ensures Weight(tasks[k], c) <= Outstanding(tasks, c)
  {
    hide Weight;
    if k < |tasks| - 1 { WeightIsCounted(tasks[..|tasks| - 1], k, c); }
  }

  lemma StepKeepsLetGo(s: State, a: Step)
    requires SlotsInv(s) && RefsInv(s) && LetGoUnused(s) && Enabled(s, a) && Careful(s, a)
    ensures LetGoUnused(Act(s, a))
  {
    hide Outstanding, FirstMarked, IsGuarded, DeletedOnce;
    var s' := Act(s, a);
    match a
    case Event(i) => if s.slots[i].Unmarked? { EventKeepsLetGo(s, i); }
    case TaskGoesOn(k, good) => TaskKeepsLetGo(s, k, good);
    case SentinelTests(k, idle) =>
    case SentinelDeletes(k) =>
    case _ => assert forall c :: 0 <= c < |s.cons| ==> s'.cons[c] == s.cons[c];
  }

  lemma EventKeepsLetGo(s: State, i: nat)
    requires SlotsInv(s) && LetGoUnused(s) && Enabled(s, Event(i)) && Careful(s, Event(i)) && s.slots[i].Unmarked?
    ensures LetGoUnused(Act(s, Event(i)))
  {
    hide IsGuarded, DeletedOnce;
    var s', c := Act(s, Event(i)), s.slots[i].con;
    assert Alive(s, c);
    assert forall d :: 0 <= d < |s.cons| && d != c ==> s'.cons[d] == s.cons[d];
    forall k | 0 <= k < |s.sentinels| && (s.sentinels[k].Leaving? || s.sentinels[k].Deleting?)
      ensures s.sentinels[k].con != c
    {
      assert GuardsWell(s, s.sentinels[k]);
    }
  }

  lemma TaskKeepsLetGo(s: State, k: nat, good: bool)
    requires RefsInv(s) && LetGoUnused(s) && k < |s.tasks|
    ensures LetGoUnused(TaskStep(s, k, good))
  {
    hide Outstanding;
    var c, s' := s.tasks[k].con, TaskStep(s, k, good);
    WeightIsCounted(s.tasks, k, c);
    assert forall d :: 0 <= d < |s.cons| && d != c ==> s'.cons[d] == s.cons[d];
  }

  lemma {:induction false} CarefulRunKeepsLetGo(s: State, steps: seq<Step>)
    requires Inv(s) && LetGoUnused(s) && Possible(s, steps) && CarefulRun(s, steps)
    ensures LetGoUnused(After(s, steps))
    decreases |steps|
  {
    hide SlotsInv, RefsInv, NothingLeaks, Enabled, Act, LetGoUnused, Careful;
    if steps != [] {
      StepKeepsSlots(s, steps[0]);
      StepKeepsRefs(s, steps[0]);
      StepLeaksNothing(s, steps[0]);
      StepKeepsLetGo(s, steps[0]);
      CarefulRunKeepsLetGo(Act(s, steps[0]), steps[1..]);
    }
  }

  /**
   * In a run whose event loop is careful, a connection that has been deleted is used by nobody: the only
   * tasks that may still be about to touch it are those that close it after they have released it.
   */
  lemma CarefulRunsDeleteNothingInUse(size: nat, steps: seq<Step>, c: nat)
    requires Possible(Initial(size), steps) && CarefulRun(Initial(size), steps)
    requires c < |After(Initial(size), steps).cons| && After(Initial(size), steps).cons[c].deletions > 0
    ensures var s := After(Initial(size), steps);
            && s.dispatching != Some(c)
            && forall k :: 0 <= k < |s.tasks| && s.tasks[k].con == c ==> s.tasks[k].stage in {CloseDead, Finished}
  {
    assert Inv(Initial(size)) && LetGoUnused(Initial(size));
    EveryRunKeepsInv(size, steps);
    CarefulRunKeepsLetGo(Initial(size), steps);
    hide After, Possible, SlotsInv;
    NothingOutstanding(After(Initial(size), steps).tasks, c);
  }

  /**
   * Carelessness is enough: from any reachable state, an event on a slot whose sentinel has passed its test
   * leads, by that sentinel's own next steps, to a deleted connection that the event loop holds.
   */
  lemma CarelessEventDeletesInUse(size: nat, steps: seq<Step>, i: nat, k: nat)
    requires Possible(Initial(size), steps)
    requires var s := After(Initial(size), steps);
             Enabled(s, Event(i)) && k < |s.sentinels| && s.sentinels[k].Leaving? && s.sentinels[k].slot == i
    ensures var s := After(Initial(size), steps);
            var s1 := Act(s, Event(i));
            && Enabled(s1, SentinelMarks(k))
            && var s2 := Act(s1, SentinelMarks(k));
            && Enabled(s2, SentinelDeletes(k))
            && var s3, c := Act(s2, SentinelDeletes(k)), s.sentinels[k].con;
            c < |s3.cons| && s3.cons[c].deletions == 1 && s3.dispatching == Some(c)
  {
    EveryRunKeepsInv(size, steps);
    hide After, Possible, RefsInv, NothingLeaks, IsGuarded;
    var s := After(Initial(size), steps);
    assert GuardsWell(s, s.sentinels[k]) && Alive(s, s.slots[i].con);
  }

  /** A connection read by a task, while sentinel and task stand as given. */
  function OneConnection(con: Con, sentinel: Sentinel, stage: Stage): State {
    State([if sentinel.Deleting? || sentinel.Gone? then Marked(Some(0)) else Unmarked(0)], [con], [sentinel], None,
          [Task(0, stage)])
  }

  /**
   * A run, careful all along, that deletes a connection between the two statements of a task that found it
   * dead: it releases the connection and then closes it.
   */
  lemma DeletedBeforeClosed()
    ensures var before, after := [Accept, SentinelReads(0), Event(0), Dispatch], [TaskGoesOn(0, false), TaskGoesOn(0, true)];
            var steps := before + (after + [SentinelTests(0, true), SentinelMarks(0), SentinelDeletes(0)]);
            Possible(Initial(1), steps) && CarefulRun(Initial(1), steps)
            && After(Initial(1), steps) == OneConnection(Con(0, false, 1), Gone, CloseDead)
  {
    var after, last := [TaskGoesOn(0, false), TaskGoesOn(0, true)], [SentinelTests(0, true), SentinelMarks(0), SentinelDeletes(0)];
    LetGo();
    FoundDead(last);
    Accepting(after + last);
  }

  lemma Accepting(rest: seq<Step>)
    requires var s := OneConnection(Con(1, false, 0), Watching(0, 0), Read); Possible(s, rest) && CarefulRun(s, rest)
    ensures var steps := [Accept, SentinelReads(0), Event(0), Dispatch] + rest;
            Possible(Initial(1), steps) && CarefulRun(Initial(1), steps)
            && After(Initial(1), steps) == After(OneConnection(Con(1, false, 0), Watching(0, 0), Read), rest)
  {
    var s0 := State([Marked(None)], [], [], None, []);
    assert Initial(1) == s0;
    var s1 := State([Unmarked(0)], [Con(0, false, 0)], [Starting(0)], None, []);
    var s2 := s1.(sentinels := [Watching(0, 0)]);
    var s3 := s2.(cons := [Con(1, false, 0)], dispatching := Some(0));
    var s4 := OneConnection(Con(1, false, 0), Watching(0, 0), Read);
    assert Act(s0, Accept) == s1 && Act(s1, SentinelReads(0)) == s2 && Act(s2, Event(0)) == s3 && Act(s3, Dispatch) == s4;
    hide Act, Possible, CarefulRun, After;
    Alone(s3, s4, Dispatch, rest);
    Alone(s2, s3, Event(0), [Dispatch] + rest);
    Alone(s1, s2, SentinelReads(0), [Event(0)] + ([Dispatch] + rest));
    Alone(s0, s1, Accept, [SentinelReads(0)] + ([Event(0)] + ([Dispatch] + rest)));
    assert [Accept, SentinelReads(0), Event(0), Dispatch] + rest
           == [Accept] + ([SentinelReads(0)] + ([Event(0)] + ([Dispatch] + rest)));
  }

  lemma FoundDead(rest: seq<Step>)
    requires var s := OneConnection(Con(0, false, 0), Watching(0, 0), CloseDead); Possible(s, rest) && CarefulRun(s, rest)
    ensures var s, steps := OneConnection(Con(1, false, 0), Watching(0, 0), Read),
                            [TaskGoesOn(0, false), TaskGoesOn(0, true)] + rest;
            Possible(s, steps) && CarefulRun(s, steps)
            && After(s, steps) == After(OneConnection(Con(0, false, 0), Watching(0, 0), CloseDead), rest)
  {
    var s4 := OneConnection(Con(1, false, 0), Watching(0, 0), Read);
    var s5 := OneConnection(Con(1, false, 0), Watching(0, 0), ReleaseDead);
    var s6 := OneConnection(Con(0, false, 0), Watching(0, 0), CloseDead);
    assert Act(s4, TaskGoesOn(0, false)) == s5 && Act(s5, TaskGoesOn(0, true)) == s6;
    hide Act, Possible, CarefulRun, After;
    Alone(s5, s6, TaskGoesOn(0, true), rest);
    Alone(s4, s5, TaskGoesOn(0, false), [TaskGoesOn(0, true)] + rest);
    assert [TaskGoesOn(0, false), TaskGoesOn(0, true)] + rest == [TaskGoesOn(0, false)] + ([TaskGoesOn(0, true)] + rest);
  }

  lemma LetGo()
    ensures var s, steps := OneConnection(Con(0, false, 0), Watching(0, 0), CloseDead),
                            [SentinelTests(0, true), SentinelMarks(0), SentinelDeletes(0)];
            Possible(s, steps) && CarefulRun(s, steps)
            && After(s, steps) == OneConnection(Con(0, false, 1), Gone, CloseDead)
  {
    var s6 := OneConnection(Con(0, false, 0), Watching(0, 0), CloseDead);
    var s7 := OneConnection(Con(0, false, 0), Leaving(0, 0), CloseDead);
    var s8 := OneConnection(Con(0, false, 0), Deleting(0), CloseDead);
    var s9 := OneConnection(Con(0, false, 1), Gone, CloseDead);
    assert Act(s6, SentinelTests(0, true)) == s7 && Act(s7, SentinelMarks(0)) == s8 && Act(s8, SentinelDeletes(0)) == s9;
    hide Act;
    Alone(s8, s9, SentinelDeletes(0), []);
    hide Possible, CarefulRun, After;
    assert [SentinelDeletes(0)] + [] == [SentinelDeletes(0)];
    Alone(s7, s8, SentinelMarks(0), [SentinelDeletes(0)]);
    Alone(s6, s7, SentinelTests(0, true), [SentinelMarks(0)] + [SentinelDeletes(0)]);
    assert [SentinelTests(0, true), SentinelMarks(0), SentinelDeletes(0)]
           == [SentinelTests(0, true)] + ([SentinelMarks(0)] + [SentinelDeletes(0)]);
  }

  /** One step before a run. */
  lemma Alone(s: State, s': State, a: Step, rest: seq<Step>)
    requires Enabled(s, a) && Act(s, a) == s' && Careful(s, a) && Possible(s', rest) && CarefulRun(s', rest)
    ensures Possible(s, [a] + rest) && CarefulRun(s, [a] + rest) && After(s, [a] + rest) == After(s', rest)
  {
    hide Enabled, Act, Careful;
    assert ([a] + rest)[1..] == rest;
  }

  // ----- The event loop -----

  class Server {
    var slots: seq<Slot>
    var cons: seq<Con>
    var sentinels: seq<Sentinel>
    var dispatching: Option<nat>
    var tasks: seq<Task>

    constructor (size: nat)
      ensures Now() == Initial(size)
    {
      slots := seq(size, _ => Marked(None));
      cons, sentinels, dispatching, tasks := [], [], None, [];
    }

    function Now(): State
      reads this
    {
      State(slots, cons, sentinels, dispatching, tasks)
    }

    /** A client has connected. */
    method OnAccept()
      requires dispatching.None?
      modifies this
      ensures Now() == Act(old(Now()), Accept)
    {
      var con := |cons|;
      cons := cons + [Con(0, false, 0)];
      var i := 0;
      while i < |slots| && slots[i].Unmarked?
        invariant i <= |slots| && forall j :: 0 <= j < i ==> slots[j].Unmarked?
      {
        i := i + 1;
      }
      FirstMarkedIs(slots, i);
      if i == |slots| {
        cons := cons[con := cons[con].(deletions := cons[con].deletions + 1)];
        return;
      }
      slots := slots[i := Unmarked(con)];
      sentinels := sentinels + [Starting(i)];
    }

    /** Bytes have arrived for the connection in a slot. */
    method OnReadable(slot: nat)
      requires dispatching.None? && slot < |slots|
      modifies this
      ensures var s := Act(old(Now()), Event(slot));
              Now() == if s.dispatching.Some? then Act(s, Dispatch) else s
    {
      if slots[slot].Marked? {
        return;
      }
      var con := slots[slot].con;
      if con < |cons| {
        cons := cons[con := cons[con].(refs := cons[con].refs + 1)];
      }
      tasks := tasks + [Task(con, Read)];
    }
  }

  lemma FirstMarkedIs(slots: seq<Slot>, i: nat)
    requires i <= |slots| && (forall j :: 0 <= j < i ==> slots[j].Unmarked?) && (i < |slots| ==> slots[i].Marked?)
    ensures FirstMarked(slots) == i
  {
  }
}
