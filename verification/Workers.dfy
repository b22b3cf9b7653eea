/** The worker threads of `run_parallel` as a state machine: each worker's writes to the
    table and to the log are separate steps, and steps of different workers interleave
    in any way. */
module Interleaving {
  import opened Ledgers
  import opened Coordination
  import Budgeting

  /** One call: the tasks with what their agents will do, the pool, and what the ledger
      held before. */
  datatype Job = Job(agents: seq<Agent>, tasks: seq<Task>, outcomes: seq<Outcome>, workers: nat, mirrored: bool,
                     rows: map<RunId, Row>, log: seq<Event>)

  /** How far a task has come. Unhandled: the worker raised, no agent handles the kind. */
  datatype Phase =
    | Queued
    | Unhandled
    | Picked
    | Inserted(run: RunId)
    | Started(run: RunId)
    | Updated(run: RunId)
    | Finished(run: RunId)

  datatype State = State(rows: map<RunId, Row>, log: seq<Event>, phases: seq<Phase>, next: nat)

  ghost function Distance(x: int, y: int): (d: nat)
    ensures d == x - y || d == y - x
  {
    if x >= y then x - y else y - x
  }

  /** The pool size of run_parallel: of the sizes from 1 to 32 the one nearest to the number of
      workers requested, or to the configured one when none or zero is requested. */
  function PoolSize(requested: Option<int>, configured: int): (n: nat)
    ensures 1 <= n <= 32
    ensures requested.Some? && requested.value != 0 ==>
      forall x :: 1 <= x <= 32 ==> Distance(n, requested.value) <= Distance(x, requested.value)
    ensures requested.None? || requested.value == 0 ==>
      forall x :: 1 <= x <= 32 ==> Distance(n, configured) <= Distance(x, configured)
  {
    var wanted := if requested.None? || requested.value == 0 then configured else requested.value;
    if wanted > 32 then 32 else if wanted < 1 then 1 else wanted
  }

  ghost predicate Proper(c: Job) {
    |c.outcomes| == |c.tasks| && c.workers >= 1
  }

  ghost predicate Handled(c: Job, i: nat)
    requires i < |c.tasks|
  {
    Chosen(c.agents, c.tasks[i].kind).Some?
  }

  ghost function AgentOf(c: Job, i: nat): Agent
    requires i < |c.tasks| && Handled(c, i)
  {
    c.agents[Chosen(c.agents, c.tasks[i].kind).value]
  }

  ghost function OpenRow(c: Job, i: nat): Row
    requires i < |c.tasks| && Handled(c, i)
  {
    NewRow(c.tasks[i], AgentOf(c, i))
  }

  ghost function LastRow(c: Job, i: nat): Row
    requires Proper(c) && i < |c.tasks| && Handled(c, i)
  {
    FinalRow(c.tasks[i], AgentOf(c, i), c.outcomes[i])
  }

  ghost function FirstEvent(c: Job, i: nat, run: RunId): Event
    requires i < |c.tasks| && Handled(c, i)
  {
    StartEvent(c.tasks[i], AgentOf(c, i), run)
  }

  ghost function LastEvent(c: Job, i: nat, run: RunId): Event
    requires Proper(c) && i < |c.tasks|
  {
    EndEvent(c.tasks[i], c.outcomes[i], run)
  }

  // ---- steps ------------------------------------------------------------------------------

  ghost function Start(c: Job): State {
    State(c.rows, c.log, seq(|c.tasks|, i => Queued), 0)
  }

  ghost predicate Busy(p: Phase) { p.Picked? || p.Inserted? || p.Started? || p.Updated? }

  /** How many of the first n tasks occupy a worker. */
  ghost function BusyCount(phases: seq<Phase>, n: nat): nat
    requires n <= |phases|
  {
    if n == 0 then 0 else BusyCount(phases, n - 1) + if Busy(phases[n - 1]) then 1 else 0
  }

  ghost predicate Over(p: Phase) { p.Finished? || p.Unhandled? }

  ghost predicate Fresh(s: State, run: RunId) {
    run !in s.rows && EventsOf(s.log, run) == []
  }

  ghost function Logged(c: Job, log: seq<Event>, e: Event): seq<Event> {
    if c.mirrored then log + [e] else log
  }

  /** Task i takes its next step. A queued task is picked up in submission order by an idle
      worker; the run id is drawn at the insertion. */
  ghost predicate Step(c: Job, s: State, i: nat, run: RunId, s': State) {
    Proper(c) && i < |c.tasks| == |s.phases| &&
    match s.phases[i]
    case Queued =>
      i == s.next && BusyCount(s.phases, |s.phases|) < c.workers &&
      s' == s.(next := i + 1, phases := s.phases[i := if Handled(c, i) then Picked else Unhandled])
    case Picked =>
      Handled(c, i) && Fresh(s, run) &&
      s' == s.(rows := s.rows[run := OpenRow(c, i)], phases := s.phases[i := Inserted(run)])
    case Inserted(r) =>
      Handled(c, i) && s' == s.(log := Logged(c, s.log, FirstEvent(c, i, r)), phases := s.phases[i := Started(r)])
    case Started(r) =>
      Handled(c, i) && r in s.rows &&
      s' == s.(rows := s.rows[r := CloseRow(c, i, s.rows[r])], phases := s.phases[i := Updated(r)])
    case Updated(r) =>
      s' == s.(log := Logged(c, s.log, LastEvent(c, i, r)), phases := s.phases[i := Finished(r)])
    case Finished(_) => false
    case Unhandled => false
  }

  /** The UPDATE at the end of a run. */
  ghost function CloseRow(c: Job, i: nat, row: Row): Row
    requires Proper(c) && i < |c.tasks|
  {
    JudgedRow(row, c.tasks[i], c.outcomes[i])
  }

  // ---- the invariant ----------------------------------------------------------------------------

  ghost predicate Has(p: Phase, run: RunId) {
    match p
    case Inserted(r) => r == run
    case Started(r) => r == run
    case Updated(r) => r == run
    case Finished(r) => r == run
    case _ => false
  }

  /** What table and log hold of task i. */
  ghost predicate Settled(c: Job, i: nat, p: Phase, rows: map<RunId, Row>, log: seq<Event>)
    requires Proper(c) && i < |c.tasks|
  {
    match p
    case Queued => true
    case Unhandled => !Handled(c, i)
    case Picked => Handled(c, i)
    case Inserted(r) => Handled(c, i) && r in rows && rows[r] == OpenRow(c, i) && EventsOf(log, r) == []
    case Started(r) =>
      Handled(c, i) && r in rows && rows[r] == OpenRow(c, i) &&
      EventsOf(log, r) == (if c.mirrored then [FirstEvent(c, i, r)] else [])
    case Updated(r) =>
      Handled(c, i) && r in rows && rows[r] == LastRow(c, i) &&
      EventsOf(log, r) == (if c.mirrored then [FirstEvent(c, i, r)] else [])
    case Finished(r) =>
      Handled(c, i) && r in rows && rows[r] == LastRow(c, i) &&
      EventsOf(log, r) == (if c.mirrored then [FirstEvent(c, i, r), LastEvent(c, i, r)] else [])
  }

  /** Runs belong to one task each, and not to the time before. */
  ghost predicate Separate(c: Job, s: State) {
    OneOwner(s) && NewRuns(c, s)
  }

  ghost predicate OneOwner(s: State) {
    forall i, j, r :: 0 <= i < |s.phases| && 0 <= j < |s.phases| && Has(s.phases[i], r) && Has(s.phases[j], r) ==>
      i == j
  }

  ghost predicate NewRuns(c: Job, s: State) {
    forall i, r :: 0 <= i < |s.phases| && Has(s.phases[i], r) ==> r !in c.rows && EventsOf(c.log, r) == []
  }

  ghost predicate Owned(s: State, run: RunId) {
    exists i :: 0 <= i < |s.phases| && Has(s.phases[i], run)
  }

  /** Nothing is recorded of any other run, and what was there is as it was. */
  ghost predicate Framed(c: Job, s: State) {
    (forall r :: r in c.rows ==> r in s.rows && s.rows[r] == c.rows[r]) &&
    (forall r :: r in s.rows ==> r in c.rows || Owned(s, r)) &&
    (forall r :: !Owned(s, r) ==> EventsOf(s.log, r) == EventsOf(c.log, r))
  }

  ghost predicate InOrder(s: State) {
    s.next <= |s.phases| && forall i :: 0 <= i < |s.phases| ==> (s.phases[i] == Queued <==> i >= s.next)
  }

  ghost predicate Inv(c: Job, s: State) {
    Proper(c) && |s.phases| == |c.tasks| && InOrder(s) && BusyCount(s.phases, |s.phases|) <= c.workers &&
    Separate(c, s) && Framed(c, s) &&
    forall i :: 0 <= i < |c.tasks| ==> Settled(c, i, s.phases[i], s.rows, s.log)
  }

  // ---- every step keeps it ---------------------------------------------------------------------------

  lemma {:induction false} BusyUpdate(phases: seq<Phase>, i: nat, p: Phase, n: nat)
    requires i < |phases| && n <= |phases|
    ensures BusyCount(phases[i := p], n)
         == BusyCount(phases, n) +
           (if i < n then (if Busy(p) then 1 else 0) - (if Busy(phases[i]) then 1 else 0) else 0)
  {
    if n > 0 { BusyUpdate(phases, i, p, n - 1); }
  }

  /** Of every run but q, table and log hold what they held. */
  ghost predicate TouchesOnly(s: State, s': State, q: RunId) {
    forall r :: r != q ==>
      (r in s'.rows <==> r in s.rows) && (r in s.rows ==> s'.rows[r] == s.rows[r]) &&
      EventsOf(s'.log, r) == EventsOf(s.log, r)
  }

  /** The run a step is about. */
  ghost function Subject(s: State, i: nat, run: RunId): RunId
    requires i < |s.phases|
  {
    match s.phases[i]
    case Inserted(r) => r
    case Started(r) => r
    case Updated(r) => r
    case Finished(r) => r
    case _ => run
  }

  lemma StepTouchesOnly(c: Job, s: State, i: nat, run: RunId, s': State)
    requires Step(c, s, i, run, s')
    ensures TouchesOnly(s, s', Subject(s, i, run))
  {
    match s.phases[i]
    case Inserted(r) =>
      forall x { EventsOfAppend(s.log, FirstEvent(c, i, r), x); }
    case Updated(r) =>
      forall x { EventsOfAppend(s.log, LastEvent(c, i, r), x); }
    case _ =>
  }

  lemma StepSettlesOwn(c: Job, s: State, i: nat, run: RunId, s': State)
    requires Inv(c, s) && Step(c, s, i, run, s')
    ensures Settled(c, i, s'.phases[i], s'.rows, s'.log)
  {
    hide Judge, NewRow, JudgedRow, StartEvent, EndEvent, EventsOf, BusyCount, Separate, Framed, InOrder;
    assert Settled(c, i, s.phases[i], s.rows, s.log);
    match s.phases[i]
    case Inserted(r) => EventsOfAppend(s.log, FirstEvent(c, i, r), r);
    case Updated(r) => EventsOfAppend(s.log, LastEvent(c, i, r), r);
    case _ =>
  }

  lemma OwnerHasRow(c: Job, s: State, j: nat, r: RunId)
    requires Inv(c, s) && j < |s.phases| && Has(s.phases[j], r)
    ensures r in s.rows
  {
    assert Settled(c, j, s.phases[j], s.rows, s.log);
  }

  /** A step that picks up a task touches nothing; any other is about a run no other task has. */
  lemma SubjectIsNotOthers(c: Job, s: State, i: nat, run: RunId, s': State, j: nat, r: RunId)
    requires Inv(c, s) && Step(c, s, i, run, s') && j < |s.phases| && j != i && Has(s.phases[j], r)
    ensures s.phases[i].Queued? || r != Subject(s, i, run)
  {
    OwnerHasRow(c, s, j, r);
    if !s.phases[i].Queued? && !s.phases[i].Picked? { assert Has(s.phases[i], Subject(s, i, run)); }
  }

  lemma StepKeepsOther(c: Job, s: State, i: nat, run: RunId, s': State, j: nat)
    requires Inv(c, s) && Step(c, s, i, run, s') && j < |c.tasks| && j != i
    ensures Settled(c, j, s.phases[j], s'.rows, s'.log)
  {
    assert Settled(c, j, s.phases[j], s.rows, s.log);
    if s.phases[i].Queued? { return; }
    StepTouchesOnly(c, s, i, run, s');
    forall r | Has(s.phases[j], r) ensures r != Subject(s, i, run) {
      SubjectIsNotOthers(c, s, i, run, s', j, r);
    }
    SettledCarries(c, j, s.phases[j], s, s', Subject(s, i, run));
  }

  lemma SettledCarries(c: Job, j: nat, p: Phase, s: State, s': State, q: RunId)
    requires Proper(c) && j < |c.tasks| && Settled(c, j, p, s.rows, s.log)
    requires TouchesOnly(s, s', q) && !Has(p, q)
    ensures Settled(c, j, p, s'.rows, s'.log)
  {
  }

  lemma StepKeepsOrder(c: Job, s: State, i: nat, run: RunId, s': State)
    requires Inv(c, s) && Step(c, s, i, run, s')
    ensures |s'.phases| == |c.tasks| && InOrder(s') && BusyCount(s'.phases, |s'.phases|) <= c.workers
  {
    BusyUpdate(s.phases, i, s'.phases[i], |s.phases|);
  }

  /** No task gains a run, except perhaps task i the run just drawn. */
  ghost predicate OwnersGrow(s: State, s': State, i: nat, run: RunId, drawn: bool) {
    |s'.phases| == |s.phases| &&
    forall k, r :: 0 <= k < |s.phases| && Has(s'.phases[k], r) ==> Has(s.phases[k], r) || (drawn && k == i && r == run)
  }

  lemma StepGrowsOwners(c: Job, s: State, i: nat, run: RunId, s': State)
    requires Step(c, s, i, run, s')
    ensures OwnersGrow(s, s', i, run, s.phases[i].Picked?)
  {
  }

  lemma OneOwnerStays(s: State, s': State, i: nat, run: RunId, drawn: bool)
    requires OneOwner(s) && OwnersGrow(s, s', i, run, drawn) && (drawn ==> !Owned(s, run))
    ensures OneOwner(s')
  {
  }

  lemma NewRunsStay(c: Job, s: State, s': State, i: nat, run: RunId, drawn: bool)
    requires NewRuns(c, s) && OwnersGrow(s, s', i, run, drawn)
    requires drawn ==> run !in c.rows && EventsOf(c.log, run) == []
    ensures NewRuns(c, s')
  {
  }

  lemma StepKeepsSeparate(c: Job, s: State, i: nat, run: RunId, s': State)
    requires Inv(c, s) && Step(c, s, i, run, s')
    ensures Separate(c, s')
  {
    StepGrowsOwners(c, s, i, run, s');
    if s.phases[i].Picked? { FreshIsNew(c, s, run); }
    OneOwnerStays(s, s', i, run, s.phases[i].Picked?);
    NewRunsStay(c, s, s', i, run, s.phases[i].Picked?);
  }

  /** A fresh run id is nobody's, and was never used before. */
  lemma FreshIsNew(c: Job, s: State, run: RunId)
    requires Inv(c, s) && Fresh(s, run)
    ensures !Owned(s, run) && run !in c.rows && EventsOf(c.log, run) == []
  {
    forall k: nat | k < |s.phases| ensures !Has(s.phases[k], run) {
      if Has(s.phases[k], run) { OwnerHasRow(c, s, k, run); }
    }
  }

  lemma OwnedStays(c: Job, s: State, i: nat, run: RunId, s': State, r: RunId)
    requires Step(c, s, i, run, s')
    ensures Owned(s, r) ==> Owned(s', r)
    ensures !s.phases[i].Queued? ==> Owned(s', Subject(s, i, run))
  {
    if Owned(s, r) {
      var k :| 0 <= k < |s.phases| && Has(s.phases[k], r);
      assert Has(s'.phases[k], r);
    }
    if !s.phases[i].Queued? { assert Has(s'.phases[i], Subject(s, i, run)); }
  }

  lemma StepKeepsFrame(c: Job, s: State, i: nat, run: RunId, s': State)
    requires Inv(c, s) && Step(c, s, i, run, s')
    ensures Framed(c, s')
  {
    forall r ensures Owned(s, r) ==> Owned(s', r) { OwnedStays(c, s, i, run, s', r); }
    if !s.phases[i].Queued? {
      StepTouchesOnly(c, s, i, run, s');
      OwnedStays(c, s, i, run, s', run);
      SubjectIsNotOld(c, s, i, run, s');
    }
  }

  lemma SubjectIsNotOld(c: Job, s: State, i: nat, run: RunId, s': State)
    requires Inv(c, s) && Step(c, s, i, run, s') && !s.phases[i].Queued?
    ensures Subject(s, i, run) !in c.rows
  {
    hide Settled, Framed, InOrder, BusyCount, OneOwner, CloseRow, OpenRow, FirstEvent, LastEvent, EventsOf;
    if s.phases[i].Picked? { FreshIsNew(c, s, run); } else { assert Has(s.phases[i], Subject(s, i, run)); }
  }

  lemma StepKeepsInv(c: Job, s: State, i: nat, run: RunId, s': State)
    requires Inv(c, s) && Step(c, s, i, run, s')
    ensures Inv(c, s')
  {
    StepKeepsOrder(c, s, i, run, s');
    StepKeepsSeparate(c, s, i, run, s');
    StepKeepsFrame(c, s, i, run, s');
    forall j: nat | j < |c.tasks| ensures Settled(c, j, s'.phases[j], s'.rows, s'.log) {
      if j == i {
        StepSettlesOwn(c, s, i, run, s');
      } else {
        StepKeepsOther(c, s, i, run, s', j);
        assert s'.phases[j] == s.phases[j];
      }
    }
  }

  // ---- whole runs ------------------------------------------------------------------------------------------

  datatype Move = Move(task: nat, run: RunId)

  /** The states a call passes through, and the moves between them. */
  ghost predicate Execution(c: Job, states: seq<State>, moves: seq<Move>) {
    Proper(c) && |states| == |moves| + 1 && states[0] == Start(c) &&
    forall k :: 0 <= k < |moves| ==> Step(c, states[k], moves[k].task, moves[k].run, states[k + 1])
  }

  lemma {:induction false} NobodyBusy(phases: seq<Phase>, n: nat)
    requires n <= |phases| && forall i :: 0 <= i < n ==> !Busy(phases[i])
    ensures BusyCount(phases, n) == 0
  {
    if n > 0 { NobodyBusy(phases, n - 1); }
  }

  lemma {:induction false} AlwaysInv(c: Job, states: seq<State>, moves: seq<Move>, k: nat)
    requires Execution(c, states, moves) && k <= |moves|
    ensures Inv(c, states[k])
  {
    if k == 0 {
      NobodyBusy(Start(c).phases, |c.tasks|);
    } else {
      AlwaysInv(c, states, moves, k - 1);
      StepKeepsInv(c, states[k - 1], moves[k - 1].task, moves[k - 1].run, states[k]);
    }
  }

  /** The events logged of a task's run, at any time, are the first few of its start and its
      end; its row is the row it was opened with or its final row; and a run that log and
      table tell differently is held by one of the busy workers. */
  lemma RunIsRecordedOnce(c: Job, states: seq<State>, moves: seq<Move>, k: nat, i: nat, run: RunId)
    requires Execution(c, states, moves) && k <= |moves| && i < |c.tasks|
    requires |states[k].phases| == |c.tasks| && Has(states[k].phases[i], run)
    ensures Handled(c, i) && run in states[k].rows && run !in c.rows
    ensures EventsOf(states[k].log, run) <= [FirstEvent(c, i, run), LastEvent(c, i, run)]
    ensures states[k].rows[run] == OpenRow(c, i) || states[k].rows[run] == LastRow(c, i)
    ensures c.mirrored && Replay(states[k].log, run) != Recorded(states[k].rows, run) ==> Busy(states[k].phases[i])
    ensures BusyCount(states[k].phases, |c.tasks|) <= c.workers
  {
    AlwaysInv(c, states, moves, k);
    assert Settled(c, i, states[k].phases[i], states[k].rows, states[k].log);
    ViewsOfRows(c, i, run);
  }

  lemma ViewsOfRows(c: Job, i: nat, run: RunId)
    requires Proper(c) && i < |c.tasks| && Handled(c, i)
    ensures ViewOf(FirstEvent(c, i, run)) == View(OpenRow(c, i).status, OpenRow(c, i).used)
    ensures ViewOf(LastEvent(c, i, run)) == View(LastRow(c, i).status, LastRow(c, i).used)
  {
  }

  /** How many events a reader of the table expects of a run: none, its start, or both. */
  ghost function Due(rows: map<RunId, Row>, run: RunId): nat {
    if run !in rows then 0 else if rows[run].status == Running then 1 else 2
  }

  /** The log of a run of the call holds as many events as the table calls for, or one fewer;
      and what it tells of a run that it calls over is what the table tells. */
  lemma LogLagsByOne(c: Job, states: seq<State>, moves: seq<Move>, k: nat, run: RunId)
    requires Execution(c, states, moves) && k <= |moves|
    requires c.mirrored && run !in c.rows && EventsOf(c.log, run) == []
    ensures Due(states[k].rows, run) - 1 <= |EventsOf(states[k].log, run)| <= Due(states[k].rows, run)
    ensures |EventsOf(states[k].log, run)| == Due(states[k].rows, run) ==>
      Replay(states[k].log, run) == Recorded(states[k].rows, run)
    ensures Replay(states[k].log, run).Some? && Replay(states[k].log, run).value.status != Running ==>
      Replay(states[k].log, run) == Recorded(states[k].rows, run)
  {
    AlwaysInv(c, states, moves, k);
    var s := states[k];
    if Owned(s, run) {
      var i: nat :| i < |s.phases| && Has(s.phases[i], run);
      assert Settled(c, i, s.phases[i], s.rows, s.log);
      ViewsOfRows(c, i, run);
    }
  }

  /** No step changes a row that is no longer running, or anything already logged. */
  lemma StepKeepsHistory(c: Job, s: State, i: nat, run: RunId, s': State, r: RunId)
    requires Inv(c, s) && Step(c, s, i, run, s')
    ensures s.log <= s'.log
    ensures r in s.rows && s.rows[r].status != Running ==> r in s'.rows && s'.rows[r] == s.rows[r]
  {
    assert Settled(c, i, s.phases[i], s.rows, s.log);
  }

  /** The log is append-only, and a row that is no longer running never changes again. */
  lemma {:induction false} HistoryStays(c: Job, states: seq<State>, moves: seq<Move>, k: nat, l: nat, r: RunId)
    requires Execution(c, states, moves) && k <= l <= |moves|
    ensures states[k].log <= states[l].log
    ensures r in states[k].rows && states[k].rows[r].status != Running ==>
      r in states[l].rows && states[l].rows[r] == states[k].rows[r]
    decreases l - k
  {
    hide Step, Inv, Start, EventsOf;
    if k < l {
      HistoryStays(c, states, moves, k, l - 1, r);
      AlwaysInv(c, states, moves, l - 1);
      StepKeepsHistory(c, states[l - 1], moves[l - 1].task, moves[l - 1].run, states[l], r);
    }
  }

  // ---- every call ends -----------------------------------------------------------------------------------------

  ghost function StepsLeft(p: Phase): nat {
    match p
    case Queued => 5
    case Picked => 4
    case Inserted(_) => 3
    case Started(_) => 2
    case Updated(_) => 1
    case _ => 0
  }

  ghost function TotalLeft(phases: seq<Phase>, n: nat): nat
    requires n <= |phases|
  {
    if n == 0 then 0 else TotalLeft(phases, n - 1) + StepsLeft(phases[n - 1])
  }

  lemma {:induction false} LeftUpdate(phases: seq<Phase>, i: nat, p: Phase, n: nat)
    requires i < |phases| && n <= |phases|
    ensures TotalLeft(phases[i := p], n)
         == TotalLeft(phases, n) + if i < n then StepsLeft(p) - StepsLeft(phases[i]) else 0
  {
    if n > 0 { LeftUpdate(phases, i, p, n - 1); }
  }

  lemma {:induction false} AllQueued(phases: seq<Phase>, n: nat)
    requires n <= |phases| && forall i :: 0 <= i < n ==> phases[i] == Queued
    ensures TotalLeft(phases, n) == 5 * n
  {
    if n > 0 { AllQueued(phases, n - 1); }
  }

  /** No execution takes more than five steps a task. */
  lemma {:induction false} ExecutionIsBounded(c: Job, states: seq<State>, moves: seq<Move>, k: nat)
    requires Execution(c, states, moves) && k <= |moves|
    ensures |states[k].phases| == |c.tasks|
    ensures k + TotalLeft(states[k].phases, |c.tasks|) <= 5 * |c.tasks|
  {
    if k == 0 {
      AllQueued(Start(c).phases, |c.tasks|);
    } else {
      ExecutionIsBounded(c, states, moves, k - 1);
      var i := moves[k - 1].task;
      LeftUpdate(states[k - 1].phases, i, states[k].phases[i], |c.tasks|);
      StepProgresses(c, states[k - 1], i, moves[k - 1].run, states[k]);
    }
  }

  lemma StepProgresses(c: Job, s: State, i: nat, run: RunId, s': State)
    requires Step(c, s, i, run, s')
    ensures s'.phases == s.phases[i := s'.phases[i]] && StepsLeft(s'.phases[i]) < StepsLeft(s.phases[i])
  {
  }

  ghost predicate Quiet(s: State) {
    forall i :: 0 <= i < |s.phases| ==> Over(s.phases[i])
  }

  /** While a task is not over some task can step: the pool cannot deadlock. */
  lemma NeverStuck(c: Job, s: State, run: RunId) returns (i: nat, s': State)
    requires Inv(c, s) && !Quiet(s) && Fresh(s, run)
    ensures Step(c, s, i, run, s')
  {
    var j: nat :| j < |s.phases| && !Over(s.phases[j]);
    if exists k: nat :: k < |s.phases| && Busy(s.phases[k]) {
      i :| i < |s.phases| && Busy(s.phases[i]);
      s' := BusyStep(c, s, i, run);
    } else {
      NobodyBusy(s.phases, |s.phases|);
      assert s.phases[j] == Queued;
      i := s.next;
      assert s.phases[i] == Queued;
      s' := s.(next := i + 1, phases := s.phases[i := if Handled(c, i) then Picked else Unhandled]);
    }
  }

  lemma BusyStep(c: Job, s: State, i: nat, run: RunId) returns (s': State)
    requires Inv(c, s) && i < |s.phases| && Busy(s.phases[i]) && Fresh(s, run)
    ensures Step(c, s, i, run, s')
  {
    assert Settled(c, i, s.phases[i], s.rows, s.log);
    match s.phases[i]
    case Picked => s' := s.(rows := s.rows[run := OpenRow(c, i)], phases := s.phases[i := Inserted(run)]);
    case Inserted(r) => s' := s.(log := Logged(c, s.log, FirstEvent(c, i, r)), phases := s.phases[i := Started(r)]);
    case Started(r) => s' := s.(rows := s.rows[r := CloseRow(c, i, s.rows[r])], phases := s.phases[i := Updated(r)]);
    case Updated(r) => s' := s.(log := Logged(c, s.log, LastEvent(c, i, r)), phases := s.phases[i := Finished(r)]);
  }

  // ---- what a finished call leaves ----------------------------------------------------------------------------

  ghost function RunOf(p: Phase): RunId {
    match p
    case Inserted(r) => r
    case Started(r) => r
    case Updated(r) => r
    case Finished(r) => r
    case _ => ""
  }

  ghost function Runs(s: State): seq<RunId> { seq(|s.phases|, i requires 0 <= i < |s.phases| => RunOf(s.phases[i])) }

  /** The table after the first n tasks have run one after the other under the given ids,
      each as Coordinator.One runs it; and the log. */
  ghost function RowsInTurn(c: Job, runs: seq<RunId>, n: nat): map<RunId, Row>
    requires Proper(c) && n <= |c.tasks| == |runs|
  {
    if n == 0 then c.rows
    else if Handled(c, n - 1) then RowsInTurn(c, runs, n - 1)[runs[n - 1] := LastRow(c, n - 1)]
    else RowsInTurn(c, runs, n - 1)
  }

  ghost function LogInTurn(c: Job, runs: seq<RunId>, n: nat): seq<Event>
    requires Proper(c) && n <= |c.tasks| == |runs|
  {
    if n == 0 then c.log
    else if Handled(c, n - 1) && c.mirrored then
      LogInTurn(c, runs, n - 1) + [FirstEvent(c, n - 1, runs[n - 1]), LastEvent(c, n - 1, runs[n - 1])]
    else LogInTurn(c, runs, n - 1)
  }

  /** The handled tasks have runs of their own. */
  ghost predicate OwnRuns(c: Job, runs: seq<RunId>) {
    Proper(c) && |runs| == |c.tasks| &&
    (forall i, j :: 0 <= i < j < |runs| && Handled(c, i) && Handled(c, j) ==> runs[i] != runs[j]) &&
    (forall i :: 0 <= i < |runs| && Handled(c, i) ==> runs[i] !in c.rows && EventsOf(c.log, runs[i]) == [])
  }

  ghost predicate RunsAmong(c: Job, runs: seq<RunId>, n: nat, r: RunId)
    requires n <= |c.tasks| == |runs|
  {
    exists i :: 0 <= i < n && Handled(c, i) && runs[i] == r
  }

  /** What the table holds in turn, run by run. */
  lemma {:induction false} RowsInTurnAt(c: Job, runs: seq<RunId>, n: nat, r: RunId)
    requires OwnRuns(c, runs) && n <= |c.tasks|
    ensures var m := RowsInTurn(c, runs, n);
      (forall i :: 0 <= i < n && Handled(c, i) && runs[i] == r ==> r in m && m[r] == LastRow(c, i)) &&
      (!RunsAmong(c, runs, n, r) ==> (r in m <==> r in c.rows) && (r in m ==> m[r] == c.rows[r]))
  {
    if n > 0 {
      RowsInTurnAt(c, runs, n - 1, r);
      assert !RunsAmong(c, runs, n, r) ==> !RunsAmong(c, runs, n - 1, r);
    }
  }

  lemma EventsOfPair(log: seq<Event>, e: Event, f: Event, r: RunId)
    requires e.run == f.run
    ensures EventsOf(log + [e, f], r) == EventsOf(log, r) + (if e.run == r then [e, f] else [])
  {
    EventsOfAppend(log, e, r);
    EventsOfAppend(log + [e], f, r);
    assert log + [e, f] == log + [e] + [f];
  }

  lemma {:induction false} LogInTurnAt(c: Job, runs: seq<RunId>, n: nat, r: RunId)
    requires OwnRuns(c, runs) && n <= |c.tasks| && c.mirrored
    ensures forall i :: 0 <= i < n && Handled(c, i) && runs[i] == r ==>
      EventsOf(LogInTurn(c, runs, n), r) == [FirstEvent(c, i, r), LastEvent(c, i, r)]
    ensures !RunsAmong(c, runs, n, r) ==> EventsOf(LogInTurn(c, runs, n), r) == EventsOf(c.log, r)
  {
    if n > 0 {
      LogInTurnAt(c, runs, n - 1, r);
      assert !RunsAmong(c, runs, n, r) ==> !RunsAmong(c, runs, n - 1, r);
      if Handled(c, n - 1) {
        EventsOfPair(LogInTurn(c, runs, n - 1), FirstEvent(c, n - 1, runs[n - 1]), LastEvent(c, n - 1, runs[n - 1]), r);
      }
    }
  }

  lemma {:induction false} CountInEvents(log: seq<Event>, e: Event)
    ensures multiset(log)[e] == multiset(EventsOf(log, e.run))[e]
  {
    if log != [] {
      var front, last := log[..|log| - 1], log[|log| - 1];
      assert log == front + [last];
      CountInEvents(front, e);
    }
  }

  /** Logs that agree run by run hold the same events. */
  lemma SameEvents(x: seq<Event>, y: seq<Event>)
    requires forall r :: EventsOf(x, r) == EventsOf(y, r)
    ensures multiset(x) == multiset(y)
  {
    forall e ensures multiset(x)[e] == multiset(y)[e] {
      CountInEvents(x, e);
      CountInEvents(y, e);
    }
  }

  /** At the end each task is finished exactly when some agent handles its kind. */
  lemma EveryTaskOver(c: Job, s: State, i: nat)
    requires Inv(c, s) && Quiet(s) && i < |c.tasks|
    ensures if Handled(c, i) then s.phases[i].Finished? && Has(s.phases[i], Runs(s)[i]) else s.phases[i].Unhandled?
  {
    assert Settled(c, i, s.phases[i], s.rows, s.log);
  }

  lemma QuietRunsDiffer(c: Job, s: State, i: nat, j: nat)
    requires Inv(c, s) && Quiet(s) && i < |c.tasks| && j < |c.tasks| && i != j && Handled(c, i) && Handled(c, j)
    ensures Runs(s)[i] != Runs(s)[j]
  {
    EveryTaskOver(c, s, i);
    EveryTaskOver(c, s, j);
  }

  lemma QuietRunIsNew(c: Job, s: State, i: nat)
    requires Inv(c, s) && Quiet(s) && i < |c.tasks| && Handled(c, i)
    ensures Runs(s)[i] !in c.rows && EventsOf(c.log, Runs(s)[i]) == [] && Owned(s, Runs(s)[i])
  {
    EveryTaskOver(c, s, i);
  }

  lemma QuietOwner(c: Job, s: State, r: RunId)
    requires Inv(c, s) && Quiet(s) && Owned(s, r)
    ensures RunsAmong(c, Runs(s), |c.tasks|, r)
  {
    var i := OwnedRow(c, s, r);
  }

  lemma QuietRuns(c: Job, s: State)
    requires Inv(c, s) && Quiet(s)
    ensures OwnRuns(c, Runs(s))
    ensures forall r :: Owned(s, r) <==> RunsAmong(c, Runs(s), |c.tasks|, r)
  {
    forall i: nat, j: nat | i < j < |c.tasks| && Handled(c, i) && Handled(c, j) ensures Runs(s)[i] != Runs(s)[j] {
      QuietRunsDiffer(c, s, i, j);
    }
    forall i: nat | i < |c.tasks| && Handled(c, i)
      ensures Runs(s)[i] !in c.rows && EventsOf(c.log, Runs(s)[i]) == [] && Owned(s, Runs(s)[i])
    {
      QuietRunIsNew(c, s, i);
    }
    forall r | Owned(s, r) ensures RunsAmong(c, Runs(s), |c.tasks|, r) { QuietOwner(c, s, r); }
  }

  /** However the workers interleaved, the table ends as if the tasks had run one after the
      other, under the same run ids. */
  lemma TableIsSequential(c: Job, s: State)
    requires Inv(c, s) && Quiet(s)
    ensures s.rows == RowsInTurn(c, Runs(s), |c.tasks|)
  {
    QuietRuns(c, s);
    var m := RowsInTurn(c, Runs(s), |c.tasks|);
    forall r ensures (r in s.rows <==> r in m) && (r in m ==> s.rows[r] == m[r]) {
      RowsInTurnAt(c, Runs(s), |c.tasks|, r);
      if Owned(s, r) { var _ := OwnedRow(c, s, r); }
    }
  }

  lemma OwnedRow(c: Job, s: State, r: RunId) returns (i: nat)
    requires Inv(c, s) && Quiet(s) && Owned(s, r)
    ensures i < |c.tasks| && Handled(c, i) && Runs(s)[i] == r && r in s.rows && s.rows[r] == LastRow(c, i)
    ensures c.mirrored ==> EventsOf(s.log, r) == [FirstEvent(c, i, r), LastEvent(c, i, r)]
  {
    i :| i < |s.phases| && Has(s.phases[i], r);
    assert Settled(c, i, s.phases[i], s.rows, s.log);
  }

  /** And the log ends with the same events, run by run in the same order. */
  lemma LogIsSequential(c: Job, s: State)
    requires Inv(c, s) && Quiet(s) && c.mirrored
    ensures forall r :: EventsOf(s.log, r) == EventsOf(LogInTurn(c, Runs(s), |c.tasks|), r)
    ensures multiset(s.log) == multiset(LogInTurn(c, Runs(s), |c.tasks|))
  {
    QuietRuns(c, s);
    forall r ensures EventsOf(s.log, r) == EventsOf(LogInTurn(c, Runs(s), |c.tasks|), r) {
      LogInTurnAt(c, Runs(s), |c.tasks|, r);
      if Owned(s, r) { var _ := OwnedRow(c, s, r); }
    }
    SameEvents(s.log, LogInTurn(c, Runs(s), |c.tasks|));
  }

  /** Replaying the log of a finished call gives the table's status and units for every run
      it made. */
  lemma ReplayIsTable(c: Job, s: State, r: RunId)
    requires Inv(c, s) && Quiet(s) && c.mirrored && r !in c.rows && EventsOf(c.log, r) == []
    ensures Replay(s.log, r) == Recorded(s.rows, r)
  {
    if Owned(s, r) { var i := OwnedRow(c, s, r); ViewsOfRows(c, i, r); }
  }

  /** A call that has come to its end, by any interleaving: the table is the sequential one, the
      log holds the sequential events, and each row the call added is over, within its budget,
      and what a reader of the log would reconstruct. */
  lemma FinishedCallIsSequential(c: Job, states: seq<State>, moves: seq<Move>)
    requires Execution(c, states, moves) && Quiet(states[|moves|])
    ensures |Runs(states[|moves|])| == |c.tasks|
    ensures var s := states[|moves|];
      s.rows == RowsInTurn(c, Runs(s), |c.tasks|) &&
      (c.mirrored ==> multiset(s.log) == multiset(LogInTurn(c, Runs(s), |c.tasks|))) &&
      forall r :: r in s.rows && r !in c.rows ==> Concluded(c, s, r)
  {
    var s := states[|moves|];
    AlwaysInv(c, states, moves, |moves|);
    TableIsSequential(c, s);
    if c.mirrored { LogIsSequential(c, s); }
    forall r | r in s.rows && r !in c.rows ensures Concluded(c, s, r) {
      assert Owned(s, r);
      var i := OwnedRow(c, s, r);
      ViewsOfRows(c, i, r);
    }
  }

  ghost predicate Concluded(c: Job, s: State, r: RunId)
    requires r in s.rows
  {
    s.rows[r].status != Running && 0 <= s.rows[r].used <= Budgeting.Most(0, s.rows[r].budget) &&
    (c.mirrored ==> Replay(s.log, r) == Recorded(s.rows, r))
  }

  // ---- the results -------------------------------------------------------------------------------------------------

  /** What a future yields: its answer, or the worker's exception. */
  ghost function FutureOf(c: Job, s: State, i: nat): Option<Answer>
    requires Proper(c) && i < |c.tasks| == |s.phases|
  {
    if s.phases[i].Finished? then Some(AnswerOf(c.tasks[i], c.outcomes[i], s.phases[i].run)) else None
  }

  /** `[f.result() for f in fs]`: the first failed future's exception propagates. */
  method Collect(futures: seq<Option<Answer>>) returns (answers: Option<seq<Answer>>)
    ensures answers.None? <==> exists i :: 0 <= i < |futures| && futures[i].None?
    ensures answers.Some? ==>
      |answers.value| == |futures| &&
      forall i :: 0 <= i < |futures| ==> futures[i] == Some(answers.value[i])
  {
    var collected := [];
    for i := 0 to |futures|
      invariant |collected| == i && forall k :: 0 <= k < i ==> futures[k] == Some(collected[k])
    {
      if futures[i].None? { return None; }
      collected := collected + [futures[i].value];
    }
    return Some(collected);
  }

  /** Result i answers task i from the row of its run; the call raises exactly when some task
      has no agent, and even then every other task has run to its end. */
  lemma ResultsAreInOrder(c: Job, s: State, i: nat)
    requires Inv(c, s) && Quiet(s) && i < |c.tasks|
    ensures FutureOf(c, s, i).None? <==> !Handled(c, i)
    ensures Handled(c, i) ==>
      var a := FutureOf(c, s, i).value;
      a.run in s.rows && a.run !in c.rows && s.rows[a.run] == LastRow(c, i) &&
      (a.ok <==> s.rows[a.run].status == Succeeded) &&
      a.output == if Admissible(c.tasks[i], c.outcomes[i]) then Some(s.rows[a.run].output) else None
    ensures forall j :: 0 <= j < |c.tasks| && j != i && Handled(c, i) && Handled(c, j) ==>
      FutureOf(c, s, i).Some? && FutureOf(c, s, j).Some? && FutureOf(c, s, j).value.run != FutureOf(c, s, i).value.run
  {
    EveryTaskOver(c, s, i);
    assert Settled(c, i, s.phases[i], s.rows, s.log);
    forall j: nat | j < |c.tasks| && j != i && Handled(c, i) && Handled(c, j)
      ensures FutureOf(c, s, i).Some? && FutureOf(c, s, j).Some?
      ensures FutureOf(c, s, j).value.run != FutureOf(c, s, i).value.run
    {
      EveryTaskOver(c, s, j);
      assert Has(s.phases[i], s.phases[i].run) && Has(s.phases[j], s.phases[j].run);
    }
  }
}
