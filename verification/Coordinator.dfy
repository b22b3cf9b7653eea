/** The coordinator: how one task is run and judged, and what every interleaving of the
    worker threads of `run_parallel` keeps. */
module Coordination {
  import opened Ledgers
  import opened Numerals
  import Budgeting

  datatype Task = Task(kind: string, input: string, parent: Option<RunId>, budget: int, timeout: real)
  datatype Agent = Agent(name: string, handles: string -> bool)
  /** What an agent's `run` does: it raises, or returns a result after some time. */
  datatype Outcome =
    | Raised(error: Budgeting.Error)
    | Returned(ok: bool, output: string, own: Option<string>, used: int, elapsed: real)
  datatype Verdict = Verdict(status: Status, used: int, output: string, problem: Option<Problem>)
  /** The dictionary handed back for a run: its output is left out when the run is refused, and its
      error is the message, "timeout", or the agent's own as JSON text. */
  datatype Answer = Answer(run: RunId, ok: bool, output: Option<string>, error: Option<string>)

  // ---- choosing an agent ------------------------------------------------------------------

  /** The first agent, from index i on, that handles the kind. */
  function Chosen(agents: seq<Agent>, kind: string, i: nat := 0): (r: Option<nat>)
    requires i <= |agents|
    ensures r.Some? ==> i <= r.value < |agents| && agents[r.value].handles(kind) &&
                        forall j :: i <= j < r.value ==> !agents[j].handles(kind)
    ensures r.None? ==> forall j :: i <= j < |agents| ==> !agents[j].handles(kind)
    decreases |agents| - i
  {
    if i == |agents| then None else if agents[i].handles(kind) then Some(i) else Chosen(agents, kind, i + 1)
  }

  // ---- judging a run ------------------------------------------------------------------------

  /** The result came back within budget and in time. */
  ghost predicate Admissible(task: Task, o: Outcome) {
    o.Returned? && 0 <= o.used <= task.budget && o.elapsed <= task.timeout
  }

  function OwnError(own: Option<string>): (r: Option<Problem>)
    ensures r == None <==> own == None
    ensures own.Some? ==> r == Some(Own(own.value))
  {
    if own.Some? then Some(Own(own.value)) else None
  }

  ghost function Refusal(code: string, message: string): Option<Problem> { Some(Coded(code, Some(message))) }

  /** The verdict on one run. It is final; success is exactly an ok result within budget and
      in time; what is recorded as used is what an admissible result said and otherwise
      nothing, so it never exceeds the budget (zero under a negative one). */
  ghost function Judge(task: Task, o: Outcome): (v: Verdict)
    ensures v.status != Running
    ensures v.status == Succeeded <==> Admissible(task, o) && o.ok
    ensures v.status == TimedOut <==> o.Returned? && 0 <= o.used <= task.budget && o.elapsed > task.timeout
    ensures if Admissible(task, o) then v.used == o.used && v.output == o.output else v.used == 0 && v.output == "{}"
    ensures Admissible(task, o) ==> v.problem == if o.own.Some? then Some(Own(o.own.value)) else None
    ensures o.Raised? && o.error.OverBudget? ==> v.problem == Some(Coded(o.error.code, Some(o.error.message)))
    ensures o.Raised? && o.error.Other? ==> v.problem == Some(Coded("internal", Some(o.error.message)))
    ensures o.Returned? && o.used < 0 ==> v.problem == Some(Coded("internal", Some("units must be non-negative")))
    ensures o.Returned? && o.used >= 0 && o.used > task.budget ==>
      v.problem == Some(Coded("dkg/budget/exceeded", Some(
        "budget exceeded: used=0 + charge=" + Signed(o.used) + " > total=" + Signed(task.budget))))
    ensures v.status == TimedOut ==> v.problem == Some(Coded("timeout", None))
    ensures 0 <= v.used <= Budgeting.Most(0, task.budget) && (v.used <= task.budget <==> task.budget >= 0)
  {
    match o
    case Raised(OverBudget(code, message)) => Verdict(Failed, 0, "{}", Refusal(code, message))
    case Raised(Other(message)) => Verdict(Failed, 0, "{}", Refusal("internal", message))
    case Returned(ok, output, own, used, elapsed) =>
      if used < 0 then Verdict(Failed, 0, "{}", Refusal("internal", "units must be non-negative"))
      else if used > task.budget then Verdict(Failed, 0, "{}", Refusal("dkg/budget/exceeded",
        "budget exceeded: used=0 + charge=" + Signed(used) + " > total=" + Signed(task.budget)))
      else if elapsed > task.timeout then Verdict(TimedOut, 0, "{}", Some(Coded("timeout", None)))
      else Verdict(if ok then Succeeded else Failed, used, output, OwnError(own))
  }

  ghost function NewRow(task: Task, agent: Agent): (row: Row)
    ensures row.parent == None && row.tenant == "local" && row.agent == agent.name && row.kind == task.kind
    ensures row.input == task.input && row.budget == task.budget
    ensures row.status == Running && row.used == 0 && row.output == "{}" && row.problem == None
  {
    Row(None, "local", agent.name, task.kind, task.input, task.budget, Running, 0, "{}", None)
  }

  /** The row once the run is judged: as it was opened, but for the four columns of the UPDATE. */
  ghost function JudgedRow(row: Row, task: Task, o: Outcome): (r: Row)
    ensures r.status == Judge(task, o).status && r.used == Judge(task, o).used && r.output == Judge(task, o).output
    ensures r.problem == Stored(Judge(task, o).problem)
    ensures r.parent == row.parent && r.tenant == row.tenant && r.agent == row.agent && r.kind == row.kind
    ensures r.input == row.input && r.budget == row.budget
  {
    var v := Judge(task, o);
    row.(status := v.status, used := v.used, output := v.output, problem := Stored(v.problem))
  }

  ghost function FinalRow(task: Task, agent: Agent, o: Outcome): Row { JudgedRow(NewRow(task, agent), task, o) }

  /** What is said of the run: the agent's own error, if any, or why the run is refused. */
  ghost function ErrorOf(task: Task, o: Outcome): Option<string> {
    match o
    case Raised(error) => Some(error.message)
    case Returned(_, _, own, used, elapsed) =>
      if used < 0 then Some("units must be non-negative")
      else if used > task.budget then
        Some("budget exceeded: used=0 + charge=" + Signed(used) + " > total=" + Signed(task.budget))
      else if elapsed > task.timeout then Some("timeout")
      else own
  }

  /** The error said is the message of the problem recorded, or its code when it has none. */
  ghost predicate Says(problem: Option<Problem>, error: Option<string>) {
    problem.Some? && problem.value.Coded? &&
    error == if problem.value.message.Some? then problem.value.message else Some(problem.value.code)
  }

  ghost function AnswerOf(task: Task, o: Outcome, run: RunId): (a: Answer)
    ensures a.run == run && (a.ok <==> Judge(task, o).status == Succeeded)
    ensures a.output == if Admissible(task, o) then Some(o.output) else None
    ensures Admissible(task, o) ==> a.error == o.own
    ensures !Admissible(task, o) ==> Says(Judge(task, o).problem, a.error)
  {
    var output := if Admissible(task, o) then Some(o.output) else None;
    Answer(run, Judge(task, o).status == Succeeded, output, ErrorOf(task, o))
  }

  ghost function StartEvent(task: Task, agent: Agent, run: RunId): (e: Event)
    ensures e.Began? && e.run == run && e.agent == agent.name && e.kind == task.kind
  {
    Began(run, agent.name, task.kind)
  }

  ghost function EndEvent(task: Task, o: Outcome, run: RunId): (e: Event)
    ensures e.Ended? && e.run == run && e.status == Judge(task, o).status
    ensures e.used == Judge(task, o).used && e.problem == Judge(task, o).problem
  {
    var v := Judge(task, o);
    Ended(run, v.status, v.used, v.problem)
  }

  lemma NothingUsedYet(units: int, total: int)
    ensures "budget exceeded: used=" + Signed(0) + " + charge=" + Signed(units) + " > total=" + Signed(total) ==
            "budget exceeded: used=0 + charge=" + Signed(units) + " > total=" + Signed(total)
  {
    assert Signed(0) == "0";
    assert "budget exceeded: used=" + "0" + " + charge=" == "budget exceeded: used=0 + charge=";
  }

  // ---- one task on one thread --------------------------------------------------------------------

  class Coordinator {
    const agents: seq<Agent>
    const ledger: AgentLedger

    constructor (agents: seq<Agent>, ledger: AgentLedger)
      ensures this.agents == agents && this.ledger == ledger
    {
      this.agents, this.ledger := agents, ledger;
    }

    method SelectAgent(kind: string) returns (chosen: Option<nat>)
      ensures chosen == Chosen(agents, kind)
    {
      var i := 0;
      while i < |agents|
        invariant 0 <= i <= |agents|
        invariant Chosen(agents, kind) == Chosen(agents, kind, i)
      {
        if agents[i].handles(kind) { return Some(i); }
        i := i + 1;
      }
      return None;
    }

    /** A run cut short by an exception. */
    method Fail(run: RunId, error: Budgeting.Error) returns (answer: Answer)
      modifies ledger
      ensures ledger.rows == (if run !in old(ledger.rows) then old(ledger.rows)
        else old(ledger.rows)[run := old(ledger.rows)[run].(
          status := Failed, used := 0, output := "{}",
          problem := Some(Coded(if error.OverBudget? then error.code else "internal", Some(error.message))))])
      ensures ledger.log == old(ledger.log) + (if ledger.mirrored then [Ended(
          run := run, status := Failed, used := 0,
          problem := Some(Coded(if error.OverBudget? then error.code else "internal", Some(error.message))))]
        else [])
      ensures answer == Answer(run := run, ok := false, output := None, error := Some(error.message))
    {
      var code := if error.OverBudget? then error.code else "internal";
      ledger.Finish(run, Failed, "{}", Some(Coded(code, Some(error.message))), 0);
      return Answer(run, false, None, Some(error.message));
    }

    /** The run of an agent whose outcome is `o`, charged, timed and recorded. */
    method Execute(run: RunId, task: Task, o: Outcome) returns (answer: Answer)
      modifies ledger
      ensures ledger.rows == (if run !in old(ledger.rows) then old(ledger.rows)
        else old(ledger.rows)[run := JudgedRow(old(ledger.rows)[run], task, o)])
      ensures ledger.log == old(ledger.log) + (if ledger.mirrored then [EndEvent(task, o, run)] else [])
      ensures answer == AnswerOf(task, o, run)
    {
      var budget := new Budgeting.BudgetAccount(task.budget);
      if o.Raised? {
        answer := Fail(run, o.error);
        return;
      }
      var charged := budget.Charge(o.used);
      if charged.Refused? {
        NothingUsedYet(o.used, task.budget);
        answer := Fail(run, charged.error);
        return;
      }
      if o.elapsed > task.timeout {
        ledger.Finish(run, TimedOut, "{}", Some(Coded("timeout", None)), 0);
        return Answer(run, false, None, Some("timeout"));
      }
      ledger.Finish(run, if o.ok then Succeeded else Failed, o.output, OwnError(o.own), budget.used);
      return Answer(run, o.ok, Some(o.output), o.own);
    }

    /** A worker's whole job; None when no agent handles the kind, and then nothing is recorded. */
    method One(task: Task, run: RunId, o: Outcome) returns (answer: Option<Answer>)
      requires run !in ledger.rows
      modifies ledger
      ensures answer.None? <==> forall i :: 0 <= i < |agents| ==> !agents[i].handles(task.kind)
      ensures answer.None? ==> ledger.rows == old(ledger.rows) && ledger.log == old(ledger.log)
      ensures answer.Some? ==>
        Chosen(agents, task.kind).Some? && answer.value == AnswerOf(task, o, run) &&
        var agent := agents[Chosen(agents, task.kind).value];
        ledger.rows == old(ledger.rows)[run := FinalRow(task, agent, o)] &&
        ledger.log == old(ledger.log) +
          (if ledger.mirrored then [StartEvent(task, agent, run), EndEvent(task, o, run)] else [])
    {
      var chosen := SelectAgent(task.kind);
      if chosen.None? { return None; }
      var agent := agents[chosen.value];
      ledger.Start(run, agent.name, task.kind, task.input, None, task.budget, "local");
      var done := Execute(run, task, o);
      return Some(done);
    }
  }
}
