/** The agent ledger: one row per run in a table, and an append-only log that mirrors it. */
module Ledgers {

  type RunId = string
  datatype Option<T> = None | Some(value: T)
  datatype Status = Running | Succeeded | Failed | TimedOut
  /** The error dictionary of a run: one of the harness, or the agent's own as its JSON text. */
  datatype Problem = Coded(code: string, message: Option<string>) | Own(text: string)

  datatype Row = Row(parent: Option<RunId>, tenant: string, agent: string, kind: string, input: string, budget: int,
                     status: Status, used: int, output: string, problem: Option<Problem>)
  datatype Event =
    | Began(run: RunId, agent: string, kind: string)
    | Ended(run: RunId, status: Status, used: int, problem: Option<Problem>)

  /** The part of a row that the log repeats. */
  datatype View = View(status: Status, used: int)

  /** `json.dumps(error) if error else None`: an empty dictionary is stored as no error. */
  function Stored(problem: Option<Problem>): (r: Option<Problem>)
    ensures problem == Some(Own("{}")) ==> r == None
    ensures problem != Some(Own("{}")) ==> r == problem
  {
    if problem.Some? && problem.value.Own? && problem.value.text == "{}" then None else problem
  }

  ghost function EventsOf(log: seq<Event>, run: RunId): seq<Event> {
    if log == [] then []
    else
      EventsOf(log[..|log| - 1], run) + (if log[|log| - 1].run == run then [log[|log| - 1]] else [])
  }

  ghost function ViewOf(e: Event): View {
    match e
    case Began(_, _, _) => View(Running, 0)
    case Ended(_, status, used, _) => View(status, used)
  }

  /** What a reader of the log alone knows of a run. */
  ghost function Replay(log: seq<Event>, run: RunId): Option<View> {
    var events := EventsOf(log, run);
    if events == [] then None else Some(ViewOf(events[|events| - 1]))
  }

  ghost function Recorded(rows: map<RunId, Row>, run: RunId): Option<View> {
    if run in rows then Some(View(rows[run].status, rows[run].used)) else None
  }

  lemma EventsOfAppend(log: seq<Event>, e: Event, run: RunId)
    ensures EventsOf(log + [e], run) == EventsOf(log, run) + (if e.run == run then [e] else [])
  {
    assert (log + [e])[..|log|] == log;
  }

  /** Appending an event shows it for its run and nothing new for any other. */
  lemma ReplayAppend(log: seq<Event>, e: Event, run: RunId)
    ensures Replay(log + [e], run) == if e.run == run then Some(ViewOf(e)) else Replay(log, run)
  {
    EventsOfAppend(log, e, run);
  }

  class AgentLedger {
    var rows: map<RunId, Row>
    var log: seq<Event>
    const mirrored: bool

    constructor (mirrored: bool, rows: map<RunId, Row>, log: seq<Event>)
      ensures this.mirrored == mirrored && this.rows == rows && this.log == log
    {
      this.mirrored, this.rows, this.log := mirrored, rows, log;
    }

    /** The log tells of the run what the table does. */
    ghost predicate InStep(run: RunId)
      reads this
    {
      Replay(log, run) == Recorded(rows, run)
    }

    method Append(e: Event)
      modifies `log
      ensures log == old(log) + (if mirrored then [e] else [])
    {
      if !mirrored { return; }
      log := log + [e];
    }

    /** A new run: its row and its first event. `run` is the freshly drawn id. */
    method Start(run: RunId, agent: string, kind: string, input: string, parent: Option<RunId>, budget: int,
                 tenant: string)
      requires run !in rows
      modifies this
      ensures rows == old(rows)[run := Row(
        parent := parent, tenant := tenant, agent := agent, kind := kind, input := input, budget := budget,
        status := Running, used := 0, output := "{}", problem := None)]
      ensures log == old(log) + (if mirrored then [Began(run := run, agent := agent, kind := kind)] else [])
      ensures mirrored ==> InStep(run) && forall x :: x != run && old(InStep(x)) ==> InStep(x)
    {
      rows := rows[run := Row(parent, tenant, agent, kind, input, budget, Running, 0, "{}", None)];
      Append(Began(run, agent, kind));
      forall x { ReplayAppend(old(log), Began(run, agent, kind), x); }
    }

    /** The end of a run: its row, if there is one, and its last event. */
    method Finish(run: RunId, status: Status, output: string, problem: Option<Problem>, used: int)
      modifies this
      ensures rows ==
        if run !in old(rows) then old(rows)
        else old(rows)[run :=
          old(rows)[run].(status := status, used := used, output := output, problem := Stored(problem))]
      ensures log == old(log) + (if mirrored then [Ended(run, status, used, problem)] else [])
      ensures mirrored ==> (run in rows ==> InStep(run)) && forall x :: x != run && old(InStep(x)) ==> InStep(x)
    {
      if run in rows {
        rows := rows[run := rows[run].(status := status, output := output, problem := Stored(problem), used := used)];
      }
      Append(Ended(run, status, used, problem));
      forall x { ReplayAppend(old(log), Ended(run, status, used, problem), x); }
    }

    method Get(run: RunId) returns (row: Option<Row>)
      ensures row == if run in rows then Some(rows[run]) else None
    {
      row := if run in rows then Some(rows[run]) else None;
    }
  }
}
