/** The web entry point `run_etl`: the ETL step hierarchy (`step_order`), the
    checks a request must pass before any step runs, and the dispatch that
    runs the requested steps one after another on the current table. */
module StepGate {
  import opened Wrappers
  import opened Seqs
  import opened Tables
  import Text
  import FdChecker
  import FirstNF
  import SecondNF
  import DataCleaning
  import ColumnCombining
  import Decomposer
  import ErGenerator

  // ----- The hierarchy -----

  /** The steps in hierarchy order. */
  const Canonical: seq<string> := ["clean", "fd", "1nf", "2nf", "3nf", "er"]

  /** `step_order`: a known step's position in the hierarchy, -1 for any
      other name. */
  function StepOrder(s: string): (o: int)
    ensures -1 <= o < |Canonical|
    ensures o == -1 <==> s !in Canonical
    ensures o >= 0 ==> Canonical[o] == s
  {
    if s == "clean" then 0
    else if s == "fd" then 1
    else if s == "1nf" then 2
    else if s == "2nf" then 3
    else if s == "3nf" then 4
    else if s == "er" then 5
    else -1
  }

  /** The canonical list is numbered by its own positions. */
  lemma CanonicalOrder(k: nat)
    requires k < |Canonical|
    ensures StepOrder(Canonical[k]) == k
  {
  }

  /** `max(step_order(s) for s in steps)`: an order some step has and no
      step exceeds. */
  function MaxOrder(steps: seq<string>): (m: int)
    requires steps != []
    ensures forall k :: 0 <= k < |steps| ==> StepOrder(steps[k]) <= m
    ensures exists k :: 0 <= k < |steps| && StepOrder(steps[k]) == m
    decreases |steps|
  {
    if |steps| == 1 then StepOrder(steps[0])
    else
      var rest := MaxOrder(steps[1..]);
      assert forall k :: 1 <= k < |steps| ==> steps[k] == steps[1..][k - 1];
      var k :| 0 <= k < |steps[1..]| && StepOrder(steps[1..][k]) == rest;
      assert StepOrder(steps[k + 1]) == rest;
      if StepOrder(steps[0]) >= rest then StepOrder(steps[0]) else rest
  }

  // ----- The request checks -----

  /** What the handler answers instead of running: the HTTP status, the
      error message and the `blocked_step`, when one is named. */
  datatype Rejection = Rejection(status: nat, error: string, blockedStep: Option<string>)

  const MissingMessage := "Missing CSV or steps"
  const CleanFirstMessage := "Without cleaning it will generate irrelevant ER Diagram. So follow the process: Clean → FD → 1NF → 2NF → 3NF → ER."
  const ErMessage := "Complete 3NF before generating an ER Diagram."
  const OrderMessage := "You have already selected a higher ETL step. Please follow the order: Clean → FD → 1NF → 2NF → 3NF → ER."

  /** The loop over `enumerate(steps)` that blocks a step below the highest
      order, but only at the last index; from position `idx` on. */
  function ScanDescent(steps: seq<string>, maxOrder: int, idx: nat): (r: Option<string>)
    requires idx <= |steps|
    decreases |steps| - idx
  {
    if idx == |steps| then None
    else if StepOrder(steps[idx]) < maxOrder && idx == |steps| - 1 then Some(steps[idx])
    else ScanDescent(steps, maxOrder, idx + 1)
  }

  /** The validation in `run_etl`, in program order; `None` lets the request
      through. */
  function Gate(csvPath: Option<string>, steps: seq<string>): (r: Option<Rejection>)
  {
    if csvPath.None? || csvPath.value == "" || steps == [] then Some(Rejection(400, MissingMessage, None))
    else if steps[0] != "clean" then Some(Rejection(200, CleanFirstMessage, Some(steps[0])))
    else if "er" in steps && "3nf" !in steps[..FirstIndex(steps, "er")] then Some(Rejection(200, ErMessage, Some("er")))
    else
      match ScanDescent(steps, MaxOrder(steps), 0)
      case Some(s) => Some(Rejection(200, OrderMessage, Some(s)))
      case None => None
  }

  /** Reference conditions, one per check. */
  predicate HasInput(csvPath: Option<string>, steps: seq<string>) {
    csvPath.Some? && csvPath.value != "" && steps != []
  }

  /** Every "er" in the list comes after some "3nf". */
  predicate ErAfterThirdNF(steps: seq<string>) {
    forall k :: 0 <= k < |steps| && steps[k] == "er" ==> "3nf" in steps[..k]
  }

  /** No step is higher in the hierarchy than the last one. */
  predicate EndsHighest(steps: seq<string>)
    requires steps != []
  {
    forall k :: 0 <= k < |steps| ==> StepOrder(steps[k]) <= StepOrder(steps[|steps| - 1])
  }

  /** The program's test on the first "er" is the same as asking every "er"
      to follow a "3nf". */
  lemma ErCheckIff(steps: seq<string>)
    ensures ("er" in steps && "3nf" !in steps[..FirstIndex(steps, "er")]) <==> !ErAfterThirdNF(steps)
  {
    if "er" in steps {
      var f := FirstIndex(steps, "er");
      if "3nf" in steps[..f] {
        forall k | 0 <= k < |steps| && steps[k] == "er" ensures "3nf" in steps[..k] {
          var q :| 0 <= q < f && steps[..f][q] == "3nf";
          assert steps[..k][q] == "3nf";
        }
      }
    }
  }

  /** The loop only ever blocks the last step, and blocks it exactly when it
      is below the highest order: a descent earlier in the list passes. */
  lemma {:induction false} ScanDescentLast(steps: seq<string>, maxOrder: int, idx: nat)
    requires idx < |steps|
    ensures ScanDescent(steps, maxOrder, idx) ==
      (if StepOrder(steps[|steps| - 1]) < maxOrder then Some(steps[|steps| - 1]) else None)
    decreases |steps| - idx
  {
    if idx < |steps| - 1 {
      ScanDescentLast(steps, maxOrder, idx + 1);
    }
  }

  /** A request is let through exactly when it names a file and steps,
      starts with "clean", has a "3nf" before every "er" and ends on its
      highest step. */
  lemma GateAdmits(csvPath: Option<string>, steps: seq<string>)
    ensures Gate(csvPath, steps).None? <==>
      HasInput(csvPath, steps) && steps[0] == "clean" && ErAfterThirdNF(steps) && EndsHighest(steps)
  {
    if HasInput(csvPath, steps) {
      ErCheckIff(steps);
      ScanDescentLast(steps, MaxOrder(steps), 0);
    }
  }

  /** The checks run in order and the first failing one answers: no input
      gives status 400 with no step named; a wrong first step names that
      step; a missing "3nf" names "er"; a descent names the last step. */
  lemma GateFirstFailure(csvPath: Option<string>, steps: seq<string>)
    ensures !HasInput(csvPath, steps) ==> Gate(csvPath, steps) == Some(Rejection(400, MissingMessage, None))
    ensures HasInput(csvPath, steps) && steps[0] != "clean" ==>
      Gate(csvPath, steps) == Some(Rejection(200, CleanFirstMessage, Some(steps[0])))
    ensures HasInput(csvPath, steps) && steps[0] == "clean" && !ErAfterThirdNF(steps) ==>
      Gate(csvPath, steps) == Some(Rejection(200, ErMessage, Some("er")))
    ensures HasInput(csvPath, steps) && steps[0] == "clean" && ErAfterThirdNF(steps) && !EndsHighest(steps) ==>
      Gate(csvPath, steps) == Some(Rejection(200, OrderMessage, Some(steps[|steps| - 1])))
  {
    if HasInput(csvPath, steps) {
      ErCheckIff(steps);
      ScanDescentLast(steps, MaxOrder(steps), 0);
    }
  }

  /** An earlier descent is not blocked when the list ends on its highest
      step. */
  lemma EarlierDescentPasses(steps: seq<string>)
    requires steps == ["clean", "2nf", "fd", "3nf"]
    ensures Gate(Some("data.csv"), steps).None?
  {
    GateAdmits(Some("data.csv"), steps);
    assert forall k :: 0 <= k < |steps| ==> steps[k] != "er";
    assert forall k :: 0 <= k < |steps| ==> StepOrder(steps[k]) <= 4;
  }

  /** "er" before "3nf" is reported as such, although the list also ends
      below its highest step. */
  lemma ErBeforeThirdNFReported()
    ensures Gate(Some("data.csv"), ["clean", "er", "3nf"]) == Some(Rejection(200, ErMessage, Some("er")))
  {
    var steps := ["clean", "er", "3nf"];
    GateFirstFailure(Some("data.csv"), steps);
    assert steps[1] == "er" && "3nf" !in steps[..1];
  }

  // ----- Running the steps -----

  /** What each step stores under its name in the response. The HTML the
      program renders is replaced by the data it is rendered from. */
  datatype StepResult =
    | Cleaning(info: DataCleaning.CleaningInfo)
    | Dependencies(fds: seq<FdChecker.Fd>)
    | FirstForm(summary: string)
    | SecondForm(key: seq<string>, violations: seq<FdChecker.Fd>, isSecondNF: bool)
    | ThirdForm(tables: seq<Decomposer.EntityTable>)
    | Diagram(diagram: ErGenerator.Diagram)

  /** Why a step raises. */
  datatype RunError =
    | CleaningFailed(cleaning: DataCleaning.CleaningError)
    | NoFirstColumn
    | DecompositionFailed(decomposition: Decomposer.DecomposeError)

  /** What the loop carries from step to step: `current_df`, `fds` and
      `result`. */
  datatype RunState = RunState(current: Table, fds: seq<FdChecker.Fd>, results: map<string, StepResult>)

  /** The outside world the handler consults: pandas' inferred column
      types, the random draws of the step at each position, the variant
      of the decomposer, the upload's base name and the clock. */
  datatype Env = Env(
    columnType: (Table, string) -> DataCleaning.ColumnType,
    draws: nat -> ((nat, nat) -> nat),
    strategy: ColumnCombining.Strategy,
    stem: string,
    timestamp: nat)

  /** `os.path.join('static', 'er_diagrams')`. */
  const ErFolder := "static/er_diagrams"

  /** `f"er_diagram_{safe_basename}_{timestamp}"`. */
  function ErFilename(env: Env): string {
    "er_diagram_" + env.stem + "_" + Text.NatToString(env.timestamp)
  }

  /** The dtype family pandas inferred for each column, position by position. */
  function ColumnTypes(t: Table, env: Env): (ts: seq<DataCleaning.ColumnType>)
    ensures |ts| == |t.columns|
  {
    seq(|t.columns|, k requires 0 <= k < |t.columns| => env.columnType(t, t.columns[k]))
  }

  /** The dependencies the "2nf" step checks: those of an earlier step, or
      a fresh search with left-hand sides of up to two columns. */
  function SecondNFDeps(st: RunState): seq<FdChecker.Fd>
    requires Wf(st.current)
  {
    if st.fds == [] then FdChecker.FindAllFds(st.current, 2) else st.fds
  }

  /** `n` holds `st`'s answers plus one under `step`, and the table is
      unchanged unless the step rewrites it. */
  ghost predicate Records(st: RunState, n: RunState, step: string) {
    && step in n.results
    && (forall s :: s != step ==> (s in n.results <==> s in st.results))
    && (forall s :: s != step && s in st.results ==> n.results[s] == st.results[s])
    && (step != "clean" && step != "1nf" ==> n.current == st.current)
  }

  /** Storing under a new or existing key keeps every other entry. */
  lemma RecordsUpdate(st: RunState, step: string, out: StepResult, cur: Table, fds: seq<FdChecker.Fd>)
    requires step != "clean" && step != "1nf" ==> cur == st.current
    ensures Records(st, RunState(cur, fds, st.results[step := out]), step)
  {
  }

  /** The "clean" step: `clean_data` with its defaults (no fill value, no
      dropping). */
  function RunClean(st: RunState, env: Env): (r: Result<RunState, RunError>)
    requires Wf(st.current)
    ensures r.Success? ==> Wf(r.value.current) && Records(st, r.value, "clean")
  {
    var t := st.current;
    match DataCleaning.CleanData(t, ColumnTypes(t, env), None, false)
    case Failure(e) => Failure(CleaningFailed(e))
    case Success(c) =>
      DataCleaning.CleanDataWf(t, ColumnTypes(t, env), None, false);
      RecordsUpdate(st, "clean", Cleaning(c.info), c.table, st.fds);
      Success(st.(current := c.table, results := st.results["clean" := Cleaning(c.info)]))
  }

  /** The "fd" step: every dependency with up to two columns on the left. */
  function RunFd(st: RunState): (r: RunState)
    requires Wf(st.current)
    ensures Records(st, r, "fd")
  {
    var fds := FdChecker.FindAllFds(st.current, 2);
    RecordsUpdate(st, "fd", Dependencies(fds), st.current, fds);
    st.(fds := fds, results := st.results["fd" := Dependencies(fds)])
  }

  /** The "1nf" step: `to_first_nf` replaces the table. */
  function RunFirstNF(st: RunState): (r: RunState)
    requires Wf(st.current)
    ensures Wf(r.current) && Records(st, r, "1nf")
  {
    var f := FirstNF.ToFirstNF(st.current);
    FirstNF.Idempotent(st.current);
    RecordsUpdate(st, "1nf", FirstForm(f.summary), f.table, st.fds);
    st.(current := f.table, results := st.results["1nf" := FirstForm(f.summary)])
  }

  /** The "2nf" step: `current_df.columns[0]` raises on a table without
      columns. */
  function RunSecondNF(st: RunState): (r: Result<RunState, RunError>)
    requires Wf(st.current)
    ensures r.Success? ==> Records(st, r.value, "2nf")
  {
    var t := st.current;
    if t.columns == [] then Failure(NoFirstColumn)
    else
      var key := [t.columns[0]];
      var fds := SecondNFDeps(st);
      var vs := SecondNF.GetViolations(t.columns, key, fds);
      var ok := SecondNF.IsSecondNF(t.columns, key, fds);
      RecordsUpdate(st, "2nf", SecondForm(key, vs, ok), t, fds);
      Success(st.(fds := fds, results := st.results["2nf" := SecondForm(key, vs, ok)]))
  }

  /** The "3nf" and "er" steps: a fresh decomposition of the current table,
      with the draws of this position; "er" draws it as a PNG diagram. */
  function RunDecompose(st: RunState, step: string, pos: nat, env: Env): (r: Result<RunState, RunError>)
    requires Wf(st.current) && (step == "3nf" || step == "er")
    ensures r.Success? ==> Records(st, r.value, step)
  {
    match Decomposer.Decompose(st.current, env.strategy, env.draws(pos))
    case Failure(e) => Failure(DecompositionFailed(e))
    case Success(ts) =>
      var out :=
        if step == "3nf" then ThirdForm(ts)
        else Diagram(ErGenerator.GenerateErDiagram(ts, ErFolder, ErFilename(env), "png"));
      RecordsUpdate(st, step, out, st.current, st.fds);
      Success(st.(results := st.results[step := out]))
  }

  /** One pass of the dispatch loop for the step at position `pos`. */
  function RunStep(st: RunState, step: string, pos: nat, env: Env): (r: Result<RunState, RunError>)
    requires Wf(st.current)
    ensures r.Success? ==> Wf(r.value.current)
    ensures r.Success? && StepOrder(step) >= 0 ==> Records(st, r.value, step)
  {
    if step == "clean" then RunClean(st, env)
    else if step == "fd" then Success(RunFd(st))
    else if step == "1nf" then Success(RunFirstNF(st))
    else if step == "2nf" then RunSecondNF(st)
    else if step == "3nf" || step == "er" then RunDecompose(st, step, pos, env)
    else Success(st)
  }

  /** One pass of a dispatch loop: the state, the step name and its position
      in, the next state or the error out. The loop lemmas hold for any such
      function that keeps the table well-formed and names its own step. */
  type Stepper = (RunState, string, nat) --> Result<RunState, RunError>

  /** `run` can be applied to every well-formed state and keeps it so. */
  ghost predicate KeepsWf(run: Stepper) {
    forall st: RunState, step: string, pos: nat {:trigger run.requires(st, step, pos)} ::
      Wf(st.current) ==> run.requires(st, step, pos) && (run(st, step, pos).Success? ==> Wf(run(st, step, pos).value.current))
  }

  /** `after` answers for what `before` answered for and, when `step` is
      known, for `step`; for nothing else. */
  ghost predicate AddsOwnKey(before: RunState, after: RunState, step: string) {
    forall s :: s in after.results <==> s in before.results || (s == step && StepOrder(step) >= 0)
  }

  /** Every pass of `run` that succeeds adds its own step's name, if known. */
  ghost predicate NamesOwnStep(run: Stepper) {
    forall st: RunState, step: string, pos: nat {:trigger run(st, step, pos)} ::
      Wf(st.current) && run.requires(st, step, pos) && run(st, step, pos).Success? ==>
        AddsOwnKey(st, run(st, step, pos).value, step)
  }

  /** The dispatch loop from position `pos` on; the first step that raises
      ends the run. */
  function Loop(run: Stepper, st: RunState, steps: seq<string>, pos: nat): (r: Result<RunState, RunError>)
    requires KeepsWf(run) && Wf(st.current) && pos <= |steps|
    ensures r.Success? ==> Wf(r.value.current)
    decreases |steps| - pos
  {
    if pos == |steps| then Success(st)
    else
      match run(st, steps[pos], pos)
      case Failure(e) => Failure(e)
      case Success(next) => Loop(run, next, steps, pos + 1)
  }

  /** The steps of `run_etl`. */
  function Dispatch(env: Env): (run: Stepper)
    ensures KeepsWf(run)
    ensures forall st: RunState, step: string, pos: nat :: Wf(st.current) ==> run(st, step, pos) == RunStep(st, step, pos, env)
  {
    (st: RunState, step: string, pos: nat) requires Wf(st.current) => RunStep(st, step, pos, env)
  }

  /** The handler's answer. */
  datatype Response =
    | Rejected(rejection: Rejection)
    | Failed(error: RunError)
    | Completed(results: map<string, StepResult>)

  /** `run_etl` on the uploaded table `t`. */
  function RunEtl(csvPath: Option<string>, steps: seq<string>, t: Table, env: Env): (r: Response)
    requires Wf(t)
    ensures r.Rejected? <==> Gate(csvPath, steps).Some?
  {
    match Gate(csvPath, steps)
    case Some(rej) => Rejected(rej)
    case None =>
      match Loop(Dispatch(env), RunState(t, [], map[]), steps, 0)
      case Failure(e) => Failed(e)
      case Success(st) => Completed(st.results)
  }

  // ----- Properties of the dispatch -----

  /** A name outside the hierarchy does nothing. */
  lemma UnknownStepIgnored(st: RunState, step: string, pos: nat, env: Env)
    requires Wf(st.current) && StepOrder(step) == -1
    ensures RunStep(st, step, pos, env) == Success(st)
  {
  }

  /** A step adds its own name to the answer when it is a known step, and
      nothing else. */
  lemma RunStepKeys(st: RunState, step: string, pos: nat, env: Env)
    requires Wf(st.current) && RunStep(st, step, pos, env).Success?
    ensures forall s :: s in RunStep(st, step, pos, env).value.results <==>
      s in st.results || (s == step && StepOrder(step) >= 0)
  {
    if StepOrder(step) == -1 {
      UnknownStepIgnored(st, step, pos, env);
    }
  }

  /** Every step of `run_etl` names itself. */
  lemma DispatchNamesOwnStep(env: Env)
    ensures NamesOwnStep(Dispatch(env))
  {
    var run := Dispatch(env);
    forall st: RunState, step: string, pos: nat | Wf(st.current) && run.requires(st, step, pos) && run(st, step, pos).Success?
      ensures AddsOwnKey(st, run(st, step, pos).value, step)
    {
      RunStepKeys(st, step, pos, env);
    }
  }

  /** A completed loop answers for exactly the known steps it ran. */
  lemma {:induction false} LoopKeys(run: Stepper, st: RunState, steps: seq<string>, pos: nat)
    requires KeepsWf(run) && NamesOwnStep(run) && Wf(st.current) && pos <= |steps|
    requires Loop(run, st, steps, pos).Success?
    ensures forall s :: s in Loop(run, st, steps, pos).value.results <==>
      s in st.results || (s in steps[pos..] && StepOrder(s) >= 0)
    decreases |steps| - pos
  {
    if pos < |steps| {
      var next := run(st, steps[pos], pos).value;
      assert AddsOwnKey(st, next, steps[pos]);
      LoopKeys(run, next, steps, pos + 1);
      assert steps[pos..] == [steps[pos]] + steps[pos + 1..];
    }
  }

  /** A completed run's step results hold an entry for exactly the known
      steps it was asked for; the `latest_csv` entry the handler adds to
      every answer is not part of this map. */
  lemma RunEtlKeys(csvPath: Option<string>, steps: seq<string>, t: Table, env: Env)
    requires Wf(t) && RunEtl(csvPath, steps, t, env).Completed?
    ensures forall s :: s in RunEtl(csvPath, steps, t, env).results <==> s in steps && StepOrder(s) >= 0
  {
    DispatchNamesOwnStep(env);
    LoopKeys(Dispatch(env), RunState(t, [], map[]), steps, 0);
    assert steps[0..] == steps;
  }

  /** The "2nf" step checks the table's first column as the key, against the
      dependencies found earlier or, when there are none, a fresh search
      with up to two columns on the left; it reports the table in Second
      Normal Form exactly when no dependency is flagged. */
  lemma SecondNFStep(st: RunState, pos: nat, env: Env)
    requires Wf(st.current) && st.current.columns != []
    ensures RunStep(st, "2nf", pos, env).Success?
    ensures var r := RunStep(st, "2nf", pos, env).value.results["2nf"];
      var fds := if st.fds == [] then FdChecker.FindAllFds(st.current, 2) else st.fds;
      && r.SecondForm?
      && r.key == [st.current.columns[0]]
      && r.violations == SecondNF.GetViolations(st.current.columns, r.key, fds)
      && (r.isSecondNF <==> r.violations == [])
  {
    var key := [st.current.columns[0]];
    SecondNF.IsSecondNFIffNoViolations(st.current.columns, key, SecondNFDeps(st));
  }

  /** The "2nf" step on a table without columns raises. */
  lemma SecondNFNoColumns(st: RunState, pos: nat, env: Env)
    requires Wf(st.current) && st.current.columns == []
    ensures RunStep(st, "2nf", pos, env) == Failure(NoFirstColumn)
  {
  }

  /** The "er" step draws a decomposition of its own, made from the current
      table with the draws of its position, not the tables of an earlier
      "3nf" step; the picture goes under `static/er_diagrams`. */
  lemma ErStepDiagram(st: RunState, pos: nat, env: Env)
    requires Wf(st.current) && RunStep(st, "er", pos, env).Success?
    ensures Decomposer.Decompose(st.current, env.strategy, env.draws(pos)).Success?
    ensures "er" in RunStep(st, "er", pos, env).value.results
    ensures var r := RunStep(st, "er", pos, env).value.results["er"];
      var ts := Decomposer.Decompose(st.current, env.strategy, env.draws(pos)).value;
      && r.Diagram?
      && r.diagram.graph == ErGenerator.ErGraph(ts)
      && r.diagram.path == ErGenerator.OutputPath(ErFolder, ErFilename(env), "png")
  {
    assert RunStep(st, "er", pos, env) == RunDecompose(st, "er", pos, env);
  }
}
