/** The handoff gate battery (`select_gates`, `run_battery` and the exit rule of `main`).

    The command runner is an object that logs its calls and answers each from a script unknown
    to the battery: the n-th call with some arguments has some outcome. */
module GateBattery {
  import opened Options
  import opened Lists

  datatype Gate = Gate(name: string, argv: seq<string>)
  datatype Status = Passed | Failed | Skipped | NotRun
  datatype Outcome = Outcome(exitCode: int, output: string)
  datatype Row = Row(gate: Gate, status: Status, exitCode: Option<int>, output: string)

  type Script = (nat, seq<string>) -> Outcome

  class Runner {
    const script: Script
    var calls: seq<seq<string>>

    constructor (script: Script)
      ensures this.script == script && calls == []
    {
      this.script := script;
      calls := [];
    }

    method Run(argv: seq<string>) returns (outcome: Outcome)
      modifies this
      ensures calls == old(calls) + [argv] && outcome == script(|old(calls)|, argv)
    {
      outcome := script(|calls|, argv);
      calls := calls + [argv];
    }
  }

  // ----- what the table must say -----

  predicate Ran(r: Row) { r.status.Passed? || r.status.Failed? }

  /** The argument lists of the rows that ran, in order. */
  function Executed(rows: seq<Row>): seq<seq<string>> {
    if rows == [] then []
    else Executed(rows[..|rows| - 1]) + (if Ran(rows[|rows| - 1]) then [rows[|rows| - 1].gate.argv] else [])
  }

  ghost predicate FailedBefore(rows: seq<Row>, i: int) {
    exists j :: 0 <= j < i && j < |rows| && rows[j].status.Failed?
  }

  /** Row `i` against the declared gates, the selection and the answers of the runner. */
  ghost predicate RowOk(rows: seq<Row>, i: nat, gate: Gate, selected: set<string>, keepGoing: bool, script: Script,
    first: nat)
    requires i < |rows|
  {
    var r := rows[i];
    && r.gate == gate
    && (r.status.Skipped? <==> gate.name !in selected)
    && (r.status.NotRun? <==> gate.name in selected && !keepGoing && FailedBefore(rows, i))
    && (Ran(r) ==>
          var outcome := script(first + |Executed(rows[..i])|, gate.argv);
          && r.exitCode == Some(outcome.exitCode) && r.output == outcome.output
          && (r.status.Passed? <==> outcome.exitCode == 0))
    && (!Ran(r) ==> r.exitCode == None && r.output == "")
  }

  ghost predicate TableOk(rows: seq<Row>, gates: seq<Gate>, selected: set<string>, keepGoing: bool, script: Script,
    first: nat)
  {
    && |rows| == |gates|
    && forall i :: 0 <= i < |rows| ==> RowOk(rows, i, gates[i], selected, keepGoing, script, first)
  }

  lemma RowStays(rows: seq<Row>, r: Row, i: nat, gate: Gate, selected: set<string>, keepGoing: bool, script: Script,
    first: nat)
    requires i < |rows| && RowOk(rows, i, gate, selected, keepGoing, script, first)
    ensures RowOk(rows + [r], i, gate, selected, keepGoing, script, first)
  {
    var longer := rows + [r];
    assert longer[..i] == rows[..i] && longer[i] == rows[i];
    assert forall j :: 0 <= j < i ==> longer[j] == rows[j];
    assert FailedBefore(longer, i) <==> FailedBefore(rows, i);
  }

  lemma ExecutedSnoc(rows: seq<Row>, r: Row)
    ensures Executed(rows + [r]) == Executed(rows) + (if Ran(r) then [r.gate.argv] else [])
  {
    assert (rows + [r])[..|rows|] == rows;
  }

  lemma TableSnoc(rows: seq<Row>, r: Row, gates: seq<Gate>, g: Gate, selected: set<string>, keepGoing: bool,
    script: Script, first: nat)
    requires TableOk(rows, gates, selected, keepGoing, script, first)
    requires RowOk(rows + [r], |rows|, g, selected, keepGoing, script, first)
    ensures TableOk(rows + [r], gates + [g], selected, keepGoing, script, first)
  {
    var longer, more := rows + [r], gates + [g];
    forall i | 0 <= i < |longer| ensures RowOk(longer, i, more[i], selected, keepGoing, script, first) {
      if i < |rows| {
        RowStays(rows, r, i, gates[i], selected, keepGoing, script, first);
        assert more[i] == gates[i];
      } else {
        assert more[i] == g;
      }
    }
  }

  function Unrun(gate: Gate, status: Status): Row { Row(gate, status, None, "") }

  method RunBattery(gates: seq<Gate>, selected: set<string>, keepGoing: bool, runner: Runner) returns (rows: seq<Row>)
    modifies runner
    ensures TableOk(rows, gates, selected, keepGoing, runner.script, |old(runner.calls)|)
    ensures runner.calls == old(runner.calls) + Executed(rows)
  {
    rows := [];
    var stopped := false;
    for n := 0 to |gates|
      invariant TableOk(rows, gates[..n], selected, keepGoing, runner.script, |old(runner.calls)|)
      invariant runner.calls == old(runner.calls) + Executed(rows)
      invariant stopped <==> !keepGoing && FailedBefore(rows, n)
    {
      var gate := gates[n];
      TakeNext(gates, n);
      ghost var before := rows;
      var row: Row;
      if gate.name !in selected {
        row := Unrun(gate, Skipped);
      } else if stopped {
        row := Unrun(gate, NotRun);
      } else {
        var outcome := runner.Run(gate.argv);
        row := Row(gate, if outcome.exitCode == 0 then Passed else Failed, Some(outcome.exitCode), outcome.output);
        if row.status.Failed? && !keepGoing {
          stopped := true;
        }
      }
      rows := rows + [row];
      assert rows[..n] == before;
      assert FailedBefore(rows, n) <==> FailedBefore(before, n);
      ExecutedSnoc(before, row);
      TableSnoc(before, row, gates[..n], gate, selected, keepGoing, runner.script, |old(runner.calls)|);
      assert FailedBefore(rows, n + 1) <==> FailedBefore(before, n) || rows[n].status.Failed?;
    }
    TakeAll(gates);
  }

  // ----- consequences -----

  /** Without keep-going at most one gate fails, and its command is the last one that is run. */
  lemma AtMostOneFailure(rows: seq<Row>, gates: seq<Gate>, selected: set<string>, script: Script, first: nat)
    requires TableOk(rows, gates, selected, false, script, first)
    ensures forall i, j :: 0 <= i < |rows| && 0 <= j < |rows| && rows[i].status.Failed? && rows[j].status.Failed? ==>
      i == j
    ensures forall i :: 0 <= i < |rows| && rows[i].status.Failed? ==>
      Executed(rows) == Executed(rows[..i]) + [gates[i].argv]
  {
    forall i, j | 0 <= i < j < |rows| && rows[i].status.Failed? ensures !Ran(rows[j]) {
      assert RowOk(rows, j, gates[j], selected, false, script, first);
      assert FailedBefore(rows, j);
    }
    forall i | 0 <= i < |rows| && rows[i].status.Failed?
      ensures Executed(rows) == Executed(rows[..i]) + [gates[i].argv]
    {
      assert RowOk(rows, i, gates[i], selected, false, script, first);
      assert rows[..i + 1][..i] == rows[..i];
      NothingAfter(rows, i + 1);
    }
  }

  lemma {:induction false} NothingAfter(rows: seq<Row>, n: nat)
    requires n <= |rows| && forall j :: n <= j < |rows| ==> !Ran(rows[j])
    ensures Executed(rows) == Executed(rows[..n])
    decreases |rows|
  {
    if n < |rows| {
      NothingAfter(rows[..|rows| - 1], n);
      assert rows[..|rows| - 1][..n] == rows[..n];
    } else {
      TakeAll(rows);
    }
  }

  ghost predicate AllSelected(gates: seq<Gate>, selected: set<string>) {
    forall i :: 0 <= i < |gates| ==> gates[i].name in selected
  }

  /** The declared commands, called once each in order, all exit with 0. */
  ghost predicate AllSucceed(gates: seq<Gate>, script: Script, first: nat) {
    forall i :: 0 <= i < |gates| ==> script(first + i, gates[i].argv).exitCode == 0
  }

  predicate AllPassed(rows: seq<Row>) {
    forall i :: 0 <= i < |rows| ==> rows[i].status.Passed?
  }

  lemma {:induction false} ExecutedAll(rows: seq<Row>)
    ensures |Executed(rows)| <= |rows|
    ensures |Executed(rows)| == |rows| <==> forall i :: 0 <= i < |rows| ==> Ran(rows[i])
  {
    if rows != [] {
      ExecutedAll(rows[..|rows| - 1]);
      assert forall i :: 0 <= i < |rows| - 1 ==> rows[..|rows| - 1][i] == rows[i];
    }
  }

  /** The table is all PASS exactly when every gate was selected and every command succeeded. */
  lemma AllPassedMeansAllRan(rows: seq<Row>, gates: seq<Gate>, selected: set<string>, keepGoing: bool, script: Script,
    first: nat)
    requires TableOk(rows, gates, selected, keepGoing, script, first)
    ensures AllPassed(rows) <==> AllSelected(gates, selected) && AllSucceed(gates, script, first)
  {
    forall i | 0 <= i < |rows| && forall j :: 0 <= j < i ==> Ran(rows[j]) ensures |Executed(rows[..i])| == i {
      ExecutedAll(rows[..i]);
    }
    if AllPassed(rows) {
      forall i | 0 <= i < |gates| ensures gates[i].name in selected && script(first + i, gates[i].argv).exitCode == 0 {
        assert RowOk(rows, i, gates[i], selected, keepGoing, script, first);
      }
    }
    if AllSelected(gates, selected) && AllSucceed(gates, script, first) {
      PassingPrefix(rows, gates, selected, keepGoing, script, first, |rows|);
    }
  }

  lemma {:induction false} PassingPrefix(rows: seq<Row>, gates: seq<Gate>, selected: set<string>, keepGoing: bool,
    script: Script, first: nat, n: nat)
    requires TableOk(rows, gates, selected, keepGoing, script, first) && n <= |rows|
    requires AllSelected(gates, selected) && AllSucceed(gates, script, first)
    ensures forall i :: 0 <= i < n ==> rows[i].status.Passed?
  {
    if n > 0 {
      PassingPrefix(rows, gates, selected, keepGoing, script, first, n - 1);
      ExecutedAll(rows[..n - 1]);
      assert RowOk(rows, n - 1, gates[n - 1], selected, keepGoing, script, first);
    }
  }

  // ----- main -----

  function Names(gates: seq<Gate>): set<string> { set g | g in gates :: g.name }

  /** `select_gates` */
  function Kept(gates: seq<Gate>, skip: seq<string>): set<string> { set g | g in gates && g.name !in skip :: g.name }

  /** `main` without `--list`: the exit code and the table it prints. */
  method ExitCode(gates: seq<Gate>, skip: seq<string>, keepGoing: bool, runner: Runner)
      returns (code: int, rows: seq<Row>)
    modifies runner
    ensures code == 2 <==> exists s :: s in skip && s !in Names(gates)
    ensures code == 0 <==> skip == [] && AllSucceed(gates, runner.script, |old(runner.calls)|)
    ensures code == 0 ==> |runner.calls| == |old(runner.calls)| + |gates|
    ensures code in {0, 1, 2} && (code == 2 ==> runner.calls == old(runner.calls))
    ensures code != 2 ==> TableOk(rows, gates, Kept(gates, skip), keepGoing, runner.script, |old(runner.calls)|)
    ensures code != 2 ==> runner.calls == old(runner.calls) + Executed(rows)
    ensures code != 2 ==> forall i :: 0 <= i < |rows| ==> (rows[i].status.Skipped? <==> gates[i].name in skip)
    ensures code != 2 && keepGoing ==> forall i :: 0 <= i < |rows| ==> (Ran(rows[i]) <==> gates[i].name !in skip)
  {
    var known := Names(gates);
    if exists s :: s in skip && s !in known {
      return 2, [];
    }
    var selected := Kept(gates, skip);
    rows := RunBattery(gates, selected, keepGoing, runner);
    code := if AllPassed(rows) then 0 else 1;
    AllPassedMeansAllRan(rows, gates, selected, keepGoing, runner.script, |old(runner.calls)|);
    ExecutedAll(rows);
    EverythingSelected(gates, skip, selected);
    SkippedRows(rows, gates, skip, selected, keepGoing, runner.script, |old(runner.calls)|);
  }

  lemma SkippedRows(rows: seq<Row>, gates: seq<Gate>, skip: seq<string>, selected: set<string>, keepGoing: bool,
    script: Script, first: nat)
    requires TableOk(rows, gates, selected, keepGoing, script, first)
    requires selected == Kept(gates, skip)
    ensures forall i :: 0 <= i < |rows| ==> (rows[i].status.Skipped? <==> gates[i].name in skip)
    ensures keepGoing ==> forall i :: 0 <= i < |rows| ==> (Ran(rows[i]) <==> gates[i].name !in skip)
  {
    forall i | 0 <= i < |rows|
      ensures rows[i].status.Skipped? <==> gates[i].name in skip
      ensures keepGoing ==> (Ran(rows[i]) <==> gates[i].name !in skip)
    {
      assert RowOk(rows, i, gates[i], selected, keepGoing, script, first);
      assert gates[i] in gates;
    }
  }

  lemma EverythingSelected(gates: seq<Gate>, skip: seq<string>, selected: set<string>)
    requires forall s :: s in skip ==> s in Names(gates)
    requires selected == Kept(gates, skip)
    ensures AllSelected(gates, selected) <==> skip == []
  {
    forall i | 0 <= i < |gates| ensures gates[i].name in selected <==> gates[i].name !in skip {
      assert gates[i] in gates;
    }
    if skip != [] {
      assert skip[0] in skip;
      var g :| g in gates && g.name == skip[0];
      var i :| 0 <= i < |gates| && gates[i] == g;
      assert gates[i].name !in selected;
    }
  }
}
