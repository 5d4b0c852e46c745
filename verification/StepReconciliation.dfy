/** The action-weighted task reconciliation of `_perstep` in the snapshot audit. A cell is one
    (step, slot) entry of the action, task-count and completion arrays. */
module StepReconciliation {

  datatype Cell = Cell(action: int, tasks: int, done: int)
  datatype Totals = Totals(arrivals: int, done: int, local: int, v2i: int, v2v: int)

  function Weighted(cells: seq<Cell>, action: int): int {
    if cells == [] then 0
    else (if cells[0].action == action then cells[0].tasks else 0) + Weighted(cells[1..], action)
  }

  function Tasks(cells: seq<Cell>): int {
    if cells == [] then 0 else cells[0].tasks + Tasks(cells[1..])
  }

  function Done(cells: seq<Cell>): int {
    if cells == [] then 0 else cells[0].done + Done(cells[1..])
  }

  /** `veh_k * (veh_action == action)`: the task counts with every other cell set to 0. */
  function Masked(cells: seq<Cell>, action: int): seq<Cell> {
    seq(|cells|, i requires 0 <= i < |cells| =>
      Cell(cells[i].action, if cells[i].action == action then cells[i].tasks else 0, cells[i].done))
  }

  /** The weighted count of an action is the task total over the cells that took it. */
  lemma {:induction false} WeightedIsMaskedTotal(cells: seq<Cell>, action: int)
    ensures Weighted(cells, action) == Tasks(Masked(cells, action))
  {
    if cells != [] {
      WeightedIsMaskedTotal(cells[1..], action);
      assert Masked(cells, action)[1..] == Masked(cells[1..], action);
    }
  }

  /** The check named `internal_task_counts_reconcile`. */
  predicate Reconciles(cells: seq<Cell>, t: Totals) {
    && Tasks(cells) == t.arrivals && Done(cells) == t.done
    && t.local + t.v2i + t.v2v == t.arrivals
    && (Weighted(cells, 0), Weighted(cells, 1), Weighted(cells, 2)) == (t.local, t.v2i, t.v2v)
  }

  ghost predicate NonNegativeTasks(cells: seq<Cell>) {
    forall i :: 0 <= i < |cells| ==> cells[i].tasks >= 0
  }

  /** Every cell that carries tasks took one of the three declared actions. */
  ghost predicate TasksHaveActions(cells: seq<Cell>) {
    forall i :: 0 <= i < |cells| && cells[i].tasks > 0 ==> 0 <= cells[i].action <= 2
  }

  lemma {:induction false} WeightedCoverTasks(cells: seq<Cell>)
    requires NonNegativeTasks(cells)
    ensures Weighted(cells, 0) + Weighted(cells, 1) + Weighted(cells, 2) <= Tasks(cells)
    ensures Weighted(cells, 0) + Weighted(cells, 1) + Weighted(cells, 2) == Tasks(cells) <==> TasksHaveActions(cells)
  {
    if cells != [] {
      assert forall i :: 0 <= i < |cells| - 1 ==> cells[1..][i] == cells[i + 1];
      WeightedCoverTasks(cells[1..]);
      assert forall i :: 1 <= i < |cells| ==> cells[i] == cells[1..][i - 1];
    }
  }

  /** With non-negative task counts, agreement of the three weighted action counts with the
      recorded totals makes the per-action totals add up to the arrivals exactly when every
      task-carrying cell took a declared action; so reconciliation certifies the actions. */
  lemma ReconciliationCertifiesActions(cells: seq<Cell>, t: Totals)
    requires NonNegativeTasks(cells)
    ensures Reconciles(cells, t) <==>
      (TasksHaveActions(cells) && Done(cells) == t.done && Tasks(cells) == t.arrivals
       && Weighted(cells, 0) == t.local && Weighted(cells, 1) == t.v2i && Weighted(cells, 2) == t.v2v)
  {
    WeightedCoverTasks(cells);
  }
}
