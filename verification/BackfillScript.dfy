// scripts/backfill_capabilities.py as it runs: the results about runs and about the loop, for
// the script's own extraction.
module BackfillScript {
  import opened Ordering
  import opened BackfillModel
  import opened BackfillColumns
  import opened BackfillRuns
  import opened BackfillLoop

  // The row with every column read off its own capabilities and node type.
  ghost predicate FilledBySource(first: Row, now: Row) {
    now == first.(fields := now.fields) && Columns(first.capabilities, first.nodeType, now.fields)
  }

  // At any point of any execution a row is as first stored, or was NULL and holds exactly what
  // the script extracts from its own node type and capabilities.
  lemma RowsHoldTheirExtraction(states: seq<State>, steps: seq<Step>, n: nat, k: Key)
    requires Execution(Extract, states, steps) && n < |states| && k in states[0].table
    ensures k in states[n].table
    ensures var first, now := states[0].table[k], states[n].table[k];
            now == first || (IsNull(first) && now == first.(fields := Extract(first.nodeType, first.capabilities)))
    ensures var first, now := states[0].table[k], states[n].table[k];
            now == first || (IsNull(first) && FilledBySource(first, now))
  {
    ExtractIsAlwaysTyped();
    ExtractFillsColumns(states[0].table[k].capabilities, states[0].table[k].nodeType);
    RowsAreNeverCorrupted(Extract, states, steps, n, k);
  }

  // Once a live run is done, every row that was NULL at its start holds its extraction for
  // good.
  lemma CompletedScriptLeavesNothing(states: seq<State>, steps: seq<Step>, a: nat, done: nat, later: nat, k: Key)
    requires Execution(Extract, states, steps) && a < done <= later < |states|
    requires steps[a].Start? && !steps[a].dryRun
    requires steps[a].id in states[done].runs && states[done].runs[steps[a].id].phase == Done
    requires k in states[a].table && IsNull(states[a].table[k])
    ensures k in states[later].table && !IsNull(states[later].table[k])
    ensures states[later].table[k].fields == Extract(states[a].table[k].nodeType, states[a].table[k].capabilities)
    ensures Columns(states[a].table[k].capabilities, states[a].table[k].nodeType, states[later].table[k].fields)
  {
    ExtractIsAlwaysTyped();
    ExtractFillsColumns(states[a].table[k].capabilities, states[a].table[k].nodeType);
    CompletedRunLeavesNothing(Extract, states, steps, a, done, later, k);
  }

  lemma {:induction false} KeysStay(ex: Extraction, states: seq<State>, steps: seq<Step>, a: nat, b: nat)
    requires Execution(ex, states, steps) && a <= b < |states|
    requires forall i :: a <= i < b ==> !steps[i].Insert?
    ensures states[b].table.Keys == states[a].table.Keys
    decreases b
  {
    if a < b {
      KeysStay(ex, states, steps, a, b - 1);
      var s, step := states[b - 1], steps[b - 1];
      assert Enabled(s, step) && states[b] == Apply(ex, s, step);
      if step.Commit? && !s.runs[step.id].dryRun {
        ApplyBatchKeys(ex, s.table, s.runs[step.id].phase.batch);
      }
    }
  }

  // A run that finds nothing to do is done when it starts, whatever is inserted later.
  lemma IdleRunEndsAtOnce(states: seq<State>, steps: seq<Step>, a: nat)
    requires Execution(Extract, states, steps) && a < |steps| && steps[a].Start? && NullKeys(states[a].table) == {}
    ensures states[a + 1].table == states[a].table
    ensures steps[a].id in states[a + 1].runs && states[a + 1].runs[steps[a].id].phase == Done
    ensures !Enabled(states[a + 1], Fetch(steps[a].id)) && !Enabled(states[a + 1], Commit(steps[a].id))
  {
    assert states[a + 1] == Apply(Extract, states[a], steps[a]);
  }

  // A row that is not NULL never changes, wherever it came from.
  lemma TypedRowStays(ex: Extraction, states: seq<State>, steps: seq<Step>, a: nat, later: nat, k: Key)
    requires AlwaysTyped(ex) && Execution(ex, states, steps) && a <= later < |states|
    requires k in states[a].table && !IsNull(states[a].table[k])
    ensures k in states[later].table && states[later].table[k] == states[a].table[k]
  {
    ExecutionKeepsInv(ex, states, steps, a);
    ExecutionKeepsInv(ex, states, steps, later);
    ExecutionProgress(ex, states, steps, a, later);
  }

  // A row that was NULL when a completed run started is that row with its extraction.
  lemma NullRowIsFilled(ex: Extraction, states: seq<State>, steps: seq<Step>, a: nat, done: nat, later: nat, k: Key)
    requires AlwaysTyped(ex) && Execution(ex, states, steps) && a < done <= later < |states|
    requires steps[a].Start? && !steps[a].dryRun
    requires steps[a].id in states[done].runs && states[done].runs[steps[a].id].phase == Done
    requires k in states[a].table && IsNull(states[a].table[k])
    ensures k in states[later].table && states[later].table[k] == Filled(ex, states[a].table[k])
  {
    CompletedRunLeavesNothing(ex, states, steps, a, done, later, k);
    ExecutionKeepsInv(ex, states, steps, a);
    ExecutionKeepsInv(ex, states, steps, later);
    ExecutionProgress(ex, states, steps, a, later);
  }

  // Whatever other runs and crashes do: once a live run is done and nothing was inserted since
  // its start, the table is what a lone run leaves behind.
  lemma QuietRunFillsTheTable(states: seq<State>, steps: seq<Step>, a: nat, done: nat, later: nat)
    requires Execution(Extract, states, steps) && a < done <= later < |states|
    requires steps[a].Start? && !steps[a].dryRun
    requires steps[a].id in states[done].runs && states[done].runs[steps[a].id].phase == Done
    requires forall i :: a <= i < later ==> !steps[i].Insert?
    ensures states[later].table == FilledTable(Extract, states[a].table)
  {
    ExtractIsAlwaysTyped();
    KeysStay(Extract, states, steps, a, later);
    forall k | k in states[a].table
      ensures states[later].table[k] == if IsNull(states[a].table[k]) then Filled(Extract, states[a].table[k]) else states[a].table[k]
    {
      if IsNull(states[a].table[k]) {
        NullRowIsFilled(Extract, states, steps, a, done, later, k);
      } else {
        TypedRowStays(Extract, states, steps, a, later, k);
      }
    }
  }

  // No row appears, goes or changes, but for the NULL ones of a live run: those are filled.
  ghost predicate FilledFrom(t: Table, now: Table, dryRun: bool) {
    now.Keys == t.Keys
    && forall k :: k in t ==> if dryRun || !IsNull(t[k]) then now[k] == t[k] else FilledBySource(t[k], now[k])
  }

  lemma RowIsFilled(r: Row)
    ensures FilledBySource(r, Filled(Extract, r))
  {
    ExtractFillsColumns(r.capabilities, r.nodeType);
  }

  lemma RowsAreFilled(ex: Extraction, t: Table)
    requires forall r :: FilledBySource(r, Filled(ex, r))
    ensures FilledFrom(t, FilledTable(ex, t), false)
  {
  }

  lemma ScriptFillsRows(t: Table)
    ensures FilledFrom(t, FilledTable(Extract, t), false)
  {
    forall r { RowIsFilled(r); }
    RowsAreFilled(Extract, t);
  }

  // A lone run of the script.
  method Backfill(registry: Registry, dryRun: bool, batchSize: nat) returns (total: nat)
    requires batchSize >= 1
    modifies registry
    ensures total == |NullKeys(old(registry.table))|
    ensures registry.table == if dryRun then old(registry.table) else FilledTable(Extract, old(registry.table))
    ensures FilledFrom(old(registry.table), registry.table, dryRun)
  {
    ExtractIsAlwaysTyped();
    ScriptFillsRows(registry.table);
    var batches;
    total, batches := registry.Backfill(Extract, dryRun, batchSize);
  }

  // Afterwards nothing is left to do.
  lemma ScriptIsComplete(t: Table)
    ensures NullKeys(FilledTable(Extract, t)) == {} && FilledTable(Extract, FilledTable(Extract, t)) == FilledTable(Extract, t)
  {
    ExtractIsAlwaysTyped();
    FilledTableIsComplete(Extract, t);
  }
}
