// Any number of backfill runs over one table, interleaved step by step, with crashes that
// lose an uncommitted batch and with inserts by the rest of the system.
module BackfillRuns {
  import opened Wrappers
  import opened Ordering
  import opened BackfillModel

  datatype Phase = Fetching | Holding(batch: seq<Fetched>) | Done | Crashed

  // One invocation of backfill(); owed remembers the keys that were NULL when it started.
  datatype Run = Run(batchSize: nat, dryRun: bool, cursor: Option<Key>, phase: Phase, owed: set<Key>)

  // origin remembers each row as it was first stored.
  datatype State = State(table: Table, runs: map<nat, Run>, origin: Table)

  datatype Step =
    | Start(id: nat, batchSize: nat, dryRun: bool)
    | Fetch(id: nat)
    | Commit(id: nat)
    | Crash(id: nat)
    | Insert(key: Key, row: Row)

  ghost predicate Enabled(s: State, step: Step) {
    match step
    case Start(id, n, _) => id !in s.runs && n >= 1
    case Fetch(id) => id in s.runs && s.runs[id].phase == Fetching
    case Commit(id) => id in s.runs && s.runs[id].phase.Holding? && s.runs[id].phase.batch != []
    case Crash(id) => id in s.runs && (s.runs[id].phase == Fetching || s.runs[id].phase.Holding?)
    case Insert(k, _) => k !in s.table
  }

  // The initial COUNT: nothing to do ends the run at once.
  ghost function Started(s: State, n: nat, dry: bool): Run {
    var owed := NullKeys(s.table);
    Run(n, dry, None, if owed == {} then Done else Fetching, owed)
  }

  // The SELECT, outside any transaction: an empty result ends the run.
  ghost function AfterFetch(t: Table, r: Run): Run {
    var batch := FetchBatch(t, r.cursor, r.batchSize);
    r.(phase := if batch == [] then Done else Holding(batch))
  }

  // The cursor moves to the last fetched row.
  ghost function AfterCommit(r: Run): Run
    requires r.phase.Holding? && r.phase.batch != []
  {
    r.(phase := Fetching, cursor := Some(r.phase.batch[|r.phase.batch| - 1].key))
  }

  ghost function Apply(ex: Extraction, s: State, step: Step): State
    requires Enabled(s, step)
  {
    match step
    case Start(id, n, dry) => s.(runs := s.runs[id := Started(s, n, dry)])
    case Fetch(id) => s.(runs := s.runs[id := AfterFetch(s.table, s.runs[id])])
    case Commit(id) =>
      var r := s.runs[id];
      State(if r.dryRun then s.table else ApplyBatch(ex, s.table, r.phase.batch), s.runs[id := AfterCommit(r)], s.origin)
    case Crash(id) => s.(runs := s.runs[id := s.runs[id].(phase := Crashed)])
    case Insert(k, row) => State(s.table[k := row], s.runs, s.origin[k := row])
  }

  // A finite execution: every step taken was possible.
  ghost predicate Execution(ex: Extraction, states: seq<State>, steps: seq<Step>) {
    && |states| == |steps| + 1
    && states[0].runs == map[] && states[0].origin == states[0].table
    && forall i :: 0 <= i < |steps| ==> Enabled(states[i], steps[i]) && states[i + 1] == Apply(ex, states[i], steps[i])
  }

  // ----- the invariant -----

  // A row is as first stored, or it was NULL and carries exactly its extracted columns.
  ghost predicate Untouched(ex: Extraction, first: Row, now: Row) {
    now == first || (IsNull(first) && now == Filled(ex, first))
  }

  ghost predicate TableOk(ex: Extraction, s: State) {
    s.origin.Keys == s.table.Keys && forall k :: k in s.table ==> Untouched(ex, s.origin[k], s.table[k])
  }

  // What is fetched but not committed was NULL and is what the table stores.
  ghost predicate BatchOk(s: State, batch: seq<Fetched>) {
    && batch != [] && DistinctKeys(batch)
    && forall i :: 0 <= i < |batch| ==>
         var k := batch[i].key;
         k in s.table && k in s.origin && IsNull(s.origin[k]) && batch[i] == Snapshot(s.table, k)
  }

  ghost predicate Names(batch: seq<Fetched>, k: Key) {
    exists i :: 0 <= i < |batch| && batch[i].key == k
  }

  // Every owed key that is still NULL lies ahead of the run.
  ghost predicate StillAhead(r: Run, k: Key) {
    match r.phase
    case Fetching => After(r.cursor, k)
    case Holding(batch) => batch != [] && (Names(batch, k) || KeyLess(batch[|batch| - 1].key, k))
    case Done => false
    case Crashed => true
  }

  ghost predicate RunOk(s: State, r: Run) {
    && r.batchSize >= 1
    && (r.phase.Holding? ==> BatchOk(s, r.phase.batch))
    && (!r.dryRun ==> forall k :: k in r.owed ==> k in s.table && (IsNull(s.table[k]) ==> StillAhead(r, k)))
  }

  ghost predicate Inv(ex: Extraction, s: State) {
    TableOk(ex, s) && forall id :: id in s.runs ==> RunOk(s, s.runs[id])
  }

  // Between two states rows keep their sources, and no row becomes NULL again.
  ghost predicate Progress(s: State, t: State) {
    && s.table.Keys <= t.table.Keys
    && (forall k :: k in s.table ==> Snapshot(t.table, k) == Snapshot(s.table, k) && (IsNull(t.table[k]) ==> IsNull(s.table[k])))
    && (forall k :: k in s.origin ==> k in t.origin && t.origin[k] == s.origin[k])
  }

  lemma RunOkAcross(s: State, t: State, r: Run)
    requires Progress(s, t) && RunOk(s, r)
    ensures RunOk(t, r)
  {
  }

  lemma FetchedRunOk(ex: Extraction, s: State, r: Run)
    requires TableOk(ex, s) && RunOk(s, r) && r.phase == Fetching && AlwaysTyped(ex)
    ensures RunOk(s, AfterFetch(s.table, r))
  {
    var keys := FetchKeys(s.table, r.cursor, r.batchSize);
    var batch := FetchBatch(s.table, r.cursor, r.batchSize);
    BatchDistinct(s.table, r.cursor, r.batchSize);
    forall i | 0 <= i < |batch| ensures batch[i].key in NullKeys(s.table) {
      assert keys[i] in keys;
    }
    forall k | !r.dryRun && k in r.owed && IsNull(s.table[k]) ensures StillAhead(AfterFetch(s.table, r), k) {
      FetchSkipsNothing(s.table, r.cursor, r.batchSize, k);
      if k in keys {
        var i :| 0 <= i < |keys| && keys[i] == k;
        assert batch[i].key == k;
      }
    }
  }

  // Committing a batch fills exactly its rows, each with the extraction of what it stores.
  lemma CommitFills(ex: Extraction, s: State, batch: seq<Fetched>, k: Key)
    requires TableOk(ex, s) && BatchOk(s, batch) && k in s.table
    ensures var u := ApplyBatch(ex, s.table, batch);
            k in u && u[k] == if Names(batch, k) then Filled(ex, s.table[k]) else s.table[k]
  {
    if Names(batch, k) {
      var i :| 0 <= i < |batch| && batch[i].key == k;
      ApplyBatchAt(ex, s.table, batch, i);
    } else {
      ApplyBatchElsewhere(ex, s.table, batch, k);
    }
  }

  lemma CommitKeepsTable(ex: Extraction, s: State, batch: seq<Fetched>)
    requires AlwaysTyped(ex) && TableOk(ex, s) && BatchOk(s, batch)
    ensures var t := s.(table := ApplyBatch(ex, s.table, batch));
            TableOk(ex, t) && Progress(s, t) && forall k :: k in s.table && Names(batch, k) ==> !IsNull(t.table[k])
  {
    var t := s.(table := ApplyBatch(ex, s.table, batch));
    ApplyBatchKeys(ex, s.table, batch);
    forall k | k in s.table
      ensures k in t.table && Untouched(ex, s.origin[k], t.table[k]) && Snapshot(t.table, k) == Snapshot(s.table, k)
      ensures IsNull(t.table[k]) ==> IsNull(s.table[k]) && !Names(batch, k)
    {
      CommitFills(ex, s, batch, k);
      if Names(batch, k) {
        var i :| 0 <= i < |batch| && batch[i].key == k;
        assert IsNull(s.origin[k]);
        assert Filled(ex, s.table[k]) == Filled(ex, s.origin[k]);
      }
    }
  }

  lemma CommitKeepsInv(ex: Extraction, s: State, id: nat)
    requires AlwaysTyped(ex) && Inv(ex, s) && Enabled(s, Commit(id))
    ensures Inv(ex, Apply(ex, s, Commit(id))) && Progress(s, Apply(ex, s, Commit(id)))
  {
    var r := s.runs[id];
    var t := Apply(ex, s, Commit(id));
    CommitKeepsTable(ex, s, r.phase.batch);
    forall other | other in t.runs ensures RunOk(t, t.runs[other]) {
      if other != id { RunOkAcross(s, t, s.runs[other]); }
    }
  }

  lemma StartKeepsInv(ex: Extraction, s: State, step: Step)
    requires AlwaysTyped(ex) && Inv(ex, s) && step.Start? && Enabled(s, step)
    ensures Inv(ex, Apply(ex, s, step)) && Progress(s, Apply(ex, s, step))
  {
    var t := Apply(ex, s, step);
    forall other | other in s.runs ensures RunOk(t, t.runs[other]) { RunOkAcross(s, t, s.runs[other]); }
  }

  lemma FetchKeepsInv(ex: Extraction, s: State, id: nat)
    requires AlwaysTyped(ex) && Inv(ex, s) && Enabled(s, Fetch(id))
    ensures Inv(ex, Apply(ex, s, Fetch(id))) && Progress(s, Apply(ex, s, Fetch(id)))
  {
    var t := Apply(ex, s, Fetch(id));
    FetchedRunOk(ex, s, s.runs[id]);
    forall other | other in t.runs ensures RunOk(t, t.runs[other]) {
      if other == id { RunOkAcross(s, t, AfterFetch(s.table, s.runs[id])); } else { RunOkAcross(s, t, s.runs[other]); }
    }
  }

  lemma CrashKeepsInv(ex: Extraction, s: State, id: nat)
    requires AlwaysTyped(ex) && Inv(ex, s) && Enabled(s, Crash(id))
    ensures Inv(ex, Apply(ex, s, Crash(id))) && Progress(s, Apply(ex, s, Crash(id)))
  {
    var t := Apply(ex, s, Crash(id));
    forall other | other in t.runs ensures RunOk(t, t.runs[other]) {
      if other != id { RunOkAcross(s, t, s.runs[other]); }
    }
  }

  lemma InsertKeepsInv(ex: Extraction, s: State, step: Step)
    requires AlwaysTyped(ex) && Inv(ex, s) && step.Insert? && Enabled(s, step)
    ensures Inv(ex, Apply(ex, s, step)) && Progress(s, Apply(ex, s, step))
  {
    var t := Apply(ex, s, step);
    forall other | other in t.runs ensures RunOk(t, t.runs[other]) { RunOkAcross(s, t, s.runs[other]); }
  }

  lemma StepKeepsInv(ex: Extraction, s: State, step: Step)
    requires AlwaysTyped(ex) && Inv(ex, s) && Enabled(s, step)
    ensures Inv(ex, Apply(ex, s, step)) && Progress(s, Apply(ex, s, step))
  {
    match step
    case Start(_, _, _) => StartKeepsInv(ex, s, step);
    case Fetch(id) => FetchKeepsInv(ex, s, id);
    case Commit(id) => CommitKeepsInv(ex, s, id);
    case Crash(id) => CrashKeepsInv(ex, s, id);
    case Insert(_, _) => InsertKeepsInv(ex, s, step);
  }

  lemma {:induction false} ExecutionKeepsInv(ex: Extraction, states: seq<State>, steps: seq<Step>, n: nat)
    requires AlwaysTyped(ex) && Execution(ex, states, steps) && n < |states|
    ensures Inv(ex, states[n])
  {
    if n != 0 {
      ExecutionKeepsInv(ex, states, steps, n - 1);
      StepKeepsInv(ex, states[n - 1], steps[n - 1]);
    }
  }

  lemma {:induction false} ExecutionProgress(ex: Extraction, states: seq<State>, steps: seq<Step>, a: nat, b: nat)
    requires AlwaysTyped(ex) && Execution(ex, states, steps) && a <= b < |states|
    ensures Progress(states[a], states[b])
    decreases b
  {
    if a < b {
      ExecutionProgress(ex, states, steps, a, b - 1);
      ExecutionKeepsInv(ex, states, steps, b - 1);
      StepKeepsInv(ex, states[b - 1], steps[b - 1]);
    }
  }

  // ----- safety of every execution -----

  // Every row present at some point is, at every later point, as it was first stored or, if
  // it was NULL then, filled with exactly its extracted columns. Rows with a contract type
  // never change.
  lemma RowsAreNeverCorrupted(ex: Extraction, states: seq<State>, steps: seq<Step>, n: nat, k: Key)
    requires AlwaysTyped(ex) && Execution(ex, states, steps) && n < |states| && k in states[0].table
    ensures k in states[n].table && Untouched(ex, states[0].table[k], states[n].table[k])
    ensures !IsNull(states[0].table[k]) ==> states[n].table[k] == states[0].table[k]
  {
    ExecutionProgress(ex, states, steps, 0, n);
    ExecutionKeepsInv(ex, states, steps, n);
  }

  // The same for a row inserted on the way.
  lemma InsertedRowsAreNeverCorrupted(ex: Extraction, states: seq<State>, steps: seq<Step>, a: nat, n: nat)
    requires AlwaysTyped(ex) && Execution(ex, states, steps) && a < n < |states| && steps[a].Insert?
    ensures var Insert(k, row) := steps[a];
            k in states[n].table && Untouched(ex, row, states[n].table[k])
  {
    ExecutionProgress(ex, states, steps, a + 1, n);
    ExecutionKeepsInv(ex, states, steps, n);
  }

  // A run keeps its obligations and its mode for as long as it is known.
  lemma {:induction false} RunKeepsOwed(ex: Extraction, states: seq<State>, steps: seq<Step>, a: nat, b: nat, id: nat)
    requires Execution(ex, states, steps) && a <= b < |states| && id in states[a].runs
    ensures id in states[b].runs
    ensures states[b].runs[id].owed == states[a].runs[id].owed && states[b].runs[id].dryRun == states[a].runs[id].dryRun
    decreases b
  {
    if a < b {
      RunKeepsOwed(ex, states, steps, a, b - 1, id);
      assert Enabled(states[b - 1], steps[b - 1]) && states[b] == Apply(ex, states[b - 1], steps[b - 1]);
    }
  }

  // Once a live run is done, every row that was NULL when it started is filled, whatever the
  // other runs, crashes and inserts did in between, and stays filled.
  lemma CompletedRunLeavesNothing(ex: Extraction, states: seq<State>, steps: seq<Step>, a: nat, done: nat, later: nat, k: Key)
    requires AlwaysTyped(ex) && Execution(ex, states, steps) && a < done <= later < |states|
    requires steps[a].Start? && !steps[a].dryRun
    requires steps[a].id in states[done].runs && states[done].runs[steps[a].id].phase == Done
    requires k in states[a].table && IsNull(states[a].table[k])
    ensures k in states[later].table && !IsNull(states[later].table[k])
    ensures states[later].table[k].fields == Filled(ex, states[a].table[k]).fields
  {
    var id := steps[a].id;
    assert states[a + 1] == Apply(ex, states[a], steps[a]);
    assert k in states[a + 1].runs[id].owed;
    RunKeepsOwed(ex, states, steps, a + 1, done, id);
    ExecutionKeepsInv(ex, states, steps, done);
    assert RunOk(states[done], states[done].runs[id]);
    ExecutionProgress(ex, states, steps, a, done);
    ExecutionProgress(ex, states, steps, done, later);
    ExecutionKeepsInv(ex, states, steps, later);
    ExecutionKeepsInv(ex, states, steps, a);
    ExecutionProgress(ex, states, steps, a, later);
  }
}
