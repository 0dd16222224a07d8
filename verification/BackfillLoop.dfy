// backfill() on a table nobody else touches: the cursor loop over a selection that its own
// updates shrink.
module BackfillLoop {
  import opened Wrappers
  import opened Ordering
  import opened BackfillModel

  // Every NULL row filled, every other row as it was.
  ghost function FilledTable(ex: Extraction, t: Table): Table {
    map k | k in t :: if IsNull(t[k]) then Filled(ex, t[k]) else t[k]
  }

  // The rows a run owes, in key order.
  ghost function WorkList(t: Table): (keys: seq<Key>)
    ensures Ascending(keys, KeyLess)
    ensures |keys| == |NullKeys(t)| && forall k :: k in keys <==> k in NullKeys(t)
  {
    KeyLessTotal();
    Sorted(NullKeys(t), KeyLess)
  }

  // The work list cut into batches of at most n.
  ghost function Chunks<T>(s: seq<T>, n: nat): seq<seq<T>>
    requires n >= 1
  {
    if s == [] then [] else [Take(s, n)] + Chunks(s[|Take(s, n)|..], n)
  }

  ghost function Flatten<T>(ss: seq<seq<T>>): seq<T> {
    if ss == [] then [] else ss[0] + Flatten(ss[1..])
  }

  // The batches visit every owed row once, in order, whatever the batch size.
  lemma {:induction false} ChunksCover<T>(s: seq<T>, n: nat)
    requires n >= 1
    ensures Flatten(Chunks(s, n)) == s
    ensures forall c :: c in Chunks(s, n) ==> 1 <= |c| <= n
  {
    if s != [] {
      var c := Take(s, n);
      ChunksCover(s[|c|..], n);
      assert s == c + s[|c|..];
      assert Chunks(s, n)[1..] == Chunks(s[|c|..], n);
    }
  }

  // The table once the first i rows of the work list are done.
  ghost function PartlyFilled(ex: Extraction, t: Table, work: seq<Key>, i: nat): Table
    requires i <= |work|
  {
    map k | k in t :: if k in work[..i] then Filled(ex, t[k]) else t[k]
  }

  function CursorAt(work: seq<Key>, i: nat): Option<Key>
    requires i <= |work|
  {
    if i == 0 then None else Some(work[i - 1])
  }

  // The work list split at i: the NULL rows not after the cursor, and those after it.
  lemma WorkListSplit(t: Table, i: nat, k: Key)
    requires i <= |WorkList(t)|
    ensures var work := WorkList(t);
            && (k in work[..i] <==> k in NullKeys(t) && !After(CursorAt(work, i), k))
            && (k in work[i..] <==> k in NullKeys(t) && After(CursorAt(work, i), k))
  {
    var work := WorkList(t);
    assert k in work[..i] ==> k in work;
    assert k in work[i..] ==> k in work;
    if i == 0 {
      assert work[0..] == work;
    } else if k in work {
      AscendingSplit(work, KeyLess, i, k) by { KeyLessTotal(); }
    }
  }

  // The table a run sees after the first i rows: filled when live, unchanged when dry.
  ghost predicate SeenAfter(ex: Extraction, t: Table, now: Table, i: nat)
    requires i <= |WorkList(t)|
  {
    now == t || now == PartlyFilled(ex, t, WorkList(t), i)
  }

  lemma RemainingIsRest(ex: Extraction, t: Table, now: Table, i: nat, k: Key)
    requires AlwaysTyped(ex) && i <= |WorkList(t)| && SeenAfter(ex, t, now, i)
    ensures k in Remaining(now, CursorAt(WorkList(t), i)) <==> k in WorkList(t)[i..]
  {
    WorkListSplit(t, i, k);
  }

  // With the cursor after the first i rows, the rest of the work list is what the SELECT
  // sees, both when those rows have been filled and when (dry run) they have not.
  lemma FetchIsNextChunk(ex: Extraction, t: Table, now: Table, i: nat, n: nat)
    requires AlwaysTyped(ex) && n >= 1 && i <= |WorkList(t)| && SeenAfter(ex, t, now, i)
    ensures FetchKeys(now, CursorAt(WorkList(t), i), n) == Take(WorkList(t)[i..], n)
  {
    var rest := WorkList(t)[i..];
    var remaining := Remaining(now, CursorAt(WorkList(t), i));
    forall k ensures k in remaining <==> k in rest {
      RemainingIsRest(ex, t, now, i, k);
    }
    KeyLessTotal();
    AscendingUnique(Sorted(remaining, KeyLess), rest, KeyLess);
  }

  lemma InLongerPrefix(work: seq<Key>, i: nat, m: nat, k: Key)
    requires i <= m <= |work|
    ensures k in work[..m] <==> k in work[..i] || k in work[i..m]
  {
    assert work[..m] == work[..i] + work[i..m];
  }

  function KeysOf(rows: seq<Fetched>): (keys: seq<Key>)
    ensures |keys| == |rows| && forall i :: 0 <= i < |rows| ==> keys[i] == rows[i].key
  {
    seq(|rows|, i requires 0 <= i < |rows| => rows[i].key)
  }

  // Committing a fetched batch fills the rows with its keys and no others.
  lemma CommitAt(ex: Extraction, now: Table, cursor: Option<Key>, n: nat, k: Key)
    requires k in now
    ensures var rows := FetchBatch(now, cursor, n);
            var after := ApplyBatch(ex, now, rows);
            k in after && after[k] == if k in KeysOf(rows) then Filled(ex, now[k]) else now[k]
  {
    var rows := FetchBatch(now, cursor, n);
    BatchDistinct(now, cursor, n);
    if k in KeysOf(rows) {
      var j :| 0 <= j < |rows| && KeysOf(rows)[j] == k;
      ApplyBatchAt(ex, now, rows, j);
    } else {
      assert forall j :: 0 <= j < |rows| ==> KeysOf(rows)[j] == rows[j].key;
      ApplyBatchElsewhere(ex, now, rows, k);
    }
  }

  lemma NotBefore(t: Table, i: nat, m: nat, k: Key)
    requires i <= m <= |WorkList(t)| && k in WorkList(t)[i..m]
    ensures k !in WorkList(t)[..i]
  {
    var work := WorkList(t);
    assert work[i..m] == work[i..][..m - i];
    assert k in work[i..];
    WorkListSplit(t, i, k);
  }

  // One turn of the loop, live or dry: the fetched batch is the next stretch of the work
  // list, and only the last one is short.
  lemma NextBatch(ex: Extraction, t: Table, now: Table, i: nat, n: nat, rows: seq<Fetched>)
    requires AlwaysTyped(ex) && n >= 1 && i <= |WorkList(t)| && SeenAfter(ex, t, now, i)
    requires rows == FetchBatch(now, CursorAt(WorkList(t), i), n)
    ensures i + |rows| == if i + n <= |WorkList(t)| then i + n else |WorkList(t)|
    ensures KeysOf(rows) == WorkList(t)[i..i + |rows|]
  {
    var work := WorkList(t);
    var m := if i + n <= |work| then i + n else |work|;
    FetchIsNextChunk(ex, t, now, i, n);
    assert Take(work[i..], n) == work[i..m];
    assert |rows| == |KeysOf(rows)| == m - i;
  }

  // Committing it advances the filled part to its end.
  lemma CommitNextBatch(ex: Extraction, t: Table, now: Table, i: nat, n: nat, rows: seq<Fetched>)
    requires AlwaysTyped(ex) && n >= 1 && i + |rows| <= |WorkList(t)| && now == PartlyFilled(ex, t, WorkList(t), i)
    requires rows == FetchBatch(now, CursorAt(WorkList(t), i), n) && KeysOf(rows) == WorkList(t)[i..i + |rows|]
    ensures ApplyBatch(ex, now, rows) == PartlyFilled(ex, t, WorkList(t), i + |rows|)
  {
    var work := WorkList(t);
    var m := i + |rows|;
    ApplyBatchKeys(ex, now, rows);
    forall k | k in t ensures ApplyBatch(ex, now, rows)[k] == PartlyFilled(ex, t, work, m)[k] {
      CommitAt(ex, now, CursorAt(work, i), n, k);
      InLongerPrefix(work, i, m, k);
      if k in work[i..m] {
        NotBefore(t, i, m, k);
      }
    }
  }

  lemma ChunksStep<T>(s: seq<T>, i: nat, n: nat, m: nat)
    requires n >= 1 && i < |s| && m == if i + n <= |s| then i + n else |s|
    ensures Chunks(s[i..], n) == [s[i..m]] + Chunks(s[m..], n)
  {
    var chunk := Take(s[i..], n);
    assert chunk == s[i..m];
    assert s[i..][|chunk|..] == s[m..];
  }

  // The batches so far, with the chunks still to come.
  ghost predicate BatchesSoFar<T>(batches: seq<seq<T>>, s: seq<T>, i: nat, n: nat)
    requires n >= 1 && i <= |s|
  {
    batches + Chunks(s[i..], n) == Chunks(s, n)
  }

  lemma RecordBatch<T>(batches: seq<seq<T>>, s: seq<T>, i: nat, n: nat, c: nat, visited: seq<T>)
    requires n >= 1 && i < |s| && i + c == (if i + n <= |s| then i + n else |s|) && visited == s[i..i + c]
    requires BatchesSoFar(batches, s, i, n)
    ensures BatchesSoFar(batches + [visited], s, i + c, n)
  {
    ChunksStep(s, i, n, i + c);
    assert (batches + [visited]) + Chunks(s[i + c..], n) == batches + ([visited] + Chunks(s[i + c..], n));
  }

  lemma EverythingFilled(ex: Extraction, t: Table)
    ensures PartlyFilled(ex, t, WorkList(t), |WorkList(t)|) == FilledTable(ex, t)
    ensures PartlyFilled(ex, t, WorkList(t), 0) == t
  {
    assert WorkList(t)[..|WorkList(t)|] == WorkList(t);
  }

  // The variables of the loop: total_updated, the cursor, and the keys of each batch.
  datatype Loop = Loop(total: nat, cursor: Option<Key>, batches: seq<seq<Key>>)

  function NextTurn(loop: Loop, rows: seq<Fetched>, updated: nat): Loop
    requires rows != []
  {
    Loop(loop.total + updated, Some(rows[|rows| - 1].key), loop.batches + [KeysOf(rows)])
  }

  // The loop of backfill() between two batches, live or dry.
  ghost predicate LoopState(ex: Extraction, t: Table, dryRun: bool, n: nat, now: Table, loop: Loop) {
    && AlwaysTyped(ex) && n >= 1
    && loop.total <= |WorkList(t)|
    && loop.cursor == CursorAt(WorkList(t), loop.total)
    && TableAt(ex, t, dryRun, loop.total, now)
    && BatchesSoFar(loop.batches, WorkList(t), loop.total, n)
  }

  ghost predicate TableAt(ex: Extraction, t: Table, dryRun: bool, total: nat, now: Table)
    requires total <= |WorkList(t)|
  {
    now == if dryRun then t else PartlyFilled(ex, t, WorkList(t), total)
  }

  lemma LoopStarts(ex: Extraction, t: Table, dryRun: bool, n: nat)
    requires AlwaysTyped(ex) && n >= 1
    ensures LoopState(ex, t, dryRun, n, t, Loop(0, None, []))
  {
    EverythingFilled(ex, t);
    assert WorkList(t)[0..] == WorkList(t);
  }

  lemma BatchRecorded(ex: Extraction, t: Table, now: Table, n: nat, loop: Loop, rows: seq<Fetched>)
    requires AlwaysTyped(ex) && n >= 1 && loop.total <= |WorkList(t)| && SeenAfter(ex, t, now, loop.total) && rows != []
    requires rows == FetchBatch(now, CursorAt(WorkList(t), loop.total), n) && BatchesSoFar(loop.batches, WorkList(t), loop.total, n)
    ensures loop.total + |rows| <= |WorkList(t)| && KeysOf(rows) == WorkList(t)[loop.total..loop.total + |rows|]
    ensures var next := NextTurn(loop, rows, |rows|);
            BatchesSoFar(next.batches, WorkList(t), next.total, n)
  {
    NextBatch(ex, t, now, loop.total, n, rows);
    RecordBatch(loop.batches, WorkList(t), loop.total, n, |rows|, KeysOf(rows));
  }

  lemma TableAdvances(ex: Extraction, t: Table, dryRun: bool, n: nat, now: Table, loop: Loop, rows: seq<Fetched>, after: Table)
    requires AlwaysTyped(ex) && n >= 1 && rows != [] && loop.total + |rows| <= |WorkList(t)| && TableAt(ex, t, dryRun, loop.total, now)
    requires rows == FetchBatch(now, CursorAt(WorkList(t), loop.total), n)
    requires KeysOf(rows) == WorkList(t)[loop.total..loop.total + |rows|]
    requires after == if dryRun then now else ApplyBatch(ex, now, rows)
    ensures TableAt(ex, t, dryRun, NextTurn(loop, rows, |rows|).total, after)
  {
    if !dryRun {
      CommitNextBatch(ex, t, now, loop.total, n, rows);
    }
  }

  // One turn of the loop keeps its state.
  lemma LoopAdvances(ex: Extraction, t: Table, dryRun: bool, n: nat, now: Table, loop: Loop, rows: seq<Fetched>, after: Table)
    requires LoopState(ex, t, dryRun, n, now, loop)
    requires rows == FetchBatch(now, loop.cursor, n) && rows != []
    requires after == if dryRun then now else ApplyBatch(ex, now, rows)
    ensures LoopState(ex, t, dryRun, n, after, NextTurn(loop, rows, |rows|))
    ensures loop.total + |rows| <= |WorkList(t)|
  {
    BatchRecorded(ex, t, now, n, loop, rows);
    CursorAdvances(WorkList(t), loop, rows);
    TableAdvances(ex, t, dryRun, n, now, loop, rows, after);
  }

  lemma CursorAdvances(work: seq<Key>, loop: Loop, rows: seq<Fetched>)
    requires rows != [] && loop.total + |rows| <= |work| && KeysOf(rows) == work[loop.total..loop.total + |rows|]
    ensures NextTurn(loop, rows, |rows|).cursor == CursorAt(work, NextTurn(loop, rows, |rows|).total)
  {
    assert rows[|rows| - 1].key == KeysOf(rows)[|rows| - 1];
  }

  lemma LoopEnds(ex: Extraction, t: Table, dryRun: bool, n: nat, now: Table, loop: Loop)
    requires LoopState(ex, t, dryRun, n, now, loop)
    requires FetchBatch(now, loop.cursor, n) == []
    ensures loop.total == |NullKeys(t)| && loop.batches == Chunks(WorkList(t), n)
    ensures now == if dryRun then t else FilledTable(ex, t)
  {
    NextBatch(ex, t, now, loop.total, n, []);
    EverythingFilled(ex, t);
    assert loop.batches + [] == loop.batches;
  }

  // The registration_projections table.
  class Registry {
    var table: Table

    constructor (t: Table)
      ensures table == t
    {
      table := t;
    }

    // _process_batch_update: one transaction.
    method ProcessBatchUpdate(ex: Extraction, rows: seq<Fetched>) returns (updated: nat)
      modifies this
      ensures table == ApplyBatch(ex, old(table), rows) && updated == |rows|
    {
      updated := 0;
      ghost var before := table;
      for i := 0 to |rows|
        invariant table == ApplyBatch(ex, before, rows[..i]) && updated == i
      {
        assert rows[..i + 1][..i] == rows[..i];
        table := ApplyUpdate(ex, table, rows[i]);
        updated := updated + 1;
      }
      assert rows[..|rows|] == rows;
    }

    // backfill(dry_run, batch_size). The batches out-parameter records the keys of each
    // fetched batch.
    method Backfill(ex: Extraction, dryRun: bool, batchSize: nat) returns (total: nat, batches: seq<seq<Key>>)
      requires AlwaysTyped(ex) && batchSize >= 1
      modifies this
      ensures total == |NullKeys(old(table))|
      ensures batches == Chunks(WorkList(old(table)), batchSize)
      ensures table == if dryRun then old(table) else FilledTable(ex, old(table))
    {
      ghost var first := table;
      if NullKeys(table) == {} {
        EverythingFilled(ex, table);
        return 0, [];
      }
      var loop := Loop(0, None, []);
      LoopStarts(ex, table, dryRun, batchSize);
      while true
        invariant LoopState(ex, first, dryRun, batchSize, table, loop)
        decreases |WorkList(first)| - loop.total
      {
        var rows := Select(table, loop.cursor, batchSize);
        if rows == [] {
          LoopEnds(ex, first, dryRun, batchSize, table, loop);
          return loop.total, loop.batches;
        }
        ghost var before := table;
        var updated := |rows|;
        if !dryRun {
          updated := ProcessBatchUpdate(ex, rows);
        }
        LoopAdvances(ex, first, dryRun, batchSize, before, loop, rows, table);
        loop := NextTurn(loop, rows, updated);
      }
    }
  }

  // After a live run there is nothing left to do, and running again changes nothing.
  lemma FilledTableIsComplete(ex: Extraction, t: Table)
    requires AlwaysTyped(ex)
    ensures NullKeys(FilledTable(ex, t)) == {} && FilledTable(ex, FilledTable(ex, t)) == FilledTable(ex, t)
  {
  }

  // Whatever two batch sizes are used, live or dry, a lone run visits the same rows in the
  // same order.
  lemma BatchSizeDoesNotMatter(t: Table, n: nat, m: nat)
    requires n >= 1 && m >= 1
    ensures Flatten(Chunks(WorkList(t), n)) == Flatten(Chunks(WorkList(t), m))
  {
    ChunksCover(WorkList(t), n);
    ChunksCover(WorkList(t), m);
  }
}
