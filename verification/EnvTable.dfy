// The file-level half of scripts/_infisical_util.py, over any line grammar: reading a list
// of lines with last-wins, and overwriting the last line of a key in place or appending.
module EnvTable {
  import opened Wrappers
  import opened LastWins

  // What the two functions see of a line: the key the updater files it under, the binding
  // the parser reads from it, and how a line is overwritten or made anew. cook is what the
  // parser turns a written value into.
  datatype Grammar<!L, !K, !V> = Grammar(
    key: L -> Option<K>,
    parse: L -> Option<Binding<K, V>>,
    rewrite: (L, K, V) -> L,
    make: (K, V) -> L,
    cook: V -> V)

  // An overwritten line stays filed under its key, and overwriting it again leaves nothing of
  // the earlier value.
  ghost predicate FoundStays<L(!new), K(!new), V(!new)>(g: Grammar<L, K, V>) {
    forall l, k, v {:trigger g.rewrite(l, k, v)} :: g.key(l) == Some(k) ==>
      g.key(g.rewrite(l, k, v)) == Some(k)
      && forall w :: g.rewrite(g.rewrite(l, k, v), k, w) == g.rewrite(l, k, w)
  }

  // A new line for one of our own keys is filed under it, and overwriting it likewise leaves
  // nothing of the earlier value.
  ghost predicate OwnIsFiled<L(!new), K(!new), V(!new)>(g: Grammar<L, K, V>, own: K -> bool) {
    forall k, v :: own(k) ==>
      g.key(g.make(k, v)) == Some(k)
      && forall w :: g.rewrite(g.make(k, v), k, w) == g.make(k, w)
  }

  ghost predicate Filing<L(!new), K(!new), V(!new)>(g: Grammar<L, K, V>, own: K -> bool) {
    FoundStays(g) && OwnIsFiled(g, own)
  }

  // Besides, the updater finds every line the parser binds, and what it writes for an
  // admissible key reads back.
  ghost predicate Coherent<L(!new), K(!new), V(!new)>(g: Grammar<L, K, V>, admissible: K -> bool) {
    && Filing(g, admissible)
    && (forall l :: g.parse(l).Some? ==> g.key(l) == Some(g.parse(l).value.key))
    && (forall l, k, v :: admissible(k) ==> g.parse(g.rewrite(l, k, v)) == Some(Binding(k, g.cook(v))))
    && (forall k, v :: admissible(k) ==> g.parse(g.make(k, v)) == Some(Binding(k, g.cook(v))))
  }

  // The parser's dictionary: later lines win.
  function Parsed<L, K, V>(g: Grammar<L, K, V>, lines: seq<L>): map<K, V> { Collect(lines, g.parse) }

  // The updater's index map: the last line filed under a key, -1 when there is none.
  function LastIndex<L, K(==), V>(g: Grammar<L, K, V>, lines: seq<L>, k: K): (i: int)
    ensures -1 <= i < |lines|
    ensures i >= 0 ==> g.key(lines[i]) == Some(k)
    ensures forall j :: i < j < |lines| ==> g.key(lines[j]) != Some(k)
  {
    if lines == [] then -1
    else if g.key(lines[|lines| - 1]) == Some(k) then |lines| - 1
    else LastIndex(g, lines[..|lines| - 1], k)
  }

  ghost predicate DistinctUpdates<K, V>(updates: seq<Binding<K, V>>) {
    forall i, j :: 0 <= i < j < |updates| ==> updates[i].key != updates[j].key
  }

  // Line i after the first n updates: overwritten when it is the last line of one of them.
  function LineAfter<L, K(==), V>(g: Grammar<L, K, V>, lines: seq<L>, updates: seq<Binding<K, V>>, n: nat, i: nat): L
    requires n <= |updates| && i < |lines|
  {
    if n == 0 then lines[i]
    else
      var u := updates[n - 1];
      if LastIndex(g, lines, u.key) == i then g.rewrite(lines[i], u.key, u.value)
      else LineAfter(g, lines, updates, n - 1, i)
  }

  function BodyAfter<L, K(==), V>(g: Grammar<L, K, V>, lines: seq<L>, updates: seq<Binding<K, V>>, n: nat): (r: seq<L>)
    requires n <= |updates|
    ensures |r| == |lines|
    ensures forall i :: 0 <= i < |lines| ==> r[i] == LineAfter(g, lines, updates, n, i)
  {
    seq(|lines|, i requires 0 <= i < |lines| => LineAfter(g, lines, updates, n, i))
  }

  // Lines for the keys the file does not have, in update order.
  function Appended<L, K(==), V>(g: Grammar<L, K, V>, lines: seq<L>, updates: seq<Binding<K, V>>, n: nat): seq<L>
    requires n <= |updates|
  {
    if n == 0 then []
    else
      var u := updates[n - 1];
      Appended(g, lines, updates, n - 1) + (if LastIndex(g, lines, u.key) == -1 then [g.make(u.key, u.value)] else [])
  }

  // The parser's loop.
  method ParseAll<L, K(==), V>(g: Grammar<L, K, V>, lines: seq<L>) returns (values: map<K, V>)
    ensures values == Parsed(g, lines)
  {
    values := CollectInto(map[], [], lines, g.parse);
    assert [] + lines == lines;
  }

  // The updater's index map.
  ghost predicate Indexes<L, K(!new), V>(g: Grammar<L, K, V>, lines: seq<L>, existing: map<K, nat>) {
    && (forall k :: k in existing <==> LastIndex(g, lines, k) >= 0)
    && (forall k :: k in existing ==> existing[k] == LastIndex(g, lines, k))
  }

  lemma LastIndexPush<L, K, V>(g: Grammar<L, K, V>, lines: seq<L>, i: nat, k: K)
    requires i < |lines|
    ensures LastIndex(g, lines[..i + 1], k) == if g.key(lines[i]) == Some(k) then i else LastIndex(g, lines[..i], k)
  {
    assert lines[..i + 1][..i] == lines[..i];
  }

  method IndexLines<L, K(==, !new), V>(g: Grammar<L, K, V>, lines: seq<L>) returns (existing: map<K, nat>)
    ensures Indexes(g, lines, existing)
  {
    existing := map[];
    for i := 0 to |lines|
      invariant Indexes(g, lines[..i], existing)
    {
      forall k { LastIndexPush(g, lines, i, k); }
      match g.key(lines[i]) {
        case None =>
        case Some(key) => existing := existing[key := i];
      }
    }
    assert lines[..|lines|] == lines;
  }

  // Overwriting in place is one line of the specification at a time.
  lemma BodyStep<L, K, V>(g: Grammar<L, K, V>, lines: seq<L>, updates: seq<Binding<K, V>>, n: nat)
    requires n < |updates| && DistinctUpdates(updates)
    ensures var u, body := updates[n], BodyAfter(g, lines, updates, n);
            var i := LastIndex(g, lines, u.key);
            if i >= 0 then body[i] == lines[i] && BodyAfter(g, lines, updates, n + 1) == body[i := g.rewrite(lines[i], u.key, u.value)]
            else BodyAfter(g, lines, updates, n + 1) == body
  {
    var i := LastIndex(g, lines, updates[n].key);
    if i >= 0 {
      forall m | 0 <= m < n ensures LastIndex(g, lines, updates[m].key) != i {
        assert updates[m].key != updates[n].key;
      }
      UnnamedLineKept(g, lines, updates, n, i);
    }
  }

  lemma AppendedStep<L, K, V>(g: Grammar<L, K, V>, lines: seq<L>, updates: seq<Binding<K, V>>, n: nat)
    requires n < |updates|
    ensures var u, before := updates[n], Appended(g, lines, updates, n);
            Appended(g, lines, updates, n + 1)
            == if LastIndex(g, lines, u.key) == -1 then before + [g.make(u.key, u.value)] else before
  {
    assert Appended(g, lines, updates, n) + [] == Appended(g, lines, updates, n);
  }

  // The loop's state after n updates.
  ghost predicate UpdatedSoFar<L, K, V>(g: Grammar<L, K, V>, lines: seq<L>, updates: seq<Binding<K, V>>, n: nat, body: seq<L>, appended: seq<L>)
    requires n <= |updates|
  {
    body == BodyAfter(g, lines, updates, n) && appended == Appended(g, lines, updates, n)
  }

  lemma UpdateStep<L, K(!new), V>(g: Grammar<L, K, V>, lines: seq<L>, updates: seq<Binding<K, V>>, n: nat,
                                  body: seq<L>, appended: seq<L>, existing: map<K, nat>)
    requires n < |updates| && DistinctUpdates(updates) && Indexes(g, lines, existing)
    requires UpdatedSoFar(g, lines, updates, n, body, appended)
    ensures var u := updates[n];
            if u.key in existing then
              existing[u.key] < |body|
              && UpdatedSoFar(g, lines, updates, n + 1, body[existing[u.key] := g.rewrite(body[existing[u.key]], u.key, u.value)], appended)
            else UpdatedSoFar(g, lines, updates, n + 1, body, appended + [g.make(u.key, u.value)])
  {
    BodyStep(g, lines, updates, n);
    AppendedStep(g, lines, updates, n);
  }

  lemma NothingUpdated<L, K, V>(g: Grammar<L, K, V>, lines: seq<L>, updates: seq<Binding<K, V>>)
    ensures UpdatedSoFar(g, lines, updates, 0, lines, [])
  {
  }

  // The update loop: overwrite existing keys in place, collect the missing ones.
  method ApplyUpdates<L, K(==, !new), V>(g: Grammar<L, K, V>, lines: seq<L>, updates: seq<Binding<K, V>>)
    returns (body: seq<L>, appended: seq<L>)
    requires DistinctUpdates(updates)
    ensures body == BodyAfter(g, lines, updates, |updates|) && appended == Appended(g, lines, updates, |updates|)
  {
    var existing := IndexLines(g, lines);
    body, appended := lines, [];
    NothingUpdated(g, lines, updates);
    for n := 0 to |updates|
      invariant UpdatedSoFar(g, lines, updates, n, body, appended)
    {
      var u := updates[n];
      UpdateStep(g, lines, updates, n, body, appended, existing);
      if u.key in existing {
        body := body[existing[u.key] := g.rewrite(body[existing[u.key]], u.key, u.value)];
      } else {
        appended := appended + [g.make(u.key, u.value)];
      }
    }
  }

  // Every parsed value comes from some line.
  lemma {:induction false} ParsedFromLine<L, K, V>(g: Grammar<L, K, V>, lines: seq<L>, k: K) returns (i: nat)
    requires k in Parsed(g, lines)
    ensures i < |lines| && g.parse(lines[i]) == Some(Binding(k, Parsed(g, lines)[k]))
  {
    var last := g.parse(lines[|lines| - 1]);
    if last.Some? && last.value.key == k {
      i := |lines| - 1;
    } else {
      i := ParsedFromLine(g, lines[..|lines| - 1], k);
    }
  }

  // ----- what an update does to each line -----

  lemma {:induction false} LineAfterCases<L, K, V>(g: Grammar<L, K, V>, lines: seq<L>, updates: seq<Binding<K, V>>, n: nat, i: nat)
    requires n <= |updates| && i < |lines|
    ensures LineAfter(g, lines, updates, n, i) == lines[i]
            || exists m :: 0 <= m < n && LastIndex(g, lines, updates[m].key) == i
                           && LineAfter(g, lines, updates, n, i) == g.rewrite(lines[i], updates[m].key, updates[m].value)
  {
    if n != 0 && LastIndex(g, lines, updates[n - 1].key) != i {
      LineAfterCases(g, lines, updates, n - 1, i);
    }
  }

  // Frame: a line that is not the last one of an updated key keeps its place and content.
  lemma {:induction false} UnnamedLineKept<L, K, V>(g: Grammar<L, K, V>, lines: seq<L>, updates: seq<Binding<K, V>>, n: nat, i: nat)
    requires n <= |updates| && i < |lines|
    requires forall m :: 0 <= m < n ==> LastIndex(g, lines, updates[m].key) != i
    ensures LineAfter(g, lines, updates, n, i) == lines[i]
  {
    if n != 0 {
      UnnamedLineKept(g, lines, updates, n - 1, i);
    }
  }

  lemma {:induction false} NamedLineRewritten<L, K, V>(g: Grammar<L, K, V>, lines: seq<L>, updates: seq<Binding<K, V>>, n: nat, m: nat)
    requires m < n <= |updates| && DistinctUpdates(updates) && LastIndex(g, lines, updates[m].key) >= 0
    ensures LineAfter(g, lines, updates, n, LastIndex(g, lines, updates[m].key))
            == g.rewrite(lines[LastIndex(g, lines, updates[m].key)], updates[m].key, updates[m].value)
  {
    if m < n - 1 {
      NamedLineRewritten(g, lines, updates, n - 1, m);
      assert updates[m].key != updates[n - 1].key;
    }
  }

  // A line after the update is filed under the same key as before.
  lemma KeyKept<L(!new), K(!new), V(!new)>(g: Grammar<L, K, V>, own: K -> bool, lines: seq<L>, updates: seq<Binding<K, V>>, i: nat)
    requires Filing(g, own) && i < |lines|
    ensures g.key(LineAfter(g, lines, updates, |updates|, i)) == g.key(lines[i])
  {
    LineAfterCases(g, lines, updates, |updates|, i);
  }

  lemma {:induction false} LastIndexByKeys<L, K, V>(g: Grammar<L, K, V>, a: seq<L>, b: seq<L>, k: K)
    requires |a| == |b| && forall i :: 0 <= i < |a| ==> g.key(a[i]) == g.key(b[i])
    ensures LastIndex(g, a, k) == LastIndex(g, b, k)
  {
    if a != [] {
      LastIndexByKeys(g, a[..|a| - 1], b[..|b| - 1], k);
    }
  }

  // ----- reading back -----

  // In the overwritten body an updated key reads as its new value...
  lemma BodyBindsUpdated<L(!new), K(!new), V(!new)>(g: Grammar<L, K, V>, ok: K -> bool, lines: seq<L>, updates: seq<Binding<K, V>>, m: nat)
    requires Coherent(g, ok) && DistinctUpdates(updates) && forall u :: u in updates ==> ok(u.key)
    requires m < |updates|
    ensures LastValue(BodyAfter(g, lines, updates, |updates|), g.parse, updates[m].key)
            == if LastIndex(g, lines, updates[m].key) >= 0 then Some(g.cook(updates[m].value)) else None
  {
    var u := updates[m];
    assert u in updates;
    var body := BodyAfter(g, lines, updates, |updates|);
    var last := LastIndex(g, lines, u.key);
    forall j | last < j < |lines| ensures BoundBy(body[j], g.parse, u.key).None? {
      KeyKept(g, ok, lines, updates, j);
      assert g.key(body[j]) != Some(u.key);
    }
    if last >= 0 {
      NamedLineRewritten(g, lines, updates, |updates|, m);
      LastValueAt(body, g.parse, u.key, last);
    } else {
      LastValueNone(body, g.parse, u.key);
    }
  }

  // ...and any other key as before.
  lemma BodyKeepsOthers<L(!new), K(!new), V(!new)>(g: Grammar<L, K, V>, ok: K -> bool, lines: seq<L>, updates: seq<Binding<K, V>>, k: K)
    requires Coherent(g, ok) && forall u :: u in updates ==> ok(u.key)
    requires forall m :: 0 <= m < |updates| ==> updates[m].key != k
    ensures LastValue(BodyAfter(g, lines, updates, |updates|), g.parse, k) == LastValue(lines, g.parse, k)
  {
    var body := BodyAfter(g, lines, updates, |updates|);
    forall i | 0 <= i < |lines| ensures BoundBy(body[i], g.parse, k) == BoundBy(lines[i], g.parse, k) {
      LineAfterCases(g, lines, updates, |updates|, i);
      if body[i] != lines[i] {
        var m :| 0 <= m < |updates| && LastIndex(g, lines, updates[m].key) == i
                 && body[i] == g.rewrite(lines[i], updates[m].key, updates[m].value);
        assert updates[m] in updates;
      }
    }
    LastValuePointwise(body, lines, g.parse, k);
  }

  // A line made for an update binds its key, to the cooked value, and no other.
  ghost predicate MadeReads<L, K(!new), V>(g: Grammar<L, K, V>, updates: seq<Binding<K, V>>) {
    forall n, k :: 0 <= n < |updates| ==>
      BoundBy(g.make(updates[n].key, updates[n].value), g.parse, k) == if k == updates[n].key then Some(g.cook(updates[n].value)) else None
  }

  lemma AdmissibleIsRead<L(!new), K(!new), V(!new)>(g: Grammar<L, K, V>, ok: K -> bool, updates: seq<Binding<K, V>>)
    requires Coherent(g, ok) && forall u :: u in updates ==> ok(u.key)
    ensures MadeReads(g, updates)
  {
    forall n, k | 0 <= n < |updates|
      ensures BoundBy(g.make(updates[n].key, updates[n].value), g.parse, k) == if k == updates[n].key then Some(g.cook(updates[n].value)) else None
    {
      assert updates[n] in updates;
    }
  }

  lemma AppendedValueStep<L, K, V>(g: Grammar<L, K, V>, lines: seq<L>, updates: seq<Binding<K, V>>, n: nat, k: K)
    requires n < |updates|
    ensures var u, before := updates[n], LastValue(Appended(g, lines, updates, n), g.parse, k);
            LastValue(Appended(g, lines, updates, n + 1), g.parse, k)
            == if LastIndex(g, lines, u.key) == -1 && BoundBy(g.make(u.key, u.value), g.parse, k).Some?
               then BoundBy(g.make(u.key, u.value), g.parse, k) else before
  {
    AppendedStep(g, lines, updates, n);
    LastValuePush(Appended(g, lines, updates, n), g.make(updates[n].key, updates[n].value), g.parse, k);
  }

  // Updates of other keys do not change what the appended lines say about a key.
  lemma {:induction false} AppendedStays<L, K(!new), V>(g: Grammar<L, K, V>, lines: seq<L>, updates: seq<Binding<K, V>>, from: nat, n: nat, k: K)
    requires MadeReads(g, updates) && from <= n <= |updates| && forall m :: from <= m < n ==> updates[m].key != k
    ensures LastValue(Appended(g, lines, updates, n), g.parse, k) == LastValue(Appended(g, lines, updates, from), g.parse, k)
    decreases n
  {
    if from < n {
      AppendedStays(g, lines, updates, from, n - 1, k);
      AppendedValueStep(g, lines, updates, n - 1, k);
    }
  }

  // The appended lines bind exactly the missing keys.
  lemma AppendedBinds<L, K(!new), V>(g: Grammar<L, K, V>, lines: seq<L>, updates: seq<Binding<K, V>>, m: nat)
    requires MadeReads(g, updates) && DistinctUpdates(updates) && m < |updates|
    ensures LastValue(Appended(g, lines, updates, |updates|), g.parse, updates[m].key)
            == if LastIndex(g, lines, updates[m].key) == -1 then Some(g.cook(updates[m].value)) else None
  {
    AppendedStays(g, lines, updates, 0, m, updates[m].key);
    AppendedValueStep(g, lines, updates, m, updates[m].key);
    AppendedStays(g, lines, updates, m + 1, |updates|, updates[m].key);
  }

  // ----- the update as a whole -----

  // Separator lines nobody reads.
  ghost predicate Silent<L, K, V>(g: Grammar<L, K, V>, glue: seq<L>) {
    forall i :: 0 <= i < |glue| ==> g.parse(glue[i]).None? && g.key(glue[i]).None?
  }

  // The lines written: the overwritten body, then, when something is missing, separator
  // lines and the appended ones.
  function Written<L, K(==), V>(g: Grammar<L, K, V>, lines: seq<L>, updates: seq<Binding<K, V>>, glue: seq<L>): (r: seq<L>)
    ensures |r| >= |lines|
    ensures forall i :: 0 <= i < |lines| ==> r[i] == LineAfter(g, lines, updates, |updates|, i)
  {
    var missing := Appended(g, lines, updates, |updates|);
    BodyAfter(g, lines, updates, |updates|) + (if |missing| == 0 then [] else glue + missing)
  }

  lemma WrittenBinds<L(!new), K(!new), V(!new)>(g: Grammar<L, K, V>, lines: seq<L>, updates: seq<Binding<K, V>>, glue: seq<L>, k: K)
    requires Silent(g, glue)
    ensures var missing := Appended(g, lines, updates, |updates|);
            LastValue(Written(g, lines, updates, glue), g.parse, k)
            == if LastValue(missing, g.parse, k).Some? then LastValue(missing, g.parse, k)
               else LastValue(BodyAfter(g, lines, updates, |updates|), g.parse, k)
  {
    var missing := Appended(g, lines, updates, |updates|);
    var body := BodyAfter(g, lines, updates, |updates|);
    LastValueAppend(body, if missing == [] then [] else glue + missing, g.parse, k);
    LastValueAppend(glue, missing, g.parse, k);
    LastValueNone(glue, g.parse, k);
  }

  ghost predicate AllAdmissible<K, V>(ok: K -> bool, updates: seq<Binding<K, V>>) {
    forall u :: u in updates ==> ok(u.key)
  }

  // Every updated key parses to its cooked new value.
  lemma UpdatedKeysReadBack<L(!new), K(!new), V(!new)>(g: Grammar<L, K, V>, ok: K -> bool, lines: seq<L>, updates: seq<Binding<K, V>>, glue: seq<L>, m: nat)
    requires Coherent(g, ok) && DistinctUpdates(updates) && AllAdmissible(ok, updates)
    requires Silent(g, glue) && m < |updates|
    ensures var parsed := Parsed(g, Written(g, lines, updates, glue));
            updates[m].key in parsed && parsed[updates[m].key] == g.cook(updates[m].value)
  {
    var k := updates[m].key;
    WrittenBinds(g, lines, updates, glue, k);
    BodyBindsUpdated(g, ok, lines, updates, m);
    AdmissibleIsRead(g, ok, updates);
    AppendedBinds(g, lines, updates, m);
    CollectLookup(Written(g, lines, updates, glue), g.parse, k);
  }

  // Every other key parses as before.
  lemma OtherKeysUntouched<L(!new), K(!new), V(!new)>(g: Grammar<L, K, V>, ok: K -> bool, lines: seq<L>, updates: seq<Binding<K, V>>, glue: seq<L>, k: K)
    requires Coherent(g, ok) && AllAdmissible(ok, updates) && Silent(g, glue)
    requires forall m :: 0 <= m < |updates| ==> updates[m].key != k
    ensures var parsed := Parsed(g, Written(g, lines, updates, glue));
            (k in parsed <==> k in Parsed(g, lines)) && (k in parsed ==> parsed[k] == Parsed(g, lines)[k])
  {
    WrittenBinds(g, lines, updates, glue, k);
    BodyKeepsOthers(g, ok, lines, updates, k);
    AdmissibleIsRead(g, ok, updates);
    AppendedStays(g, lines, updates, 0, |updates|, k);
    CollectLookup(Written(g, lines, updates, glue), g.parse, k);
    CollectLookup(lines, g.parse, k);
  }
}
