// Rewriting a rewritten env file, over any line grammar: a later update leaves nothing of an
// earlier one for the same keys, and which keys are found again.
module EnvRewrite {
  import opened Wrappers
  import opened Sequences
  import opened LastWins
  import opened EnvTable

  // Every updated key is in the file, or a line written for it will be filed under it.
  ghost predicate Findable<L, K, V>(g: Grammar<L, K, V>, own: K -> bool, lines: seq<L>, updates: seq<Binding<K, V>>) {
    forall m :: 0 <= m < |updates| ==> LastIndex(g, lines, updates[m].key) >= 0 || own(updates[m].key)
  }

  ghost predicate SameKeys<K, V>(a: seq<Binding<K, V>>, b: seq<Binding<K, V>>) {
    |a| == |b| && forall m :: 0 <= m < |a| ==> a[m].key == b[m].key
  }

  // ----- where the appended lines are -----

  // The place of update m among the appended lines.
  function Slot<L, K(==), V>(g: Grammar<L, K, V>, lines: seq<L>, updates: seq<Binding<K, V>>, m: nat): nat
    requires m <= |updates|
  {
    |Appended(g, lines, updates, m)|
  }

  lemma {:induction false} AppendedAt<L, K, V>(g: Grammar<L, K, V>, lines: seq<L>, updates: seq<Binding<K, V>>, n: nat, m: nat)
    requires m < n <= |updates| && LastIndex(g, lines, updates[m].key) == -1
    ensures Slot(g, lines, updates, m) < Slot(g, lines, updates, n)
    ensures Appended(g, lines, updates, n)[Slot(g, lines, updates, m)] == g.make(updates[m].key, updates[m].value)
  {
    if m < n - 1 {
      AppendedAt(g, lines, updates, n - 1, m);
    }
  }

  lemma {:induction false} AppendedFrom<L, K, V>(g: Grammar<L, K, V>, lines: seq<L>, updates: seq<Binding<K, V>>, n: nat, j: nat)
    returns (m: nat)
    requires n <= |updates| && j < Slot(g, lines, updates, n)
    ensures m < n && LastIndex(g, lines, updates[m].key) == -1 && Slot(g, lines, updates, m) == j
  {
    if j < Slot(g, lines, updates, n - 1) {
      m := AppendedFrom(g, lines, updates, n - 1, j);
    } else {
      m := n - 1;
    }
  }

  lemma {:induction false} SameSlots<L, K, V>(g: Grammar<L, K, V>, lines: seq<L>, a: seq<Binding<K, V>>, b: seq<Binding<K, V>>, n: nat)
    requires SameKeys(a, b) && n <= |a|
    ensures Slot(g, lines, a, n) == Slot(g, lines, b, n)
  {
    if n != 0 {
      SameSlots(g, lines, a, b, n - 1);
    }
  }

  // ----- where an updated key is found again -----

  // The line of the written file that update m wrote.
  function Place<L, K(==), V>(g: Grammar<L, K, V>, lines: seq<L>, updates: seq<Binding<K, V>>, glue: seq<L>, m: nat): int
    requires m < |updates|
  {
    var i := LastIndex(g, lines, updates[m].key);
    if i >= 0 then i else |lines| + |glue| + Slot(g, lines, updates, m)
  }

  lemma AppendedPlace<L, K, V>(g: Grammar<L, K, V>, lines: seq<L>, updates: seq<Binding<K, V>>, glue: seq<L>, j: nat) returns (m: nat)
    requires j < |Appended(g, lines, updates, |updates|)|
    ensures m < |updates| && LastIndex(g, lines, updates[m].key) == -1
    ensures Place(g, lines, updates, glue, m) == |lines| + |glue| + j
  {
    m := AppendedFrom(g, lines, updates, |updates|, j);
  }

  lemma WrittenTail<L, K, V>(g: Grammar<L, K, V>, lines: seq<L>, updates: seq<Binding<K, V>>, glue: seq<L>, i: nat)
    requires |lines| <= i < |Written(g, lines, updates, glue)|
    ensures var missing, j := Appended(g, lines, updates, |updates|), i - |lines| - |glue|;
            missing != [] && j < |missing|
            && Written(g, lines, updates, glue)[i] == if j >= 0 then missing[j] else glue[i - |lines|]
  {
  }

  lemma WrittenAppended<L, K, V>(g: Grammar<L, K, V>, lines: seq<L>, updates: seq<Binding<K, V>>, glue: seq<L>, m: nat)
    requires m < |updates| && LastIndex(g, lines, updates[m].key) == -1
    ensures var i := Place(g, lines, updates, glue, m);
            i < |Written(g, lines, updates, glue)|
            && Written(g, lines, updates, glue)[i] == g.make(updates[m].key, updates[m].value)
  {
    AppendedAt(g, lines, updates, |updates|, m);
    WrittenTail(g, lines, updates, glue, Place(g, lines, updates, glue, m));
  }

  // What a line of the tail is filed under, it was written for.
  lemma TailIsFiled<L(!new), K(!new), V(!new)>(g: Grammar<L, K, V>, lines: seq<L>, updates: seq<Binding<K, V>>, glue: seq<L>, i: nat)
    returns (m: nat)
    requires Silent(g, glue) && |lines| <= i < |Written(g, lines, updates, glue)|
    requires g.key(Written(g, lines, updates, glue)[i]).Some?
    ensures m < |updates| && LastIndex(g, lines, updates[m].key) == -1 && Place(g, lines, updates, glue, m) == i
    ensures Written(g, lines, updates, glue)[i] == g.make(updates[m].key, updates[m].value)
  {
    WrittenTail(g, lines, updates, glue, i);
    m := AppendedPlace(g, lines, updates, glue, i - |lines| - |glue|);
    WrittenAppended(g, lines, updates, glue, m);
  }

  lemma LastIndexIs<L, K, V>(g: Grammar<L, K, V>, lines: seq<L>, k: K, i: nat)
    requires i < |lines| && g.key(lines[i]) == Some(k)
    requires forall j :: i < j < |lines| ==> g.key(lines[j]) != Some(k)
    ensures LastIndex(g, lines, k) == i
  {
  }

  lemma TailMatches<L(!new), K(!new), V(!new)>(g: Grammar<L, K, V>, own: K -> bool, lines: seq<L>, updates: seq<Binding<K, V>>, glue: seq<L>, m: nat, i: nat)
    requires Filing(g, own) && Findable(g, own, lines, updates) && DistinctUpdates(updates) && Silent(g, glue)
    requires m < |updates| && |lines| <= i < |Written(g, lines, updates, glue)|
    requires g.key(Written(g, lines, updates, glue)[i]) == Some(updates[m].key)
    ensures i == Place(g, lines, updates, glue, m)
  {
    var n := TailIsFiled(g, lines, updates, glue, i);
    assert updates[n].key == updates[m].key;
    assert n == m;
  }

  // An updated key is found where its update wrote it.
  lemma PlaceIsFound<L(!new), K(!new), V(!new)>(g: Grammar<L, K, V>, own: K -> bool, lines: seq<L>, updates: seq<Binding<K, V>>, glue: seq<L>, m: nat)
    requires Filing(g, own) && Findable(g, own, lines, updates) && DistinctUpdates(updates) && Silent(g, glue) && m < |updates|
    ensures LastIndex(g, Written(g, lines, updates, glue), updates[m].key) == Place(g, lines, updates, glue, m)
  {
    var written, i := Written(g, lines, updates, glue), Place(g, lines, updates, glue, m);
    var k := updates[m].key;
    if LastIndex(g, lines, k) >= 0 {
      KeyKept(g, own, lines, updates, i);
    } else {
      WrittenAppended(g, lines, updates, glue, m);
    }
    forall j | i < j < |written| ensures g.key(written[j]) != Some(k) {
      if j < |lines| {
        KeyKept(g, own, lines, updates, j);
      } else if g.key(written[j]) == Some(k) {
        TailMatches(g, own, lines, updates, glue, m, j);
      }
    }
    LastIndexIs(g, written, k, i);
  }

  // ----- a later update replaces an earlier one -----

  lemma {:induction false} NothingMissing<L, K, V>(g: Grammar<L, K, V>, lines: seq<L>, updates: seq<Binding<K, V>>, n: nat)
    requires n <= |updates|
    ensures Appended(g, lines, updates, n) == [] <==> forall m :: 0 <= m < n ==> LastIndex(g, lines, updates[m].key) >= 0
  {
    if n != 0 {
      NothingMissing(g, lines, updates, n - 1);
    }
  }

  // The line update m writes, over a line of its own or anew.
  function LineOf<L, K(==), V>(g: Grammar<L, K, V>, lines: seq<L>, updates: seq<Binding<K, V>>, m: nat): L
    requires m < |updates|
  {
    var u, i := updates[m], LastIndex(g, lines, updates[m].key);
    if i >= 0 then g.rewrite(lines[i], u.key, u.value) else g.make(u.key, u.value)
  }

  lemma LineAtPlace<L(!new), K(!new), V(!new)>(g: Grammar<L, K, V>, lines: seq<L>, updates: seq<Binding<K, V>>, glue: seq<L>, m: nat)
    requires DistinctUpdates(updates) && m < |updates|
    ensures Place(g, lines, updates, glue, m) < |Written(g, lines, updates, glue)|
    ensures Written(g, lines, updates, glue)[Place(g, lines, updates, glue, m)] == LineOf(g, lines, updates, m)
  {
    if LastIndex(g, lines, updates[m].key) >= 0 {
      NamedLineRewritten(g, lines, updates, |updates|, m);
    } else {
      WrittenAppended(g, lines, updates, glue, m);
    }
  }

  // No update wrote line i.
  ghost predicate Unwritten<L, K, V>(g: Grammar<L, K, V>, lines: seq<L>, updates: seq<Binding<K, V>>, glue: seq<L>, i: nat) {
    forall m :: 0 <= m < |updates| ==> Place(g, lines, updates, glue, m) != i
  }

  lemma UnwrittenLine<L(!new), K(!new), V(!new)>(g: Grammar<L, K, V>, lines: seq<L>, updates: seq<Binding<K, V>>, glue: seq<L>, i: nat)
    requires i < |Written(g, lines, updates, glue)| && Unwritten(g, lines, updates, glue, i)
    ensures i < |lines| + |glue|
    ensures Written(g, lines, updates, glue)[i] == (lines + glue)[i]
  {
    if i < |lines| {
      forall m | 0 <= m < |updates| ensures LastIndex(g, lines, updates[m].key) != i {
        assert Place(g, lines, updates, glue, m) != i;
      }
      UnnamedLineKept(g, lines, updates, |updates|, i);
    } else {
      WrittenTail(g, lines, updates, glue, i);
      if i - |lines| - |glue| >= 0 {
        var m := AppendedPlace(g, lines, updates, glue, i - |lines| - |glue|);
      }
    }
  }

  lemma SamePlaces<L, K, V>(g: Grammar<L, K, V>, lines: seq<L>, a: seq<Binding<K, V>>, b: seq<Binding<K, V>>, glue: seq<L>)
    requires SameKeys(a, b)
    ensures |Written(g, lines, a, glue)| == |Written(g, lines, b, glue)|
    ensures forall m :: 0 <= m < |a| ==> Place(g, lines, a, glue, m) == Place(g, lines, b, glue, m)
  {
    SameSlots(g, lines, a, b, |a|);
    forall m | 0 <= m < |a| ensures Slot(g, lines, a, m) == Slot(g, lines, b, m) {
      SameSlots(g, lines, a, b, m);
    }
  }

  lemma OverwrittenLine<L(!new), K(!new), V(!new)>(g: Grammar<L, K, V>, own: K -> bool, lines: seq<L>, first: seq<Binding<K, V>>, second: seq<Binding<K, V>>, m: nat)
    requires Filing(g, own) && Findable(g, own, lines, first) && SameKeys(first, second) && m < |first|
    ensures g.rewrite(LineOf(g, lines, first, m), second[m].key, second[m].value) == LineOf(g, lines, second, m)
  {
  }

  // The same keys once more: nothing is appended, and the file is as if the first update had
  // never been.
  lemma UpdateOverwrites<L(!new), K(!new), V(!new)>(g: Grammar<L, K, V>, own: K -> bool, lines: seq<L>,
                                                    first: seq<Binding<K, V>>, second: seq<Binding<K, V>>, glue: seq<L>, glueAgain: seq<L>)
    requires Filing(g, own) && Findable(g, own, lines, first) && Silent(g, glue)
    requires DistinctUpdates(first) && SameKeys(first, second)
    ensures var written := Written(g, lines, first, glue);
            Appended(g, written, second, |second|) == []
            && Written(g, written, second, glueAgain) == Written(g, lines, second, glue)
  {
    var once, direct := Written(g, lines, first, glue), Written(g, lines, second, glue);
    SamePlaces(g, lines, first, second, glue);
    forall m | 0 <= m < |second|
      ensures LastIndex(g, once, second[m].key) == Place(g, lines, first, glue, m) == Place(g, lines, second, glue, m) >= 0
    {
      PlaceIsFound(g, own, lines, first, glue, m);
    }
    NothingMissing(g, once, second, |second|);
    forall i | 0 <= i < |once| ensures LineAfter(g, once, second, |second|, i) == direct[i] {
      OverwrittenAt(g, own, lines, first, second, glue, i);
    }
    assert Written(g, once, second, glueAgain) == direct;
  }

  lemma OverwrittenAt<L(!new), K(!new), V(!new)>(g: Grammar<L, K, V>, own: K -> bool, lines: seq<L>,
                                                 first: seq<Binding<K, V>>, second: seq<Binding<K, V>>, glue: seq<L>, i: nat)
    requires Filing(g, own) && Findable(g, own, lines, first) && Silent(g, glue)
    requires DistinctUpdates(first) && SameKeys(first, second)
    requires i < |Written(g, lines, first, glue)| == |Written(g, lines, second, glue)|
    requires forall m :: 0 <= m < |second| ==>
               LastIndex(g, Written(g, lines, first, glue), second[m].key) == Place(g, lines, first, glue, m) == Place(g, lines, second, glue, m) >= 0
    ensures LineAfter(g, Written(g, lines, first, glue), second, |second|, i) == Written(g, lines, second, glue)[i]
  {
    var once := Written(g, lines, first, glue);
    if m: nat :| m < |second| && Place(g, lines, first, glue, m) == i {
      NamedLineRewritten(g, once, second, |second|, m);
      LineAtPlace(g, lines, first, glue, m);
      LineAtPlace(g, lines, second, glue, m);
      OverwrittenLine(g, own, lines, first, second, m);
    } else {
      UnnamedLineKept(g, once, second, |second|, i);
      UnwrittenLine(g, lines, first, glue, i);
      UnwrittenLine(g, lines, second, glue, i);
    }
  }

  // ----- keys that are never found -----

  // A line written for a foreign key is filed under a smaller key, if at all.
  ghost predicate Lossy<L(!new), K(!new), V(!new)>(g: Grammar<L, K, V>, own: K -> bool, size: K -> nat) {
    forall k, v :: !own(k) && g.key(g.make(k, v)).Some? ==> size(g.key(g.make(k, v)).value) < size(k)
  }

  // With a foreign key missing from the file, some key is still missing after the update.
  lemma {:induction false} StillMissing<L(!new), K(!new), V(!new)>(g: Grammar<L, K, V>, own: K -> bool, size: K -> nat, bound: nat,
                                                                   lines: seq<L>, updates: seq<Binding<K, V>>, glue: seq<L>, m: nat)
    returns (missing: nat)
    requires Filing(g, own) && Lossy(g, own, size) && Silent(g, glue)
    requires forall n :: 0 <= n < |updates| ==> size(updates[n].key) <= bound
    requires m < |updates| && !own(updates[m].key) && LastIndex(g, lines, updates[m].key) == -1
    ensures missing < |updates| && LastIndex(g, Written(g, lines, updates, glue), updates[missing].key) == -1
    decreases bound - size(updates[m].key)
  {
    var written, k := Written(g, lines, updates, glue), updates[m].key;
    var i := LastIndex(g, written, k);
    if i == -1 {
      missing := m;
    } else {
      if i < |lines| {
        KeyKept(g, own, lines, updates, i);
      }
      var n := TailIsFiled(g, lines, updates, glue, i);
      missing := StillMissing(g, own, size, bound, lines, updates, glue, n);
    }
  }

  // ----- a change of every written value -----

  function MapValues<K, V>(h: V -> V, updates: seq<Binding<K, V>>): (r: seq<Binding<K, V>>)
    ensures |r| == |updates| && forall m :: 0 <= m < |updates| ==> r[m] == Binding(updates[m].key, h(updates[m].value))
  {
    seq(|updates|, m requires 0 <= m < |updates| => Binding(updates[m].key, h(updates[m].value)))
  }

  // f on a written line is h on the value written.
  ghost predicate Commutes<L(!new), K(!new), V(!new)>(g: Grammar<L, K, V>, f: L -> L, h: V -> V) {
    && (forall l, k, v :: f(g.rewrite(l, k, v)) == g.rewrite(l, k, h(v)))
    && (forall k, v :: f(g.make(k, v)) == g.make(k, h(v)))
  }

  lemma MapWritten<L(!new), K(!new), V(!new)>(g: Grammar<L, K, V>, f: L -> L, h: V -> V, lines: seq<L>, updates: seq<Binding<K, V>>, glue: seq<L>)
    requires Commutes(g, f, h) && DistinctUpdates(updates)
    requires Map(f, lines) == lines && Map(f, glue) == glue
    ensures Map(f, Written(g, lines, updates, glue)) == Written(g, lines, MapValues(h, updates), glue)
  {
    var changed := MapValues(h, updates);
    var a, b := Written(g, lines, updates, glue), Written(g, lines, changed, glue);
    SamePlaces(g, lines, updates, changed, glue);
    forall i | 0 <= i < |a| ensures f(a[i]) == b[i] {
      if m: nat :| m < |updates| && Place(g, lines, updates, glue, m) == i {
        LineAtPlace(g, lines, updates, glue, m);
        LineAtPlace(g, lines, changed, glue, m);
      } else {
        UnwrittenLine(g, lines, updates, glue, i);
        UnwrittenLine(g, lines, changed, glue, i);
        assert (lines + glue)[i] == if i < |lines| then lines[i] else glue[i - |lines|];
      }
    }
  }
}
