// Filling a dictionary from a list of items, some of which bind a key: later items win.
module LastWins {
  import opened Wrappers

  datatype Binding<K, V> = Binding(key: K, value: V)

  function Collect<T, K, V>(items: seq<T>, parse: T -> Option<Binding<K, V>>): map<K, V> {
    if items == [] then map[]
    else
      var before := Collect(items[..|items| - 1], parse);
      match parse(items[|items| - 1])
      case None => before
      case Some(b) => before[b.key := b.value]
  }

  // The loop: more items into a dictionary collected so far.
  method CollectInto<T, K(==), V>(values: map<K, V>, ghost done: seq<T>, items: seq<T>, parse: T -> Option<Binding<K, V>>)
    returns (all: map<K, V>)
    requires values == Collect(done, parse)
    ensures all == Collect(done + items, parse)
  {
    all := values;
    assert done + items[..0] == done;
    for i := 0 to |items|
      invariant all == Collect(done + items[..i], parse)
    {
      CollectPush(done, items, i, parse);
      match parse(items[i]) {
        case None =>
        case Some(b) => all := all[b.key := b.value];
      }
    }
    assert items[..|items|] == items;
  }

  lemma CollectPush<T, K, V>(done: seq<T>, items: seq<T>, i: nat, parse: T -> Option<Binding<K, V>>)
    requires i < |items|
    ensures var before := Collect(done + items[..i], parse);
            Collect(done + items[..i + 1], parse)
            == match parse(items[i]) { case None => before case Some(b) => before[b.key := b.value] }
  {
    var s := done + items[..i + 1];
    assert s[..|s| - 1] == done + items[..i];
  }

  lemma CollectOne<T, K, V>(item: T, parse: T -> Option<Binding<K, V>>)
    requires parse(item).Some?
    ensures Collect([item], parse) == map[parse(item).value.key := parse(item).value.value]
  {
    assert [item][..0] == [];
  }

  // The last item always wins.
  lemma CollectLast<T, K, V>(items: seq<T>, parse: T -> Option<Binding<K, V>>)
    requires items != [] && parse(items[|items| - 1]).Some?
    ensures var all, b := Collect(items, parse), parse(items[|items| - 1]).value;
            b.key in all && all[b.key] == b.value
  {
  }

  lemma CollectNone<T, K, V>(item: T, parse: T -> Option<Binding<K, V>>)
    requires parse(item).None?
    ensures Collect([item], parse) == map[]
  {
    assert [item][..0] == [];
  }

  // The value an item binds k to.
  ghost function BoundBy<T, K, V>(item: T, parse: T -> Option<Binding<K, V>>, k: K): Option<V> {
    if parse(item).Some? && parse(item).value.key == k then Some(parse(item).value.value) else None
  }

  // Item i is the last one that binds k.
  ghost predicate IsLast<T, K, V>(items: seq<T>, parse: T -> Option<Binding<K, V>>, k: K, i: nat) {
    i < |items| && BoundBy(items[i], parse, k).Some? && forall j :: i < j < |items| ==> BoundBy(items[j], parse, k).None?
  }

  // A key is in the dictionary exactly when some item is the last to bind it, and then it
  // has that item's value.
  lemma {:induction false} CollectIsLast<T, K, V>(items: seq<T>, parse: T -> Option<Binding<K, V>>, k: K)
    ensures k in Collect(items, parse) <==> exists i: nat :: IsLast(items, parse, k, i)
    ensures forall i: nat :: IsLast(items, parse, k, i) ==>
              k in Collect(items, parse) && Collect(items, parse)[k] == parse(items[i]).value.value
  {
    if items != [] {
      var front, last := items[..|items| - 1], items[|items| - 1];
      CollectIsLast(front, parse, k);
      if BoundBy(last, parse, k).Some? {
        assert IsLast(items, parse, k, |items| - 1);
      } else {
        forall i: nat ensures IsLast(items, parse, k, i) <==> IsLast(front, parse, k, i) {
          assert forall j :: 0 <= j < |front| ==> front[j] == items[j];
        }
      }
    }
  }

  lemma LastBinds<T, K, V>(items: seq<T>, parse: T -> Option<Binding<K, V>>, k: K, i: nat, v: V)
    ensures (IsLast(items, parse, k, i) && parse(items[i]).value.value == v)
            <==> (i < |items| && BoundBy(items[i], parse, k) == Some(v)
                  && forall j :: i < j < |items| ==> BoundBy(items[j], parse, k).None?)
  {
  }

  // An item decides about its key when no later item binds it.
  lemma LastDecides<T, K, V>(items: seq<T>, parse: T -> Option<Binding<K, V>>, i: nat, b: Binding<K, V>)
    requires i < |items| && parse(items[i]) == Some(b)
    requires forall j :: i < j < |items| ==> BoundBy(items[j], parse, b.key).None?
    ensures b.key in Collect(items, parse) && Collect(items, parse)[b.key] == b.value
  {
    CollectIsLast(items, parse, b.key);
    assert IsLast(items, parse, b.key, i);
  }

  // A key is in the dictionary exactly when some item binds it.
  lemma {:induction false} CollectHas<T, K, V>(items: seq<T>, parse: T -> Option<Binding<K, V>>, k: K)
    ensures k in Collect(items, parse) <==> SomeBinds(items, parse, k)
  {
    if items != [] {
      var front := items[..|items| - 1];
      CollectHas(front, parse, k);
      assert forall i :: 0 <= i < |front| ==> items[i] == front[i];
    }
  }

  ghost predicate SomeBinds<T, K, V>(items: seq<T>, parse: T -> Option<Binding<K, V>>, k: K) {
    exists i :: 0 <= i < |items| && BoundBy(items[i], parse, k).Some?
  }

  lemma BindsBehind<T, K, V>(first: T, second: T, later: seq<T>, parse: T -> Option<Binding<K, V>>, k: K)
    requires BoundBy(first, parse, k).None? && BoundBy(second, parse, k).None?
    ensures SomeBinds([first] + ([second] + later), parse, k) <==> SomeBinds(later, parse, k)
  {
    var items := [first] + ([second] + later);
    assert forall i :: 0 <= i < |later| ==> items[i + 2] == later[i];
    assert forall i :: 2 <= i < |items| ==> items[i] == later[i - 2];
  }

  lemma LastBinding<T, K, V>(items: seq<T>, parse: T -> Option<Binding<K, V>>, k: K) returns (i: nat)
    requires k in Collect(items, parse)
    ensures IsLast(items, parse, k, i)
  {
    CollectIsLast(items, parse, k);
    i :| IsLast(items, parse, k, i);
  }

  // ----- the value of one key -----

  ghost function LastValue<T, K, V>(items: seq<T>, parse: T -> Option<Binding<K, V>>, k: K): Option<V> {
    if items == [] then None
    else if BoundBy(items[|items| - 1], parse, k).Some? then BoundBy(items[|items| - 1], parse, k)
    else LastValue(items[..|items| - 1], parse, k)
  }

  lemma {:induction false} CollectLookup<T, K, V>(items: seq<T>, parse: T -> Option<Binding<K, V>>, k: K)
    ensures (if k in Collect(items, parse) then Some(Collect(items, parse)[k]) else None) == LastValue(items, parse, k)
  {
    if items != [] {
      CollectLookup(items[..|items| - 1], parse, k);
    }
  }

  lemma {:induction false} LastValueAppend<T, K, V>(a: seq<T>, b: seq<T>, parse: T -> Option<Binding<K, V>>, k: K)
    ensures LastValue(a + b, parse, k) == if LastValue(b, parse, k).Some? then LastValue(b, parse, k) else LastValue(a, parse, k)
  {
    if b == [] {
      assert a + b == a;
    } else {
      LastValueAppend(a, b[..|b| - 1], parse, k);
      assert (a + b)[..|a + b| - 1] == a + b[..|b| - 1];
    }
  }

  lemma LastValuePush<T, K, V>(items: seq<T>, x: T, parse: T -> Option<Binding<K, V>>, k: K)
    ensures LastValue(items + [x], parse, k) == if BoundBy(x, parse, k).Some? then BoundBy(x, parse, k) else LastValue(items, parse, k)
  {
    assert (items + [x])[..|items|] == items;
  }

  lemma {:induction false} LastValuePointwise<T, K, V>(a: seq<T>, b: seq<T>, parse: T -> Option<Binding<K, V>>, k: K)
    requires |a| == |b| && forall i :: 0 <= i < |a| ==> BoundBy(a[i], parse, k) == BoundBy(b[i], parse, k)
    ensures LastValue(a, parse, k) == LastValue(b, parse, k)
  {
    if a != [] {
      LastValuePointwise(a[..|a| - 1], b[..|b| - 1], parse, k);
    }
  }

  lemma {:induction false} LastValueAt<T, K, V>(items: seq<T>, parse: T -> Option<Binding<K, V>>, k: K, i: nat)
    requires IsLast(items, parse, k, i)
    ensures LastValue(items, parse, k) == BoundBy(items[i], parse, k)
  {
    if i < |items| - 1 {
      LastValueAt(items[..|items| - 1], parse, k, i);
    }
  }

  lemma {:induction false} LastValueNone<T, K, V>(items: seq<T>, parse: T -> Option<Binding<K, V>>, k: K)
    requires forall j :: 0 <= j < |items| ==> BoundBy(items[j], parse, k).None?
    ensures LastValue(items, parse, k) == None
  {
    if items != [] {
      LastValueNone(items[..|items| - 1], parse, k);
    }
  }
}
