// Loops that append a list of findings per item.
module Listing {
  import opened Sequences

  // The lists f gives for each item, one after the other.
  ghost function Each<A, B>(items: seq<A>, f: A -> seq<B>): seq<B> {
    if items == [] then [] else Each(items[..|items| - 1], f) + f(items[|items| - 1])
  }

  lemma EachPush<A, B>(items: seq<A>, i: nat, f: A -> seq<B>)
    requires i < |items|
    ensures Each(items[..i + 1], f) == Each(items[..i], f) + f(items[i])
  {
    assert items[..i + 1][..i] == items[..i];
  }

  lemma EachOne<A, B>(item: A, f: A -> seq<B>)
    ensures Each([item], f) == f(item)
  {
    assert [item][..0] == [];
  }

  lemma {:induction false} EachEmptyIff<A, B>(items: seq<A>, f: A -> seq<B>)
    ensures Each(items, f) == [] <==> forall i :: 0 <= i < |items| ==> f(items[i]) == []
  {
    if items != [] {
      var front := items[..|items| - 1];
      EachEmptyIff(front, f);
      assert |Each(items, f)| == |Each(front, f)| + |f(items[|items| - 1])|;
      assert forall i :: 0 <= i < |front| ==> items[i] == front[i];
    }
  }

  lemma {:induction false} EachAll<A, B>(items: seq<A>, f: A -> seq<B>, ok: B -> bool)
    ensures All(Each(items, f), ok) <==> forall i :: 0 <= i < |items| ==> All(f(items[i]), ok)
  {
    if items != [] {
      var front := items[..|items| - 1];
      EachAll(front, f, ok);
      AllAppend(Each(front, f), f(items[|items| - 1]), ok);
      assert forall i :: 0 <= i < |front| ==> items[i] == front[i];
    }
  }

  lemma {:induction false} EachHas<A, B>(items: seq<A>, f: A -> seq<B>, x: B)
    ensures x in Each(items, f) <==> exists i :: 0 <= i < |items| && x in f(items[i])
  {
    if items != [] {
      var front := items[..|items| - 1];
      EachHas(front, f, x);
      assert forall i :: 0 <= i < |front| ==> items[i] == front[i];
    }
  }
}
