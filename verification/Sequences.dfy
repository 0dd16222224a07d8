// Facts about sequences shared by the models.
module Sequences {

  lemma Reassociate<T>(a: seq<T>, b: seq<T>, c: seq<T>)
    ensures a + (b + c) == (a + b) + c
  {
  }

  lemma Cancel<T>(a: seq<T>, b: seq<T>, c: seq<T>, d: seq<T>)
    requires a + b == c + d && |a| == |c|
    ensures a == c && b == d
  {
    assert a == (a + b)[..|a|] && c == (c + d)[..|c|];
    assert b == (a + b)[|a|..] && d == (c + d)[|c|..];
  }

  ghost predicate All<T>(s: seq<T>, ok: T -> bool) { forall i :: 0 <= i < |s| ==> ok(s[i]) }

  function Map<A, B>(f: A -> B, s: seq<A>): (r: seq<B>)
    ensures |r| == |s| && forall i :: 0 <= i < |s| ==> r[i] == f(s[i])
  {
    seq(|s|, i requires 0 <= i < |s| => f(s[i]))
  }

  lemma AllCons<T>(x: T, rest: seq<T>, ok: T -> bool)
    ensures All([x] + rest, ok) <==> ok(x) && All(rest, ok)
  {
    var s := [x] + rest;
    assert s[0] == x && forall i :: 0 <= i < |rest| ==> s[i + 1] == rest[i];
    assert forall i :: 0 < i < |s| ==> s[i] == rest[i - 1];
  }

  lemma AllAppend<T>(a: seq<T>, b: seq<T>, ok: T -> bool)
    ensures All(a + b, ok) <==> All(a, ok) && All(b, ok)
  {
    var s := a + b;
    assert forall i :: 0 <= i < |a| ==> s[i] == a[i];
    assert forall i :: 0 <= i < |b| ==> s[|a| + i] == b[i];
    assert forall i :: 0 <= i < |s| ==> s[i] == if i < |a| then a[i] else b[i - |a|];
  }

  lemma MapCons<A, B>(f: A -> B, x: A, rest: seq<A>)
    ensures Map(f, [x] + rest) == [f(x)] + Map(f, rest)
  {
  }

  function Filter<T>(s: seq<T>, keep: T -> bool): seq<T> {
    if s == [] then [] else Filter(s[..|s| - 1], keep) + (if keep(s[|s| - 1]) then [s[|s| - 1]] else [])
  }

  lemma {:induction false} FilterMembers<T>(s: seq<T>, keep: T -> bool)
    ensures forall x :: x in Filter(s, keep) <==> x in s && keep(x)
  {
    if s != [] {
      FilterMembers(s[..|s| - 1], keep);
      assert s == s[..|s| - 1] + [s[|s| - 1]];
    }
  }

  // A kept element stands behind the kept ones before it.
  lemma {:induction false} FilterAt<T>(s: seq<T>, i: nat, keep: T -> bool)
    requires i < |s| && keep(s[i])
    ensures var j, r := |Filter(s[..i], keep)|, Filter(s, keep);
            j < |r| && r[j] == s[i] && r[..j] == Filter(s[..i], keep)
  {
    if i < |s| - 1 {
      FilterAt(s[..|s| - 1], i, keep);
      assert s[..|s| - 1][..i] == s[..i];
    }
  }
}
