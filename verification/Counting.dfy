// Counting the elements of a sequence that satisfy a predicate. Ranks, positions after a
// stable sort and "how many rows are younger" are all expressed with Count.
module Counting {
  import opened Sequences

  function Count<T>(s: seq<T>, p: T -> bool): (n: nat)
    ensures n <= |s|
  {
    if s == [] then 0
    else Count(s[..|s| - 1], p) + (if p(s[|s| - 1]) then 1 else 0)
  }

  lemma {:induction false} CountAppend<T>(a: seq<T>, b: seq<T>, p: T -> bool)
    ensures Count(a + b, p) == Count(a, p) + Count(b, p)
  {
    if b == [] {
      assert a + b == a;
    } else {
      assert (a + b)[..|a + b| - 1] == a + b[..|b| - 1];
      CountAppend(a, b[..|b| - 1], p);
    }
  }

  lemma CountPush<T>(s: seq<T>, x: T, p: T -> bool)
    ensures Count(s + [x], p) == Count(s, p) + (if p(x) then 1 else 0)
  {
    assert (s + [x])[..|s|] == s;
  }

  lemma CountSplit<T>(s: seq<T>, i: nat, p: T -> bool)
    requires i <= |s|
    ensures Count(s, p) == Count(s[..i], p) + Count(s[i..], p)
  {
    assert s == s[..i] + s[i..];
    CountAppend(s[..i], s[i..], p);
  }

  lemma CountFirst<T>(s: seq<T>, p: T -> bool)
    requires s != [] && p(s[0])
    ensures Count(s, p) > 0
  {
    assert s == [s[0]] + s[1..];
    CountAppend([s[0]], s[1..], p);
    CountPush([], s[0], p);
    assert [] + [s[0]] == [s[0]];
  }

  // A prefix that stops before a satisfying element counts strictly less than the whole.
  lemma CountBefore<T>(s: seq<T>, i: nat, p: T -> bool)
    requires i < |s| && p(s[i])
    ensures Count(s[..i], p) < Count(s, p)
  {
    CountSplit(s, i, p);
    CountFirst(s[i..], p);
  }

  lemma {:induction false} CountMono<T>(s: seq<T>, p: T -> bool, q: T -> bool)
    requires forall x :: x in s && p(x) ==> q(x)
    ensures Count(s, p) <= Count(s, q)
  {
    if s != [] {
      assert s[|s| - 1] in s;
      CountMono(s[..|s| - 1], p, q);
    }
  }

  lemma CountEqual<T>(s: seq<T>, p: T -> bool, q: T -> bool)
    requires forall x :: x in s ==> p(x) == q(x)
    ensures Count(s, p) == Count(s, q)
  {
    CountMono(s, p, q);
    CountMono(s, q, p);
  }

  // Two disjoint predicates that together stay inside a third.
  lemma {:induction false} CountDisjoint<T>(s: seq<T>, p: T -> bool, q: T -> bool, r: T -> bool)
    requires forall x :: x in s ==> !(p(x) && q(x))
    requires forall x :: x in s && (p(x) || q(x)) ==> r(x)
    ensures Count(s, p) + Count(s, q) <= Count(s, r)
  {
    if s != [] {
      assert s[|s| - 1] in s;
      CountDisjoint(s[..|s| - 1], p, q, r);
    }
  }

  lemma {:induction false} CountNone<T>(s: seq<T>, p: T -> bool)
    requires forall x :: x in s ==> !p(x)
    ensures Count(s, p) == 0
  {
    if s != [] {
      assert s[|s| - 1] in s;
      CountNone(s[..|s| - 1], p);
    }
  }

  lemma {:induction false} CountAll<T>(s: seq<T>, p: T -> bool)
    requires forall x :: x in s ==> p(x)
    ensures Count(s, p) == |s|
  {
    if s != [] {
      assert s[|s| - 1] in s;
      CountAll(s[..|s| - 1], p);
    }
  }

  lemma LastApart<T>(s: seq<T>)
    requires s != []
    ensures multiset(s) == multiset(s[..|s| - 1]) + multiset{s[|s| - 1]}
  {
    assert s == s[..|s| - 1] + [s[|s| - 1]];
  }

  // Counting does not see the order of the elements.
  lemma {:induction false} CountPermutation<T>(a: seq<T>, b: seq<T>, p: T -> bool)
    requires multiset(a) == multiset(b)
    ensures Count(a, p) == Count(b, p)
  {
    if a == [] {
      assert |b| == |multiset(b)| == 0;
    } else {
      var front, x := a[..|a| - 1], a[|a| - 1];
      LastApart(a);
      assert x in multiset(b);
      var j :| 0 <= j < |b| && b[j] == x;
      var rest := b[..j] + b[j + 1..];
      TakeOut(b, j, p);
      SameRest(multiset(front), multiset(rest), x);
      CountPermutation(front, rest, p);
    }
  }

  lemma SameRest<T>(a: multiset<T>, b: multiset<T>, x: T)
    requires a + multiset{x} == b + multiset{x}
    ensures a == b
  {
    assert a == (a + multiset{x}) - multiset{x};
    assert b == (b + multiset{x}) - multiset{x};
  }

  // Taking one element out.
  lemma TakeOut<T>(s: seq<T>, j: nat, p: T -> bool)
    requires j < |s|
    ensures var rest := s[..j] + s[j + 1..];
            multiset(s) == multiset(rest) + multiset{s[j]} && Count(s, p) == Count(rest, p) + (if p(s[j]) then 1 else 0)
  {
    var x := s[j];
    assert s == s[..j] + [x] + s[j + 1..];
    CountAppend(s[..j], s[j + 1..], p);
    CountAppend(s[..j] + [x], s[j + 1..], p);
    CountPush(s[..j], x, p);
  }

  lemma {:induction false} CountFiltered<T>(s: seq<T>, keep: T -> bool, p: T -> bool)
    ensures Count(Filter(s, keep), p) <= Count(s, p)
  {
    if s != [] {
      var front, x := s[..|s| - 1], s[|s| - 1];
      CountFiltered(front, keep, p);
      CountPush(Filter(front, keep), x, p);
      assert Filter(front, keep) + [] == Filter(front, keep);
    }
  }

  lemma PermutationMembers<T>(a: seq<T>, b: seq<T>)
    requires multiset(a) == multiset(b)
    ensures forall x :: x in a <==> x in b
  {
    assert forall x :: x in a <==> x in multiset(a);
  }
}
