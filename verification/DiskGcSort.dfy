// The stable per-repository sort of scripts/disk_gc_plan.py, and where each entry ends up.
module DiskGcSort {
  import opened Counting

  // One superseded-generation candidate, as the planner stores it: (age, image id).
  datatype Entry = Entry(age: real, id: string)

  function Younger(age: real): Entry -> bool { (e: Entry) => e.age < age }

  function SameAge(age: real): Entry -> bool { (e: Entry) => e.age == age }

  function AtMost(age: real): Entry -> bool { (e: Entry) => e.age <= age }

  // Insertion behind every entry that is not older: equal ages keep their order.
  function Insert(s: seq<Entry>, e: Entry): (r: seq<Entry>)
    ensures |r| == |s| + 1
  {
    if s == [] || s[|s| - 1].age <= e.age then s + [e]
    else Insert(s[..|s| - 1], e) + [s[|s| - 1]]
  }

  // Ascending by age, and stable.
  function StableSort(es: seq<Entry>): (r: seq<Entry>)
    ensures |r| == |es|
  {
    if es == [] then [] else Insert(StableSort(es[..|es| - 1]), es[|es| - 1])
  }

  // The position a stable ascending sort by age must give to entry i.
  function RankIn(es: seq<Entry>, i: nat): nat
    requires i < |es|
  {
    Count(es, Younger(es[i].age)) + Count(es[..i], SameAge(es[i].age))
  }

  ghost predicate Sorted(s: seq<Entry>) {
    forall i, j :: 0 <= i < j < |s| ==> s[i].age <= s[j].age
  }

  // In a sorted list the entries no older than a given age are exactly a prefix.
  lemma {:induction false} AtMostIsPrefix(s: seq<Entry>, age: real)
    requires Sorted(s)
    ensures var p := Count(s, AtMost(age));
            (forall k :: 0 <= k < p ==> s[k].age <= age) && (forall k :: p <= k < |s| ==> s[k].age > age)
  {
    if s != [] {
      if s[|s| - 1].age <= age {
        CountAll(s, AtMost(age));
      } else {
        AtMostIsPrefix(s[..|s| - 1], age);
      }
    }
  }

  lemma {:induction false} InsertSplits(s: seq<Entry>, e: Entry)
    requires Sorted(s)
    ensures var p := Count(s, AtMost(e.age));
            Insert(s, e) == s[..p] + [e] + s[p..]
  {
    AtMostIsPrefix(s, e.age);
    var p := Count(s, AtMost(e.age));
    if s == [] {
    } else if s[|s| - 1].age <= e.age {
      assert p == |s|;
    } else {
      var front := s[..|s| - 1];
      InsertSplits(front, e);
      assert p == Count(front, AtMost(e.age));
      SpliceBeforeLast(s, e, p);
    }
  }

  lemma SpliceBeforeLast<T>(s: seq<T>, x: T, p: nat)
    requires p < |s|
    ensures var front := s[..|s| - 1];
            front[..p] + [x] + front[p..] + [s[|s| - 1]] == s[..p] + [x] + s[p..]
  {
    var front := s[..|s| - 1];
    assert s[..p] == front[..p];
    assert s[p..] == front[p..] + [s[|s| - 1]];
  }

  lemma SplicedSorted(s: seq<Entry>, e: Entry)
    requires Sorted(s)
    ensures Sorted(Insert(s, e))
    ensures multiset(Insert(s, e)) == multiset(s) + multiset{e}
  {
    InsertSplits(s, e);
    AtMostIsPrefix(s, e.age);
    var p := Count(s, AtMost(e.age));
    SpliceSorted(s, e, p);
    SpliceCounts(s, e, p);
  }

  lemma SpliceSorted(s: seq<Entry>, e: Entry, p: nat)
    requires Sorted(s) && p <= |s|
    requires (forall k :: 0 <= k < p ==> s[k].age <= e.age) && (forall k :: p <= k < |s| ==> s[k].age > e.age)
    ensures Sorted(s[..p] + [e] + s[p..])
  {
    var r := s[..p] + [e] + s[p..];
    forall i | 0 <= i < |r| ensures r[i] == if i < p then s[i] else if i == p then e else s[i - 1] {}
  }

  lemma SpliceCounts<T>(s: seq<T>, x: T, p: nat)
    requires p <= |s|
    ensures multiset(s[..p] + [x] + s[p..]) == multiset(s) + multiset{x}
  {
    assert s == s[..p] + s[p..];
  }

  lemma {:induction false} StableSortSorted(es: seq<Entry>)
    ensures Sorted(StableSort(es))
    ensures multiset(StableSort(es)) == multiset(es)
  {
    if es != [] {
      var front, e := es[..|es| - 1], es[|es| - 1];
      StableSortSorted(front);
      SplicedSorted(StableSort(front), e);
      assert es == front + [e];
      assert multiset(es) == multiset(front) + multiset{e};
    }
  }

  // Appending one entry moves the rank of the older ones up by one and of no other.
  lemma RankAfterPush(es: seq<Entry>, i: nat)
    requires 0 < |es| && i < |es| - 1
    ensures RankIn(es, i) == RankIn(es[..|es| - 1], i) + (if es[|es| - 1].age < es[i].age then 1 else 0)
  {
    var front := es[..|es| - 1];
    assert es == front + [es[|es| - 1]];
    CountPush(front, es[|es| - 1], Younger(es[i].age));
    assert es[..i] == front[..i];
  }

  // Ranks of entries no older than a given age lie below the count of such entries; the
  // ranks of older ones do not.
  lemma RankVersusAge(es: seq<Entry>, i: nat, age: real)
    requires i < |es|
    ensures es[i].age <= age ==> RankIn(es, i) < Count(es, AtMost(age))
    ensures es[i].age > age ==> RankIn(es, i) >= Count(es, AtMost(age))
    ensures RankIn(es, i) < |es|
  {
    var a := es[i].age;
    CountBefore(es, i, SameAge(a));
    CountDisjoint(es, Younger(a), SameAge(a), AtMost(a));
    if a <= age {
      CountMono(es, AtMost(a), AtMost(age));
    } else {
      CountMono(es, AtMost(age), Younger(a));
    }
  }

  lemma LastRank(es: seq<Entry>)
    requires es != []
    ensures var front, e := es[..|es| - 1], es[|es| - 1];
            RankIn(es, |es| - 1) == Count(front, AtMost(e.age)) == Count(StableSort(front), AtMost(e.age))
  {
    var front, e := es[..|es| - 1], es[|es| - 1];
    assert es == front + [e];
    CountPush(front, e, Younger(e.age));
    YoungerOrSame(front, e.age);
    StableSortSorted(front);
    CountPermutation(front, StableSort(front), AtMost(e.age));
  }

  lemma {:induction false} YoungerOrSame(es: seq<Entry>, age: real)
    ensures Count(es, AtMost(age)) == Count(es, Younger(age)) + Count(es, SameAge(age))
  {
    if es != [] {
      YoungerOrSame(es[..|es| - 1], age);
    }
  }

  lemma SortedAfterPush(es: seq<Entry>, k: nat)
    requires es != [] && k < |es|
    ensures var front, e := es[..|es| - 1], es[|es| - 1];
            var p := RankIn(es, |es| - 1);
            p <= |front| &&
            StableSort(es)[k] == if k < p then StableSort(front)[k] else if k == p then e else StableSort(front)[k - 1]
  {
    var front, e := es[..|es| - 1], es[|es| - 1];
    StableSortSorted(front);
    InsertSplits(StableSort(front), e);
    LastRank(es);
  }

  // An entry's rank after a push, and what the sorted list holds there.
  lemma RankedBeforePush(es: seq<Entry>, i: nat)
    requires 0 < |es| && i < |es| - 1
    ensures var front := es[..|es| - 1];
            RankIn(es, i) < |es| && RankIn(front, i) < |front|
            && StableSort(es)[RankIn(es, i)] == StableSort(front)[RankIn(front, i)]
  {
    var front, e := es[..|es| - 1], es[|es| - 1];
    LastRank(es);
    RankAfterPush(es, i);
    RankVersusAge(front, i, e.age);
    SortedAfterPush(es, RankIn(es, i));
  }

  // The stable sort puts entry i exactly at its rank.
  lemma {:induction false} StableSortPosition(es: seq<Entry>, i: nat)
    requires i < |es|
    ensures RankIn(es, i) < |es|
    ensures StableSort(es)[RankIn(es, i)] == es[i]
  {
    if i < |es| - 1 {
      StableSortPosition(es[..|es| - 1], i);
      RankedBeforePush(es, i);
    } else {
      RankVersusAge(es, i, es[i].age);
      SortedAfterPush(es, RankIn(es, i));
    }
  }

  // The rank of an older entry after a push, from its position before.
  lemma OldPosition(es: seq<Entry>, k: nat, i: nat)
    requires es != [] && k < |es| && i < |es| - 1
    requires var p := RankIn(es, |es| - 1); k != p && RankIn(es[..|es| - 1], i) == if k < p then k else k - 1
    ensures RankIn(es, i) == k
  {
    var front, e := es[..|es| - 1], es[|es| - 1];
    LastRank(es);
    RankVersusAge(front, i, e.age);
    RankAfterPush(es, i);
  }

  // Every position of the sorted list is some entry's rank.
  lemma {:induction false} StableSortOnto(es: seq<Entry>, k: nat) returns (i: nat)
    requires k < |es|
    ensures i < |es| && RankIn(es, i) == k && StableSort(es)[k] == es[i]
  {
    var front, e := es[..|es| - 1], es[|es| - 1];
    var p := RankIn(es, |es| - 1);
    SortedAfterPush(es, k);
    LastRank(es);
    if k == p {
      i := |es| - 1;
    } else {
      i := StableSortOnto(front, if k < p then k else k - 1);
      OldPosition(es, k, i);
    }
  }
}
