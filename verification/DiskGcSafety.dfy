// Safety of the removal plan: what is never removed, what the retention stage keeps, which
// configuration changes can only protect more, and when row order matters.
module DiskGcSafety {
  import opened Sequences
  import opened Counting
  import opened DiskGcSort
  import opened DiskGcModel
  import opened DiskGcPlan

  // ----- one inventory -----

  // One protected row anywhere protects the id, whatever its other rows say.
  lemma ProtectedRowProtectsId(p: Policy, images: seq<Image>, i: nat)
    requires i < |images| && HardProtected(p, images[i])
    ensures images[i].id !in Reconciled(RemovalQueue(RulingOf(p), images), KeptIds(RulingOf(p), images))
  {
    assert KeepsRow(RulingOf(p), images, i);
  }

  // The plan's removal list is duplicate-free and, with the kept ids, splits the inventory.
  lemma PlanPartitionsInventory(g: Ruling, images: seq<Image>)
    ensures var removed := Reconciled(RemovalQueue(g, images), KeptIds(g, images));
            && (forall i, j :: 0 <= i < j < |removed| ==> removed[i] != removed[j])
            && (forall id :: id in AllIds(images) <==> id in removed || id in KeptIds(g, images))
            && (forall id :: !(id in removed && id in KeptIds(g, images)))
  {
    ReconciledExact(g, images);
  }

  // Executing the plan unties no reference of a kept id when every repo:tag names one id.
  lemma UntaggingSparesKeptIds(g: Ruling, images: seq<Image>, removed: string, ref: string, i: nat)
    requires forall a, b | 0 <= a < |images| && 0 <= b < |images| && HasTagRef(images[a]) && HasTagRef(images[b]) ::
               Reference(images[a]) == Reference(images[b]) ==> images[a].id == images[b].id
    requires removed in RemovedIds(g, images) && ref in RefsOf(images, removed)
    requires i < |images| && HasTagRef(images[i]) && Reference(images[i]) == ref
    ensures images[i].id == removed && images[i].id !in KeptIds(g, images)
  {
    var k :| 0 <= k < |images| && images[k].id == removed && HasTagRef(images[k]) && Reference(images[k]) == ref;
  }

  // ----- generation retention -----

  // Candidate rows no older than `age` whose id is kept.
  function KeptAtMost(age: real, kept: set<string>): Entry -> bool {
    (e: Entry) => e.age <= age && e.id in kept
  }

  // The ids of the newest g.keep entries of a repository are all kept.
  lemma NewestAreKept(g: Ruling, images: seq<Image>, repo: string, k: nat)
    requires k < |Entries(g, images, repo)| && k < g.keep
    ensures StableSort(Entries(g, images, repo))[k].id in KeptIds(g, images)
  {
    var j := RowAtPosition(g, images, repo, k);
    assert KeepsRow(g, images, j);
  }

  lemma PrefixCounts(es: seq<Entry>, n: nat, q: Entry -> bool)
    requires n <= |es| && forall k :: 0 <= k < n ==> q(es[k])
    ensures Count(es, q) >= n
  {
    assert forall e :: e in es[..n] ==> q(e);
    CountAll(es[..n], q);
    CountSplit(es, n, q);
  }

  // A removed id with a candidate row leaves g.keep candidate rows of that repository, none
  // older than it, whose ids are all kept.
  lemma RemovalLeavesNewerGenerations(g: Ruling, images: seq<Image>, i: nat)
    requires i < |images| && g.verdict(images[i]) == Candidate && images[i].id in RemovedIds(g, images)
    ensures Count(images, Lift(g, images[i].repo, KeptAtMost(images[i].age, KeptIds(g, images)))) >= g.keep
  {
    var repo, age := images[i].repo, images[i].age;
    var q := KeptAtMost(age, KeptIds(g, images));
    var es := Entries(g, images, repo);
    var sorted := StableSort(es);
    CountEntries(g, images, repo, q);
    StableSortSorted(es);
    CountPermutation(sorted, es, q);
    if g.keep > 0 {
      assert !KeepsRow(g, images, i);
      SortedAtRank(g, images, i);
      forall k | 0 <= k < g.keep ensures q(sorted[k]) {
        NewestAreKept(g, images, repo, k);
      }
      PrefixCounts(sorted, g.keep, q);
    }
  }

  ghost predicate RepoIntact(g: Ruling, images: seq<Image>, repo: string) {
    forall i :: 0 <= i < |images| && images[i].repo == repo ==> images[i].id !in RemovedIds(g, images)
  }

  ghost predicate NoRowReaped(g: Ruling, images: seq<Image>, repo: string) {
    forall i :: 0 <= i < |images| && images[i].repo == repo ==> g.verdict(images[i]) != Reap
  }

  ghost predicate DistinctIds(images: seq<Image>) {
    forall a, b :: 0 <= a < b < |images| ==> images[a].id != images[b].id
  }

  lemma RemovedWithoutSharing(g: Ruling, images: seq<Image>, i: nat)
    requires DistinctIds(images) && i < |images|
    ensures images[i].id in RemovedIds(g, images) <==> !KeepsRow(g, images, i)
  {
  }

  // Another row of the id asks to keep it.
  ghost predicate KeptByAnotherRow(g: Ruling, images: seq<Image>, i: nat)
    requires i < |images|
  {
    exists j: nat :: j < |images| && j != i && images[j].id == images[i].id && KeepsRow(g, images, j)
  }

  // A repository loses no image exactly when every row of it that the guards reap, and every
  // candidate behind the retained slots, has another row of its id that keeps it.
  lemma KeptRepoIntactIff(g: Ruling, images: seq<Image>, repo: string)
    ensures RepoIntact(g, images, repo) <==>
            forall i: nat :: i < |images| && images[i].repo == repo
              && (g.verdict(images[i]) == Reap || (g.verdict(images[i]) == Candidate && Rank(g, images, i) >= g.keep))
              ==> KeptByAnotherRow(g, images, i)
  {
    forall i: nat | i < |images| && !KeepsRow(g, images, i)
      ensures images[i].id in RemovedIds(g, images) <==> !KeptByAnotherRow(g, images, i)
    {
    }
  }

  // When every id has one row: the guards reap none of its rows, and it has no more
  // candidates than retained slots.
  lemma KeptRepoIntactByCount(g: Ruling, images: seq<Image>, repo: string)
    requires DistinctIds(images)
    ensures RepoIntact(g, images, repo) <==>
            NoRowReaped(g, images, repo)
            && (Count(images, Lift(g, repo, Any())) == 0 || Count(images, Lift(g, repo, Any())) <= g.keep)
  {
    OutrankedIff(g, images, repo);
    forall i | 0 <= i < |images| ensures images[i].id in RemovedIds(g, images) <==> !KeepsRow(g, images, i) {
      RemovedWithoutSharing(g, images, i);
    }
  }

  // Some candidate of a repository has no slot exactly when it has more candidates than
  // slots.
  lemma OutrankedIff(g: Ruling, images: seq<Image>, repo: string)
    ensures (exists i: nat :: i < |images| && images[i].repo == repo && g.verdict(images[i]) == Candidate && Rank(g, images, i) >= g.keep)
            <==> Count(images, Lift(g, repo, Any())) > 0 && Count(images, Lift(g, repo, Any())) > g.keep
  {
    var es := Entries(g, images, repo);
    CountEntries(g, images, repo, Any());
    CountAll(es, Any());
    if |es| > 0 && |es| > g.keep {
      var i := RowAtPosition(g, images, repo, if g.keep < 0 then 0 else g.keep);
    }
    forall i: nat | i < |images| && images[i].repo == repo && g.verdict(images[i]) == Candidate
      ensures Rank(g, images, i) < |es|
    {
      SortedAtRank(g, images, i);
    }
  }

  // ----- strengthening protection -----

  // More in-use references, more keep tags, running protection switched on, more retained
  // generations or a higher minimum age; repositories and pull-request lookup unchanged.
  ghost predicate AtLeastAsProtective(weak: Policy, strong: Policy) {
    && weak.keepRepos == strong.keepRepos
    && weak.prState == strong.prState
    && weak.keepTags <= strong.keepTags
    && weak.inUse <= strong.inUse
    && (weak.protectRunning ==> strong.protectRunning)
    && weak.keepGenerations <= strong.keepGenerations
    && weak.minAgeDays <= strong.minAgeDays
  }

  lemma StrongerVerdict(weak: Policy, strong: Policy, img: Image)
    requires AtLeastAsProtective(weak, strong)
    ensures Classify(strong, img) == Classify(weak, img) || Classify(strong, img).Keep?
  {
  }

  // Protected rows leave the ranking, so the others only move up.
  lemma KeptRowStaysKept(weak: Ruling, strong: Ruling, images: seq<Image>, i: nat)
    requires weak.keep <= strong.keep
    requires forall img :: img in images ==> strong.verdict(img) == weak.verdict(img) || strong.verdict(img).Keep?
    requires i < |images| && KeepsRow(weak, images, i)
    ensures KeepsRow(strong, images, i)
  {
    if !strong.verdict(images[i]).Keep? {
      var repo, age := images[i].repo, images[i].age;
      CountMono(images, Lift(strong, repo, Younger(age)), Lift(weak, repo, Younger(age)));
      CountMono(images[..i], Lift(strong, repo, SameAge(age)), Lift(weak, repo, SameAge(age)));
    }
  }

  lemma StrongerPolicyRemovesLess(weak: Policy, strong: Policy, images: seq<Image>)
    requires AtLeastAsProtective(weak, strong)
    ensures RemovedIds(RulingOf(strong), images) <= RemovedIds(RulingOf(weak), images)
  {
    forall img { StrongerVerdict(weak, strong, img); }
    forall i | 0 <= i < |images| && KeepsRow(RulingOf(weak), images, i)
      ensures KeepsRow(RulingOf(strong), images, i)
    {
      KeptRowStaysKept(RulingOf(weak), RulingOf(strong), images, i);
    }
  }

  // ----- pull requests that finish -----

  // The same lookup later: a pull request may have been merged or closed, nothing else changed.
  ghost predicate FinishedLater(p: Policy, q: Policy) {
    && p.prState.Some? && q.prState.Some? && q == p.(prState := q.prState)
    && forall n :: q.prState.value(n) == p.prState.value(n) || q.prState.value(n) in {Merged, Closed}
  }

  lemma FinishedVerdict(p: Policy, q: Policy, img: Image)
    requires FinishedLater(p, q)
    ensures Classify(p, img) == Classify(q, img) || Classify(p, img).Keep?
  {
  }

  // A pull request that is merged or closed only adds removals.
  lemma FinishingOnlyAddsRemovals(p: Policy, q: Policy, images: seq<Image>)
    requires FinishedLater(p, q)
    ensures RemovedIds(RulingOf(p), images) <= RemovedIds(RulingOf(q), images)
  {
    forall img { FinishedVerdict(p, q, img); }
    forall i | 0 <= i < |images| && KeepsRow(RulingOf(q), images, i)
      ensures KeepsRow(RulingOf(p), images, i)
    {
      KeptRowStaysKept(RulingOf(q), RulingOf(p), images, i);
    }
  }

  // ----- row order -----

  function SameAgeOther(age: real, id: string): Entry -> bool {
    (e: Entry) => e.age == age && e.id != id
  }

  // The best and the worst rank a candidate row's id can get from rows of its repository
  // and age, over all orders of the inventory.
  function BestRank(g: Ruling, images: seq<Image>, v: Image): nat {
    Count(images, Lift(g, v.repo, Younger(v.age)))
  }

  function WorstRank(g: Ruling, images: seq<Image>, v: Image): nat {
    BestRank(g, images, v) + Count(images, Lift(g, v.repo, SameAgeOther(v.age, v.id)))
  }

  // Some row keeps this id in every order of the inventory.
  ghost predicate AlwaysKept(g: Ruling, images: seq<Image>, id: string) {
    exists v :: v in images && v.id == id
                && (g.verdict(v).Keep? || (g.verdict(v) == Candidate && WorstRank(g, images, v) < g.keep))
  }

  // Some row keeps this id in some order of the inventory.
  ghost predicate SometimesKept(g: Ruling, images: seq<Image>, id: string) {
    exists v :: v in images && v.id == id
                && (g.verdict(v).Keep? || (g.verdict(v) == Candidate && BestRank(g, images, v) < g.keep))
  }

  // No tie in age straddles the retention cut with a different id on the losing side.
  ghost predicate TiesAreHarmless(g: Ruling, images: seq<Image>) {
    forall v :: v in images && g.verdict(v) == Candidate && BestRank(g, images, v) < g.keep ==> AlwaysKept(g, images, v.id)
  }

  lemma RanksIgnoreOrder(g: Ruling, images: seq<Image>, perm: seq<Image>, v: Image)
    requires multiset(images) == multiset(perm)
    ensures BestRank(g, images, v) == BestRank(g, perm, v) && WorstRank(g, images, v) == WorstRank(g, perm, v)
  {
    CountPermutation(images, perm, Lift(g, v.repo, Younger(v.age)));
    CountPermutation(images, perm, Lift(g, v.repo, SameAgeOther(v.age, v.id)));
  }

  // The first row of the inventory that competes with the same repository, age and id.
  ghost predicate Twin(g: Ruling, a: Image, v: Image) {
    a.repo == v.repo && a.age == v.age && a.id == v.id && g.verdict(a) == Candidate
  }

  lemma {:induction false} FirstTwin(g: Ruling, images: seq<Image>, v: Image) returns (j: nat)
    requires v in images && g.verdict(v) == Candidate
    ensures j < |images| && Twin(g, images[j], v) && forall k :: 0 <= k < j ==> !Twin(g, images[k], v)
  {
    var front := images[..|images| - 1];
    if v in front {
      j := FirstTwin(g, front, v);
    } else if a :| 0 <= a < |front| && Twin(g, front[a], v) {
      assert front[a] in front;
      j := FirstTwin(g, front, front[a]);
    } else {
      j := |images| - 1;
    }
  }

  lemma KeptInEveryOrder(g: Ruling, images: seq<Image>, id: string)
    requires AlwaysKept(g, images, id)
    ensures id in KeptIds(g, images)
  {
    var v :| v in images && v.id == id
             && (g.verdict(v).Keep? || (g.verdict(v) == Candidate && WorstRank(g, images, v) < g.keep));
    var j: nat;
    if g.verdict(v).Keep? {
      j :| j < |images| && images[j] == v;
    } else {
      j := FirstTwin(g, images, v);
      var other := Lift(g, v.repo, SameAgeOther(v.age, v.id));
      CountMono(images[..j], Lift(g, v.repo, SameAge(v.age)), other);
      CountSplit(images, j, other);
    }
    assert KeepsRow(g, images, j);
  }

  lemma KeptImpliesSometimes(g: Ruling, images: seq<Image>, id: string)
    requires id in KeptIds(g, images)
    ensures SometimesKept(g, images, id)
  {
    var i :| 0 <= i < |images| && KeepsRow(g, images, i) && images[i].id == id;
    assert images[i] in images;
  }

  // Harmless ties: any two orders of the inventory keep, and so remove, the same ids.
  lemma OrderDoesNotMatter(g: Ruling, images: seq<Image>, perm: seq<Image>)
    requires multiset(images) == multiset(perm) && TiesAreHarmless(g, images)
    ensures KeptIds(g, perm) == KeptIds(g, images) && RemovedIds(g, perm) == RemovedIds(g, images)
  {
    PermutationMembers(images, perm);
    forall v { RanksIgnoreOrder(g, images, perm, v); }
    forall id ensures id in KeptIds(g, perm) <==> id in KeptIds(g, images) {
      if id in KeptIds(g, images) {
        KeptImpliesSometimes(g, images, id);
        assert AlwaysKept(g, images, id);
        assert AlwaysKept(g, perm, id);
        KeptInEveryOrder(g, perm, id);
      }
      if id in KeptIds(g, perm) {
        KeptImpliesSometimes(g, perm, id);
        assert SometimesKept(g, images, id);
        assert AlwaysKept(g, images, id);
        KeptInEveryOrder(g, images, id);
      }
    }
    forall id ensures id in AllIds(perm) <==> id in AllIds(images) {
      SameIds(images, perm, id);
      SameIds(perm, images, id);
    }
  }

  lemma SameIds(a: seq<Image>, b: seq<Image>, id: string)
    requires forall x :: x in a ==> x in b
    ensures id in AllIds(a) ==> id in AllIds(b)
  {
    if id in AllIds(a) {
      var i :| 0 <= i < |a| && a[i].id == id;
      assert a[i] in b;
      var j :| 0 <= j < |b| && b[j] == a[i];
    }
  }

  // The rows of one id, and the rest, in inventory order.
  function RowsWith(images: seq<Image>, id: string, same: bool): (r: seq<Image>)
    ensures forall x :: x in r ==> x in images && ((x.id == id) == same)
  {
    FilterMembers(images, HasId(id, same));
    Filter(images, HasId(id, same))
  }

  function HasId(id: string, same: bool): Image -> bool { (img: Image) => (img.id == id) == same }

  lemma {:induction false} RowsWithSplit(images: seq<Image>, id: string)
    ensures multiset(RowsWith(images, id, true)) + multiset(RowsWith(images, id, false)) == multiset(images)
  {
    if images != [] {
      var front, last := images[..|images| - 1], images[|images| - 1];
      RowsWithSplit(front, id);
      RowsPush(images, id, true);
      RowsPush(images, id, false);
      LastApart(images);
      AddOne(multiset(RowsWith(front, id, true)), multiset(RowsWith(front, id, false)), multiset(front), last, last.id == id);
    }
  }

  lemma AddOne<T>(a: multiset<T>, b: multiset<T>, all: multiset<T>, x: T, left: bool)
    requires a + b == all
    ensures (a + (if left then multiset{x} else multiset{})) + (b + (if left then multiset{} else multiset{x})) == all + multiset{x}
  {
  }

  lemma RowsPush(images: seq<Image>, id: string, same: bool)
    requires images != []
    ensures var front, last := images[..|images| - 1], images[|images| - 1];
            multiset(RowsWith(images, id, same))
            == multiset(RowsWith(front, id, same)) + (if (last.id == id) == same then multiset{last} else multiset{})
  {
    var before := RowsWith(images[..|images| - 1], id, same);
    assert before + [] == before;
  }

  // With its rows first an id gets its best rank.
  lemma KeptWhenFirst(g: Ruling, images: seq<Image>, v: Image)
    requires v in images && g.verdict(v) == Candidate && BestRank(g, images, v) < g.keep
    ensures var perm := RowsWith(images, v.id, true) + RowsWith(images, v.id, false);
            multiset(perm) == multiset(images) && v.id in KeptIds(g, perm)
  {
    var perm := RowsWith(images, v.id, true) + RowsWith(images, v.id, false);
    RowsWithSplit(images, v.id);
    PermutationMembers(images, perm);
    RanksIgnoreOrder(g, images, perm, v);
    var j := FirstTwin(g, perm, v);
    var mine := RowsWith(images, v.id, true);
    assert v in mine by {
      assert v in perm;
    }
    var m :| 0 <= m < |mine| && mine[m] == v;
    assert perm[m] == v && Twin(g, perm[m], v);
    forall x | x in perm[..j] ensures !Lift(g, v.repo, SameAge(v.age))(x) {
      var k :| 0 <= k < j && perm[k] == x;
      assert x == mine[k];
      assert x in mine;
    }
    CountNone(perm[..j], Lift(g, v.repo, SameAge(v.age)));
    assert KeepsRow(g, perm, j);
  }

  // Behind all the other rows, a row of an id ranks no better than its worst rank.
  lemma LastRowsRankWorst(g: Ruling, others: seq<Image>, mine: seq<Image>, id: string, i: nat)
    requires forall x :: x in others ==> x.id != id
    requires forall x :: x in mine ==> x.id == id
    requires |others| <= i < |others| + |mine|
    ensures Rank(g, others + mine, i) >= WorstRank(g, others + mine, (others + mine)[i])
  {
    var perm := others + mine;
    var w := perm[i];
    assert w == mine[i - |others|] && w in mine;
    var other, tied := Lift(g, w.repo, SameAgeOther(w.age, id)), Lift(g, w.repo, SameAge(w.age));
    CountAppend(others, mine, other);
    CountNone(mine, other);
    CountMono(others, other, tied);
    CountSplit(perm[..i], |others|, tied);
    assert perm[..i][..|others|] == others;
  }

  // With its rows last an id gets its worst rank.
  lemma LostWhenLast(g: Ruling, images: seq<Image>, id: string)
    requires !AlwaysKept(g, images, id)
    ensures var perm := RowsWith(images, id, false) + RowsWith(images, id, true);
            multiset(perm) == multiset(images) && id !in KeptIds(g, perm)
  {
    var others, mine := RowsWith(images, id, false), RowsWith(images, id, true);
    var perm := others + mine;
    RowsWithSplit(images, id);
    PermutationMembers(images, perm);
    forall i | 0 <= i < |perm| && perm[i].id == id ensures !KeepsRow(g, perm, i) {
      if i < |others| {
        assert false;
      }
      LastRowsRankWorst(g, others, mine, id, i);
      assert perm[i] in images;
      RanksIgnoreOrder(g, images, perm, perm[i]);
    }
  }

  lemma MemberIsListed(images: seq<Image>, v: Image)
    requires v in images
    ensures v.id in AllIds(images)
  {
  }

  // Otherwise two orders of the same rows disagree about what to remove.
  lemma OrderMatters(g: Ruling, images: seq<Image>) returns (one: seq<Image>, two: seq<Image>)
    requires !TiesAreHarmless(g, images)
    ensures multiset(one) == multiset(images) == multiset(two)
    ensures RemovedIds(g, one) != RemovedIds(g, two)
  {
    var v :| v in images && g.verdict(v) == Candidate && BestRank(g, images, v) < g.keep && !AlwaysKept(g, images, v.id);
    one := RowsWith(images, v.id, true) + RowsWith(images, v.id, false);
    two := RowsWith(images, v.id, false) + RowsWith(images, v.id, true);
    KeptWhenFirst(g, images, v);
    LostWhenLast(g, images, v.id);
    PermutationMembers(images, two);
    MemberIsListed(two, v);
    assert v.id in RemovedIds(g, two);
    assert v.id !in RemovedIds(g, one);
  }

  // Two candidates of one repository with equal age and different ids, and one slot, are a
  // harmful tie.
  lemma TiedPair(g: Ruling, a: Image, b: Image)
    requires g.verdict(a) == Candidate && g.verdict(b) == Candidate && g.keep == 1
    requires a.repo == b.repo && a.age == b.age && a.id != b.id
    ensures !TiesAreHarmless(g, [a, b])
  {
    var images := [a, b];
    assert images[..1] == [a] && images[..1][..0] == [];
    CountOfTwo(a, b, Lift(g, a.repo, Younger(a.age)));
    CountOfTwo(a, b, Lift(g, a.repo, SameAgeOther(a.age, a.id)));
    assert a in images;
  }

  lemma CountOfTwo<T>(a: T, b: T, p: T -> bool)
    ensures Count([a, b], p) == (if p(a) then 1 else 0) + (if p(b) then 1 else 0)
  {
    assert [a, b][..1] == [a] && [a][..0] == [];
  }

  // In particular order never matters when no two ids of a repository share an age.
  lemma DistinctAgesAreHarmless(g: Ruling, images: seq<Image>)
    requires forall a, b | a in images && b in images && g.verdict(a) == Candidate && g.verdict(b) == Candidate ::
               a.repo == b.repo && a.age == b.age ==> a.id == b.id
    ensures TiesAreHarmless(g, images)
  {
    forall v | v in images && g.verdict(v) == Candidate && BestRank(g, images, v) < g.keep
      ensures AlwaysKept(g, images, v.id)
    {
      CountNone(images, Lift(g, v.repo, SameAgeOther(v.age, v.id)));
    }
  }
}
