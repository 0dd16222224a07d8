// Which ids the planner removes, in terms of the policy alone: no chain of guards, no lists,
// no sorting.
module DiskGcExact {
  import opened Counting
  import opened DiskGcSort
  import opened DiskGcModel
  import opened DiskGcPlan

  predicate Dangling(img: Image) { img.repo in {"", "<none>"} || img.tag == "<none>" }

  // The pull-request lookup decides this row: a pr-N tag of a named repository.
  predicate DecidedByPr(p: Policy, img: Image) {
    p.prState.Some? && img.repo !in {"", "<none>"} && PrNumber(img.tag).Some?
  }

  predicate OldEnough(p: Policy, img: Image) { img.age >= p.minAgeDays as real }

  // A superseded-generation candidate.
  predicate Superseded(p: Policy, img: Image) {
    !HardProtected(p, img) && !DecidedByPr(p, img) && OldEnough(p, img) && !Dangling(img) && RepoProtected(img.repo, p.keepRepos)
  }

  // Candidate j of the same repository precedes row i: younger, or equally old and listed
  // before it.
  predicate Precedes(p: Policy, images: seq<Image>, j: nat, i: nat)
    requires i < |images| && j < |images|
  {
    images[j].repo == images[i].repo && Superseded(p, images[j])
    && (images[j].age < images[i].age || (images[j].age == images[i].age && j < i))
  }

  ghost function Before(p: Policy, images: seq<Image>, i: nat): set<nat>
    requires i < |images|
  {
    set j: nat | j < |images| && Precedes(p, images, j, i)
  }

  // Nothing about the row asks to keep its id.
  ghost predicate Removable(p: Policy, images: seq<Image>, i: nat)
    requires i < |images|
  {
    var img := images[i];
    !HardProtected(p, img)
    && (FinishedPr(p, img)
        || (!DecidedByPr(p, img) && OldEnough(p, img)
            && (Dangling(img) || (RepoProtected(img.repo, p.keepRepos) && |Before(p, images, i)| >= p.keepGenerations))))
  }

  lemma VerdictIs(p: Policy, img: Image)
    ensures Classify(p, img) == Candidate <==> Superseded(p, img)
    ensures Classify(p, img) == Reap <==>
            !HardProtected(p, img) && (FinishedPr(p, img) || (!DecidedByPr(p, img) && OldEnough(p, img) && Dangling(img)))
  {
  }

  // Positions of the elements that satisfy q.
  ghost function Positions<T>(s: seq<T>, q: T -> bool): set<nat> { set j: nat | j < |s| && q(s[j]) }

  lemma {:induction false} CountPositions<T>(s: seq<T>, q: T -> bool)
    ensures |Positions(s, q)| == Count(s, q)
  {
    if s == [] {
      assert Positions(s, q) == {};
    } else {
      var n := |s| - 1;
      CountPositions(s[..n], q);
      assert forall j: nat :: j < n ==> s[..n][j] == s[j];
      var front := Positions(s[..n], q);
      assert n !in front;
      assert Positions(s, q) == if q(s[n]) then front + {n} else front;
    }
  }

  lemma UnionSize<T>(a: set<T>, b: set<T>)
    requires a !! b
    ensures |a + b| == |a| + |b|
  {
  }

  // A candidate's rank is the number of candidates before it.
  lemma RankIsSize(p: Policy, images: seq<Image>, i: nat)
    requires i < |images|
    ensures |Before(p, images, i)| == Rank(RulingOf(p), images, i)
  {
    var g, img := RulingOf(p), images[i];
    var younger := Positions(images, Lift(g, img.repo, Younger(img.age)));
    var tied := Positions(images[..i], Lift(g, img.repo, SameAge(img.age)));
    CountPositions(images, Lift(g, img.repo, Younger(img.age)));
    CountPositions(images[..i], Lift(g, img.repo, SameAge(img.age)));
    forall j: nat | j < |images| ensures j in Before(p, images, i) <==> j in younger || j in tied {
      VerdictIs(p, images[j]);
      assert j < i ==> images[..i][j] == images[j];
    }
    assert Before(p, images, i) == younger + tied;
    UnionSize(younger, tied);
  }

  lemma KeepsUnlessRemovable(p: Policy, images: seq<Image>, i: nat)
    requires i < |images|
    ensures KeepsRow(RulingOf(p), images, i) <==> !Removable(p, images, i)
  {
    VerdictIs(p, images[i]);
    RankIsSize(p, images, i);
  }

  // An id of the inventory is on the plan's removal list exactly when all of its rows are
  // removable.
  lemma RemovedIff(p: Policy, images: seq<Image>, id: string)
    ensures id in Reconciled(RemovalQueue(RulingOf(p), images), KeptIds(RulingOf(p), images)) <==>
            id in AllIds(images) && forall i: nat :: i < |images| && images[i].id == id ==> Removable(p, images, i)
  {
    var g := RulingOf(p);
    ReconciledExact(g, images);
    forall i: nat | i < |images| ensures KeepsRow(g, images, i) <==> !Removable(p, images, i) {
      KeepsUnlessRemovable(p, images, i);
    }
  }
}
