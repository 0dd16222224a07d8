// When adding an entry to keep_image_repos in scripts/disk_gc_plan.py removes nothing new.
module DiskGcKeepRepos {
  import opened Text
  import opened Counting
  import opened DiskGcSort
  import opened DiskGcModel
  import opened DiskGcSafety

  function Keeping(p: Policy, sub: string): Policy { p.(keepRepos := p.keepRepos + [sub]) }

  // A row kept for its untracked repository, which the new entry starts to track.
  predicate NewlyTracked(p: Policy, sub: string, img: Image) {
    Classify(p, img) == Keep(UntrackedRepo) && Contains(img.repo, sub)
  }

  lemma KeepingProtects(p: Policy, sub: string, repo: string)
    ensures RepoProtected(repo, Keeping(p, sub).keepRepos) <==> RepoProtected(repo, p.keepRepos) || Contains(repo, sub)
  {
    var all := p.keepRepos + [sub];
    assert forall k :: 0 <= k < |p.keepRepos| ==> all[k] == p.keepRepos[k];
    assert all[|p.keepRepos|] == sub;
  }

  // The new entry turns exactly these rows into candidates, and no other verdict changes.
  lemma KeepingVerdict(p: Policy, sub: string, img: Image)
    ensures Classify(Keeping(p, sub), img) == if NewlyTracked(p, sub, img) then Candidate else Classify(p, img)
  {
    KeepingProtects(p, sub, img.repo);
  }

  // Candidates a repository already had keep their ranks.
  lemma KeepingRank(p: Policy, sub: string, images: seq<Image>, i: nat)
    requires i < |images| && Classify(p, images[i]) == Candidate
    ensures Rank(RulingOf(Keeping(p, sub)), images, i) == Rank(RulingOf(p), images, i)
  {
    var g, h, v := RulingOf(p), RulingOf(Keeping(p, sub)), images[i];
    forall img: Image, q: Entry -> bool | img in images ensures Lift(g, v.repo, q)(img) == Lift(h, v.repo, q)(img) {
      KeepingVerdict(p, sub, img);
    }
    CountEqual(images, Lift(g, v.repo, Younger(v.age)), Lift(h, v.repo, Younger(v.age)));
    assert forall img :: img in images[..i] ==> img in images;
    CountEqual(images[..i], Lift(g, v.repo, SameAge(v.age)), Lift(h, v.repo, SameAge(v.age)));
  }

  // A row that no longer keeps its id: newly tracked, behind the retained slots.
  predicate LosesSlot(p: Policy, sub: string, images: seq<Image>, i: nat)
    requires i < |images|
  {
    NewlyTracked(p, sub, images[i]) && Rank(RulingOf(Keeping(p, sub)), images, i) >= p.keepGenerations
  }

  lemma KeepingKeepsRow(p: Policy, sub: string, images: seq<Image>, i: nat)
    requires i < |images| && KeepsRow(RulingOf(p), images, i)
    ensures KeepsRow(RulingOf(Keeping(p, sub)), images, i) <==> !LosesSlot(p, sub, images, i)
  {
    KeepingVerdict(p, sub, images[i]);
    if Classify(p, images[i]) == Candidate {
      KeepingRank(p, sub, images, i);
    }
  }

  // Listing a repository removes nothing new exactly when every row that loses its slot has
  // its id kept by the new policy all the same.
  lemma KeepingARepoIsHarmlessIff(p: Policy, sub: string, images: seq<Image>)
    ensures RemovedIds(RulingOf(Keeping(p, sub)), images) <= RemovedIds(RulingOf(p), images) <==>
            forall i: nat :: i < |images| && LosesSlot(p, sub, images, i) ==>
              images[i].id in KeptIds(RulingOf(Keeping(p, sub)), images)
  {
    var g, h := RulingOf(p), RulingOf(Keeping(p, sub));
    forall i: nat | i < |images| && KeepsRow(g, images, i)
      ensures KeepsRow(h, images, i) <==> !LosesSlot(p, sub, images, i)
    {
      KeepingKeepsRow(p, sub, images, i);
    }
    forall i: nat | i < |images| && LosesSlot(p, sub, images, i)
      ensures images[i].id in KeptIds(g, images) && images[i].id in AllIds(images)
    {
      assert KeepsRow(g, images, i);
    }
    assert KeptIds(g, images) <= KeptIds(h, images) <==>
           RemovedIds(h, images) <= RemovedIds(g, images) by {
      KeptAreListed(g, images);
      KeptAreListed(h, images);
    }
  }

  lemma KeptAreListed(g: Ruling, images: seq<Image>)
    ensures KeptIds(g, images) <= AllIds(images)
  {
  }

  // The rows of a repository that are kept because it is untracked.
  function Untracked(p: Policy, repo: string): Image -> bool {
    (img: Image) => img.repo == repo && Classify(p, img) == Keep(UntrackedRepo)
  }

  // When every id has one row: exactly when no newly matched repository has more such rows
  // than retained slots.
  lemma KeepingARepoIsHarmlessByCount(p: Policy, sub: string, images: seq<Image>)
    requires DistinctIds(images)
    ensures RemovedIds(RulingOf(Keeping(p, sub)), images) <= RemovedIds(RulingOf(p), images) <==>
            forall i: nat :: i < |images| && NewlyTracked(p, sub, images[i]) ==>
              Count(images, Untracked(p, images[i].repo)) <= p.keepGenerations
  {
    var h := RulingOf(Keeping(p, sub));
    KeepingARepoIsHarmlessIff(p, sub, images);
    forall i: nat | i < |images| && LosesSlot(p, sub, images, i)
      ensures images[i].id !in KeptIds(h, images)
    {
      KeepingKeepsRow(p, sub, images, i);
      RemovedWithoutSharing(h, images, i);
    }
    forall i: nat | i < |images| && NewlyTracked(p, sub, images[i])
      ensures (exists j: nat :: j < |images| && images[j].repo == images[i].repo && LosesSlot(p, sub, images, j))
              <==> Count(images, Untracked(p, images[i].repo)) > p.keepGenerations
    {
      NewlyTrackedOutranked(p, sub, images, i);
    }
  }

  lemma NewlyTrackedOutranked(p: Policy, sub: string, images: seq<Image>, i: nat)
    requires i < |images| && NewlyTracked(p, sub, images[i])
    ensures (exists j: nat :: j < |images| && images[j].repo == images[i].repo && LosesSlot(p, sub, images, j))
            <==> Count(images, Untracked(p, images[i].repo)) > p.keepGenerations
  {
    var h, repo := RulingOf(Keeping(p, sub)), images[i].repo;
    forall img: Image | img.repo == repo ensures h.verdict(img) == Candidate <==> NewlyTracked(p, sub, img) {
      KeepingVerdict(p, sub, img);
    }
    CountEqual(images, Lift(h, repo, Any()), Untracked(p, repo));
    CountBefore(images, i, Untracked(p, repo));
    OutrankedIff(h, images, repo);
  }
}
