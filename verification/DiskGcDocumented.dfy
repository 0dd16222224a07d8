// Sentences of the planner's documentation that its code does not keep, each with an
// inventory that shows it, and the exact shape of image references.
module DiskGcDocumented {
  import opened Wrappers
  import opened Text
  import opened DiskGcModel
  import opened DiskGcExact
  import opened DiskGcSafety

  function KeepListOf(repos: seq<string>, keep: int, prState: Option<nat -> PrState>): Policy {
    Policy(repos, {}, false, keep, 3, {}, prState)
  }

  lemma SubstringOfItself(repo: string, repos: seq<string>)
    requires repo in repos
    ensures RepoProtected(repo, repos)
  {
    var k :| 0 <= k < |repos| && repos[k] == repo;
    assert OccursAt(repo, repo, 0);
  }

  // "never remove an image whose repo matches a keep_image_repos substring" fails: with no
  // retained generations the only old image of a kept repository is removed.
  lemma KeptRepoImageCanBeRemoved()
    ensures exists p: Policy, images: seq<Image>, i: nat | i < |images| ::
              RepoProtected(images[i].repo, p.keepRepos) && images[i].id in RemovedIds(RulingOf(p), images)
  {
    var p := KeepListOf(["app"], 0, None);
    var img := Image("i1", "app", "v1", 10.0);
    SubstringOfItself("app", ["app"]);
    assert Classify(p, img) == Candidate;
    assert !KeepsRow(RulingOf(p), [img], 0);
    assert [img][0].id in RemovedIds(RulingOf(p), [img]);
  }

  // Adding a repository to keep_image_repos can turn a kept image into a removed one: an
  // untracked repository is kept whole, a kept one only down to its newest generations.
  lemma KeepingARepoCanRemoveIt()
    ensures exists p: Policy, images: seq<Image>, repo: string ::
              !(RemovedIds(RulingOf(p.(keepRepos := p.keepRepos + [repo])), images) <= RemovedIds(RulingOf(p), images))
  {
    var p := KeepListOf([], 0, None);
    var img := Image("i1", "app", "v1", 10.0);
    var q := p.(keepRepos := p.keepRepos + ["app"]);
    assert q == KeepListOf(["app"], 0, None);
    SubstringOfItself("app", ["app"]);
    assert Classify(p, img) == Keep(UntrackedRepo);
    assert Classify(q, img) == Candidate;
    assert KeepsRow(RulingOf(p), [img], 0);
    assert !KeepsRow(RulingOf(q), [img], 0);
    assert [img][0].id in RemovedIds(RulingOf(q), [img]);
    assert img.id !in RemovedIds(RulingOf(p), [img]);
  }

  // ----- what pull-request reaping can remove -----

  // "never remove anything younger than min_age_days" fails: a day-old image of a merged
  // pull request is removed, and it belongs to a kept repository besides.
  lemma YoungKeptRepoImageCanBeRemoved()
    ensures exists p: Policy, images: seq<Image>, i: nat | i < |images| ::
              !OldEnough(p, images[i]) && RepoProtected(images[i].repo, p.keepRepos)
              && images[i].id in RemovedIds(RulingOf(p), images)
  {
    var p := KeepListOf(["app"], 2, Some((n: nat) => Merged));
    var img := Image("i1", "app", "pr-7", 1.0);
    SubstringOfItself("app", ["app"]);
    assert AllDigits("7") && img.tag[..3] == "pr-" && img.tag[3..] == "7";
    assert Classify(p, img) == Reap;
    assert !KeepsRow(RulingOf(p), [img], 0);
    assert [img][0].id in RemovedIds(RulingOf(p), [img]);
  }

  ghost predicate Removed(p: Policy, images: seq<Image>, id: string) { id in RemovedIds(RulingOf(p), images) }

  // Some row of the id asks to keep it.
  ghost predicate Rescued(p: Policy, images: seq<Image>, id: string) {
    exists j: nat :: j < |images| && images[j].id == id && !Removable(p, images, j)
  }

  lemma RemovedUnlessRescued(p: Policy, images: seq<Image>, i: nat)
    requires i < |images|
    ensures Removed(p, images, images[i].id) <==> !Rescued(p, images, images[i].id)
  {
    forall j: nat | j < |images| ensures KeepsRow(RulingOf(p), images, j) <==> !Removable(p, images, j) {
      KeepsUnlessRemovable(p, images, j);
    }
  }

  // No id with a row younger than the minimum age is removed exactly when every young,
  // unprotected row of a finished pull request shares its id with a row that keeps it.
  lemma NothingYoungRemovedIff(p: Policy, images: seq<Image>)
    ensures (forall i: nat :: i < |images| && !OldEnough(p, images[i]) ==> !Removed(p, images, images[i].id)) <==>
            forall i: nat :: i < |images| && !OldEnough(p, images[i]) && !HardProtected(p, images[i]) && FinishedPr(p, images[i]) ==>
              Rescued(p, images, images[i].id)
  {
    forall i: nat | i < |images| ensures Removed(p, images, images[i].id) <==> !Rescued(p, images, images[i].id) {
      RemovedUnlessRescued(p, images, i);
    }
    forall i: nat | i < |images| && !OldEnough(p, images[i]) && !(!HardProtected(p, images[i]) && FinishedPr(p, images[i]))
      ensures Rescued(p, images, images[i].id)
    {
      assert !Removable(p, images, i);
    }
  }

  // No finished pull-request image of a kept repository is removed exactly when every such
  // unprotected row shares its id with a row that keeps it: being listed does not help.
  lemma KeptReposSurvivePullRequestsIff(p: Policy, images: seq<Image>)
    ensures (forall i: nat :: i < |images| && RepoProtected(images[i].repo, p.keepRepos) && FinishedPr(p, images[i]) ==>
               !Removed(p, images, images[i].id)) <==>
            forall i: nat :: i < |images| && RepoProtected(images[i].repo, p.keepRepos) && !HardProtected(p, images[i]) && FinishedPr(p, images[i]) ==>
              Rescued(p, images, images[i].id)
  {
    forall i: nat | i < |images| ensures Removed(p, images, images[i].id) <==> !Rescued(p, images, images[i].id) {
      RemovedUnlessRescued(p, images, i);
    }
    forall i: nat | i < |images| && HardProtected(p, images[i]) ensures Rescued(p, images, images[i].id) {
      assert !Removable(p, images, i);
    }
  }

  // When every id has one row, the guards alone decide: nothing young is removed exactly when
  // every young row of a finished pull request is protected...
  lemma NothingYoungRemovedByGuard(p: Policy, images: seq<Image>)
    requires DistinctIds(images)
    ensures (forall i: nat :: i < |images| && !OldEnough(p, images[i]) ==> !Removed(p, images, images[i].id)) <==>
            forall i: nat :: i < |images| && !OldEnough(p, images[i]) ==> HardProtected(p, images[i]) || !FinishedPr(p, images[i])
  {
    NothingYoungRemovedIff(p, images);
    forall i: nat | i < |images| ensures Rescued(p, images, images[i].id) <==> !Removable(p, images, i) {
      LoneRow(p, images, i);
    }
  }

  // ...and no finished pull-request image of a kept repository exactly when every one of its
  // rows is.
  lemma KeptReposSurvivePullRequestsByGuard(p: Policy, images: seq<Image>)
    requires DistinctIds(images)
    ensures (forall i: nat :: i < |images| && RepoProtected(images[i].repo, p.keepRepos) && FinishedPr(p, images[i]) ==>
               !Removed(p, images, images[i].id)) <==>
            forall i: nat :: i < |images| && RepoProtected(images[i].repo, p.keepRepos) && FinishedPr(p, images[i]) ==>
              HardProtected(p, images[i])
  {
    KeptReposSurvivePullRequestsIff(p, images);
    forall i: nat | i < |images| ensures Rescued(p, images, images[i].id) <==> !Removable(p, images, i) {
      LoneRow(p, images, i);
    }
  }

  lemma LoneRow(p: Policy, images: seq<Image>, i: nat)
    requires DistinctIds(images) && i < |images|
    ensures Rescued(p, images, images[i].id) <==> !Removable(p, images, i)
  {
    assert forall j: nat :: j < i ==> images[j].id != images[i].id;
    assert forall j: nat :: i < j < |images| ==> images[j].id != images[i].id;
  }

  // ----- row order -----

  // Two images of one repository with one age and one slot: the order of the rows decides
  // which of them is removed.
  lemma TiedAgesDisagree()
    ensures exists p: Policy, one: seq<Image>, two: seq<Image> ::
              multiset(one) == multiset(two) && RemovedIds(RulingOf(p), one) != RemovedIds(RulingOf(p), two)
  {
    var p := KeepListOf(["app"], 1, None);
    var a, b := Image("i1", "app", "v1", 10.0), Image("i2", "app", "v2", 10.0);
    SubstringOfItself("app", ["app"]);
    assert Classify(p, a) == Candidate && Classify(p, b) == Candidate;
    TiedPair(RulingOf(p), a, b);
    var one, two := OrderMatters(RulingOf(p), [a, b]);
  }

  // ----- image references -----

  predicate NoSpace(s: string) { forall i :: 0 <= i < |s| ==> !IsSpace(s[i]) }

  function BareId(v: string): string { if "sha256:" <= v then v[7..] else v }

  lemma ShortIdOfBare(v: string)
    requires NoSpace(v)
    ensures ShortId(v) == if IsHexId(BareId(v)) then Some(BareId(v)[..12]) else None
  {
    assert Trimmed(v);
  }

  lemma HexHasNoSpace(hex: string)
    requires AllHex(hex)
    ensures NoSpace(hex) && NoSpace("sha256:" + hex)
  {
  }

  lemma BareOfHex(hex: string)
    requires IsHexId(hex)
    ensures BareId(hex) == hex && BareId("sha256:" + hex) == hex
  {
    assert IsHexDigit(hex[0]);
    assert ("sha256:" + hex)[7..] == hex;
  }

  lemma HexIdShortForm(hex: string)
    requires IsHexId(hex)
    ensures ShortId(hex) == Some(hex[..12]) && ShortId("sha256:" + hex) == Some(hex[..12])
  {
    HexHasNoSpace(hex);
    BareOfHex(hex);
    ShortIdOfBare(hex);
    ShortIdOfBare("sha256:" + hex);
  }

  lemma SharedShortFormProtects(id: string, entry: string, ref: string)
    requires ShortId(id).Some? && ShortId(entry) == ShortId(id)
    ensures IsInUse(id, ref, {entry})
  {
    assert entry in {entry};
  }

  // A container started from a truncated id protects the image listed under the full one,
  // and the other way round.
  lemma TruncatedIdProtects(hex: string, short: string, ref: string)
    requires IsHexId(hex) && short == hex[..12]
    ensures IsInUse("sha256:" + hex, ref, {short})
    ensures IsInUse(short, ref, {"sha256:" + hex})
  {
    HexIdShortForm(hex);
    assert short[..12] == short;
    HexIdShortForm(short);
    SharedShortFormProtects("sha256:" + hex, short, ref);
    SharedShortFormProtects(short, "sha256:" + hex, ref);
  }

  lemma BareReference(repo: string, tag: string)
    ensures repo == "sha256" ==> BareId(repo + ":" + tag) == tag
    ensures repo != "sha256" ==> !IsHexId(BareId(repo + ":" + tag))
  {
    var ref := repo + ":" + tag;
    assert ref[|repo|] == ':';
    if "sha256:" <= ref {
      assert ref[..7] == "sha256:";
      if |repo| == 6 {
        assert repo == ref[..7][..6];
      } else {
        assert ref[7..][|repo| - 7] == ':';
      }
    }
  }

  // A repo:tag reference has the shape of an image id in one case only: a repository
  // literally named sha256 with a hexadecimal tag.
  lemma ReferenceLooksLikeId(repo: string, tag: string)
    requires NoSpace(repo) && NoSpace(tag)
    ensures ShortId(repo + ":" + tag).Some? <==> repo == "sha256" && IsHexId(tag)
  {
    var ref := repo + ":" + tag;
    assert NoSpace(ref);
    ShortIdOfBare(ref);
    BareReference(repo, tag);
  }
}
