// Running the planner of scripts/disk_gc_plan.py again once its removals have been carried out.
module DiskGcAgain {
  import opened Sequences
  import opened Counting
  import opened DiskGcSort
  import opened DiskGcModel

  function IdIn(ids: set<string>): Image -> bool { (img: Image) => img.id in ids }

  // The rows left once every removed id is gone.
  function Rest(g: Ruling, images: seq<Image>): seq<Image> { Filter(images, IdIn(KeptIds(g, images))) }

  // A row that is left ranks no worse than before.
  lemma RankOfRest(g: Ruling, images: seq<Image>, keep: Image -> bool, i: nat)
    requires i < |images| && keep(images[i])
    ensures var j := |Filter(images[..i], keep)|;
            j < |Filter(images, keep)| && Filter(images, keep)[j] == images[i]
            && Rank(g, Filter(images, keep), j) <= Rank(g, images, i)
  {
    var img := images[i];
    FilterAt(images, i, keep);
    CountFiltered(images, keep, Lift(g, img.repo, Younger(img.age)));
    CountFiltered(images[..i], keep, Lift(g, img.repo, SameAge(img.age)));
  }

  lemma KeepingRowOfRest(g: Ruling, images: seq<Image>, i: nat)
    requires i < |images| && KeepsRow(g, images, i)
    ensures images[i].id in KeptIds(g, Rest(g, images))
  {
    var keep := IdIn(KeptIds(g, images));
    assert images[i].id in KeptIds(g, images);
    RankOfRest(g, images, keep, i);
    assert KeepsRow(g, Rest(g, images), |Filter(images[..i], keep)|);
  }

  // Planning again keeps the same ids and removes nothing.
  lemma PlanningAgainRemovesNothing(g: Ruling, images: seq<Image>)
    ensures RemovedIds(g, Rest(g, images)) == {}
    ensures KeptIds(g, Rest(g, images)) == KeptIds(g, images)
  {
    var rest := Rest(g, images);
    forall id | id in KeptIds(g, images) ensures id in KeptIds(g, rest) {
      var i :| 0 <= i < |images| && KeepsRow(g, images, i) && images[i].id == id;
      KeepingRowOfRest(g, images, i);
    }
    FilterMembers(images, IdIn(KeptIds(g, images)));
    forall i | 0 <= i < |rest| ensures rest[i].id in KeptIds(g, images) {
      assert rest[i] in rest;
    }
    assert KeptIds(g, rest) <= AllIds(rest);
  }
}
