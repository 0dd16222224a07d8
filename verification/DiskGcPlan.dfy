// build_plan of scripts/disk_gc_plan.py: the loops, the deferred per-repository retention
// and the keep-wins reconciliation, proved against a specification by ranks.
module DiskGcPlan {
  import opened Sequences
  import opened Counting
  import opened DiskGcSort
  import opened DiskGcModel
  import Ordering

  datatype Container = Container(id: string, stopped: bool, age: real)

  datatype Plan = Plan(
    removeIds: seq<string>,
    removeRefs: map<string, seq<string>>,
    removeContainers: seq<string>,
    keptReasons: map<string, Reason>)

  // superseded_by_repo[repo]: the candidate rows of a repository in inventory order.
  function Entries(g: Ruling, images: seq<Image>, repo: string): seq<Entry> {
    if images == [] then []
    else
      var img := images[|images| - 1];
      Entries(g, images[..|images| - 1], repo)
      + (if img.repo == repo && g.verdict(img) == Candidate then [Entry(img.age, img.id)] else [])
  }

  // The keys of superseded_by_repo in the order of their first candidate row.
  function CandidateRepos(g: Ruling, images: seq<Image>): seq<string> {
    if images == [] then []
    else
      var img := images[|images| - 1];
      var before := CandidateRepos(g, images[..|images| - 1]);
      if g.verdict(img) == Candidate && img.repo !in before then before + [img.repo] else before
  }

  // Ids the first loop sends to removal directly.
  function DirectReaps(g: Ruling, images: seq<Image>): seq<string> {
    if images == [] then []
    else
      var img := images[|images| - 1];
      DirectReaps(g, images[..|images| - 1]) + (if g.verdict(img) == Reap then [img.id] else [])
  }

  function IdsOf(es: seq<Entry>): seq<string> { seq(|es|, k requires 0 <= k < |es| => es[k].id) }

  // Everything behind the newest n of a sorted candidate list; n may be negative.
  function BeyondNewest(sorted: seq<Entry>, n: int): seq<Entry> {
    if n <= 0 then sorted else if n >= |sorted| then [] else sorted[n..]
  }

  // Ids the retention loop sends to removal for one repository.
  function RetentionTail(g: Ruling, images: seq<Image>, repo: string): seq<string> {
    IdsOf(BeyondNewest(StableSort(Entries(g, images, repo)), g.keep))
  }

  function ConcatFirst<T>(part: nat -> seq<T>, n: nat): seq<T> {
    if n == 0 then [] else ConcatFirst(part, n - 1) + part(n - 1)
  }

  lemma {:induction false} ConcatMembers<T>(part: nat -> seq<T>, n: nat, x: T)
    ensures x in ConcatFirst(part, n) <==> exists k: nat :: k < n && x in part(k)
  {
    if n != 0 {
      ConcatMembers(part, n - 1, x);
    }
  }

  // The retention tails, numbered by repository.
  function TailOf(g: Ruling, images: seq<Image>, repos: seq<string>): nat -> seq<string> {
    (k: nat) => if k < |repos| then RetentionTail(g, images, repos[k]) else []
  }

  // What the retention loop has queued after the first n repositories.
  function RetentionReaps(g: Ruling, images: seq<Image>, repos: seq<string>, n: nat): seq<string>
    requires n <= |repos|
  {
    ConcatFirst(TailOf(g, images, repos), n)
  }

  // remove_image_ids before reconciliation.
  function RemovalQueue(g: Ruling, images: seq<Image>): seq<string> {
    var repos := CandidateRepos(g, images);
    DirectReaps(g, images) + RetentionReaps(g, images, repos, |repos|)
  }

  // First occurrences only, none of them kept.
  function Reconciled(queue: seq<string>, kept: set<string>): (r: seq<string>)
    ensures forall x :: x in r <==> x in queue && x !in kept
    ensures forall i, j :: 0 <= i < j < |r| ==> r[i] != r[j]
  {
    if queue == [] then []
    else
      var before := Reconciled(queue[..|queue| - 1], kept);
      var x := queue[|queue| - 1];
      assert queue == queue[..|queue| - 1] + [x];
      if x in kept || x in before then before else before + [x]
  }

  // refs_by_id[id]: the distinct repo:tag references of an id over all rows, first seen first.
  function RefsOf(images: seq<Image>, id: string): (r: seq<string>)
    ensures forall i, j :: 0 <= i < j < |r| ==> r[i] != r[j]
    ensures forall ref :: ref in r <==>
              exists k :: 0 <= k < |images| && images[k].id == id && HasTagRef(images[k]) && Reference(images[k]) == ref
  {
    if images == [] then []
    else
      var img := images[|images| - 1];
      var front := images[..|images| - 1];
      var before := RefsOf(front, id);
      assert images == front + [img];
      assert forall k :: 0 <= k < |front| ==> images[k] == front[k];
      if img.id == id && HasTagRef(img) && Reference(img) !in before then before + [Reference(img)] else before
  }

  predicate OldStopped(p: Policy, c: Container) { c.stopped && c.age >= p.minAgeDays as real }

  // The ids stand for the containers at these positions, in listing order, and these are all
  // the old stopped ones.
  ghost predicate ListsOldStopped(p: Policy, containers: seq<Container>, ids: seq<string>, at: seq<nat>) {
    && |at| == |ids|
    && (forall k :: 0 <= k < |at| ==> at[k] < |containers| && ids[k] == containers[at[k]].id)
    && (forall j, k :: 0 <= j < k < |at| ==> at[j] < at[k])
    && (forall i: nat :: i in at <==> i < |containers| && OldStopped(p, containers[i]))
  }

  // The recorded reason is the reason of some row of that id.
  ghost predicate ReasonHolds(g: Ruling, images: seq<Image>, id: string, reason: Reason) {
    exists i :: 0 <= i < |images| && images[i].id == id && KeepsRow(g, images, i)
                && (g.verdict(images[i]) == Keep(reason) || (g.verdict(images[i]) == Candidate && reason == NewestGeneration))
  }

  // ----- candidate lists and ranks -----

  lemma EntriesPush(g: Ruling, images: seq<Image>, img: Image, repo: string)
    ensures Entries(g, images + [img], repo)
            == Entries(g, images, repo) + (if img.repo == repo && g.verdict(img) == Candidate then [Entry(img.age, img.id)] else [])
  {
    assert (images + [img])[..|images|] == images;
  }

  lemma {:induction false} CountEntries(g: Ruling, images: seq<Image>, repo: string, q: Entry -> bool)
    ensures Count(Entries(g, images, repo), q) == Count(images, Lift(g, repo, q))
  {
    if images != [] {
      var front, img := images[..|images| - 1], images[|images| - 1];
      CountEntries(g, front, repo, q);
      if img.repo == repo && g.verdict(img) == Candidate {
        CountPush(Entries(g, front, repo), Entry(img.age, img.id), q);
      } else {
        assert Entries(g, images, repo) == Entries(g, front, repo);
      }
    }
  }

  // Candidate row i sits in its list behind the candidates listed before it.
  lemma {:induction false} EntryOfRow(g: Ruling, images: seq<Image>, i: nat)
    requires i < |images| && g.verdict(images[i]) == Candidate
    ensures var es, k := Entries(g, images, images[i].repo), |Entries(g, images[..i], images[i].repo)|;
            k < |es| && es[k] == Entry(images[i].age, images[i].id) && es[..k] == Entries(g, images[..i], images[i].repo)
  {
    var repo := images[i].repo;
    var front := images[..|images| - 1];
    if i < |front| {
      EntryOfRow(g, front, i);
      assert front[..i] == images[..i];
    } else {
      assert images[..i] == front;
    }
  }

  lemma {:induction false} RowOfEntry(g: Ruling, images: seq<Image>, repo: string, k: nat) returns (i: nat)
    requires k < |Entries(g, images, repo)|
    ensures i < |images| && images[i].repo == repo && g.verdict(images[i]) == Candidate
    ensures k == |Entries(g, images[..i], repo)|
  {
    var front := images[..|images| - 1];
    if k < |Entries(g, front, repo)| {
      i := RowOfEntry(g, front, repo, k);
      assert front[..i] == images[..i];
    } else {
      i := |images| - 1;
      assert images[..i] == front;
    }
  }

  // The rank of a row in the inventory is the rank of its entry in the repository's list.
  lemma RankOfEntry(g: Ruling, images: seq<Image>, i: nat)
    requires i < |images| && g.verdict(images[i]) == Candidate
    ensures var es, k := Entries(g, images, images[i].repo), |Entries(g, images[..i], images[i].repo)|;
            k < |es| && es[k] == Entry(images[i].age, images[i].id) && RankIn(es, k) == Rank(g, images, i)
  {
    EntryOfRow(g, images, i);
    CountEntries(g, images, images[i].repo, Younger(images[i].age));
    CountEntries(g, images[..i], images[i].repo, SameAge(images[i].age));
  }

  // The sorted candidate list shows every candidate row at the position of its rank...
  lemma SortedAtRank(g: Ruling, images: seq<Image>, i: nat)
    requires i < |images| && g.verdict(images[i]) == Candidate
    ensures var sorted := StableSort(Entries(g, images, images[i].repo));
            Rank(g, images, i) < |sorted| && sorted[Rank(g, images, i)] == Entry(images[i].age, images[i].id)
  {
    RankOfEntry(g, images, i);
    StableSortPosition(Entries(g, images, images[i].repo), |Entries(g, images[..i], images[i].repo)|);
  }

  // ...and nothing else.
  lemma RowAtPosition(g: Ruling, images: seq<Image>, repo: string, k: nat) returns (i: nat)
    requires k < |Entries(g, images, repo)|
    ensures i < |images| && images[i].repo == repo && g.verdict(images[i]) == Candidate
    ensures Rank(g, images, i) == k
    ensures StableSort(Entries(g, images, repo))[k] == Entry(images[i].age, images[i].id)
  {
    var m := StableSortOnto(Entries(g, images, repo), k);
    i := RowOfEntry(g, images, repo, m);
    RankOfEntry(g, images, i);
  }

  // ----- what the removal queue contains -----

  lemma {:induction false} DirectReapsExact(g: Ruling, images: seq<Image>, id: string)
    ensures id in DirectReaps(g, images) <==> exists i :: 0 <= i < |images| && images[i].id == id && g.verdict(images[i]) == Reap
  {
    if images != [] {
      var front := images[..|images| - 1];
      DirectReapsExact(g, front, id);
      assert images == front + [images[|images| - 1]];
      assert forall i :: 0 <= i < |front| ==> images[i] == front[i];
    }
  }

  lemma {:induction false} CandidateReposExact(g: Ruling, images: seq<Image>)
    ensures forall r :: r in CandidateRepos(g, images) <==> Entries(g, images, r) != []
    ensures forall a, b :: 0 <= a < b < |CandidateRepos(g, images)| ==> CandidateRepos(g, images)[a] != CandidateRepos(g, images)[b]
  {
    if images != [] {
      CandidateReposExact(g, images[..|images| - 1]);
    }
  }

  ghost predicate InTail(g: Ruling, images: seq<Image>, repo: string, id: string) {
    id in RetentionTail(g, images, repo)
  }

  lemma RetentionReapsMembers(g: Ruling, images: seq<Image>, repos: seq<string>, id: string)
    ensures id in RetentionReaps(g, images, repos, |repos|)
            <==> exists k :: 0 <= k < |repos| && InTail(g, images, repos[k], id)
  {
    var part := TailOf(g, images, repos);
    ConcatMembers(part, |repos|, id);
    assert forall k: nat :: k < |repos| ==> (id in part(k) <==> InTail(g, images, repos[k], id));
  }

  // A candidate row of this repository and id has lost its slot.
  ghost predicate Outranked(g: Ruling, images: seq<Image>, repo: string, id: string) {
    exists i :: 0 <= i < |images| && images[i].id == id && images[i].repo == repo
                && g.verdict(images[i]) == Candidate && Rank(g, images, i) >= g.keep
  }

  lemma TailIsOutranked(g: Ruling, images: seq<Image>, repo: string, k: nat)
    requires k < |Entries(g, images, repo)| && k >= g.keep
    ensures Outranked(g, images, repo, StableSort(Entries(g, images, repo))[k].id)
  {
    var i := RowAtPosition(g, images, repo, k);
  }

  lemma OutrankedInTail(g: Ruling, images: seq<Image>, i: nat)
    requires i < |images| && g.verdict(images[i]) == Candidate && Rank(g, images, i) >= g.keep
    ensures InTail(g, images, images[i].repo, images[i].id)
  {
    SortedAtRank(g, images, i);
    var tail := BeyondNewest(StableSort(Entries(g, images, images[i].repo)), g.keep);
    var k := Rank(g, images, i) - (if g.keep <= 0 then 0 else g.keep);
    assert IdsOf(tail)[k] == tail[k].id == images[i].id;
  }

  // A repository's tail holds the ids of its candidate rows of rank N or more.
  lemma TailExact(g: Ruling, images: seq<Image>, repo: string, id: string)
    ensures InTail(g, images, repo, id) <==> Outranked(g, images, repo, id)
  {
    var tail := BeyondNewest(StableSort(Entries(g, images, repo)), g.keep);
    if InTail(g, images, repo, id) {
      var k :| 0 <= k < |tail| && IdsOf(tail)[k] == id;
      TailIsOutranked(g, images, repo, k + (if g.keep <= 0 then 0 else g.keep));
    }
    if Outranked(g, images, repo, id) {
      var i :| 0 <= i < |images| && images[i].id == id && images[i].repo == repo
               && g.verdict(images[i]) == Candidate && Rank(g, images, i) >= g.keep;
      OutrankedInTail(g, images, i);
    }
  }

  lemma QueueExact(g: Ruling, images: seq<Image>, id: string)
    ensures id in RemovalQueue(g, images) <==>
            exists i :: 0 <= i < |images| && images[i].id == id && !KeepsRow(g, images, i)
  {
    var repos := CandidateRepos(g, images);
    DirectReapsExact(g, images, id);
    CandidateReposExact(g, images);
    RetentionReapsMembers(g, images, repos, id);
    forall r { TailExact(g, images, r, id); }
    forall i | 0 <= i < |images| && images[i].id == id && g.verdict(images[i]) == Candidate && !KeepsRow(g, images, i)
      ensures exists k :: 0 <= k < |repos| && InTail(g, images, repos[k], id)
    {
      EntryOfRow(g, images, i);
      var k :| 0 <= k < |repos| && repos[k] == images[i].repo;
      OutrankedInTail(g, images, i);
    }
  }

  // After reconciliation exactly the ids that no row keeps are removed.
  lemma ReconciledExact(g: Ruling, images: seq<Image>)
    ensures forall id :: id in Reconciled(RemovalQueue(g, images), KeptIds(g, images)) <==> id in RemovedIds(g, images)
  {
    forall id
      ensures id in Reconciled(RemovalQueue(g, images), KeptIds(g, images)) <==> id in RemovedIds(g, images)
    {
      QueueExact(g, images, id);
    }
  }

  // ----- the planner -----

  // Some row of this id is kept outright by the guard chain, for this reason.
  ghost predicate DirectlyKept(g: Ruling, images: seq<Image>, id: string, reason: Reason) {
    exists i :: 0 <= i < |images| && images[i].id == id && g.verdict(images[i]) == Keep(reason)
  }

  ghost predicate KeptRouted(g: Ruling, images: seq<Image>, kept: map<string, Reason>) {
    && (forall id, reason :: DirectlyKept(g, images, id, reason) ==> id in kept)
    && (forall id :: id in kept ==> DirectlyKept(g, images, id, kept[id]))
  }

  ghost predicate RefsRouted(images: seq<Image>, refs: map<string, seq<string>>) {
    && (forall id :: id in refs <==> id in AllIds(images))
    && (forall id :: id in refs ==> refs[id] == RefsOf(images, id))
  }

  ghost predicate GroupsRouted(g: Ruling, images: seq<Image>, repos: seq<string>, superseded: map<string, seq<Entry>>) {
    && repos == CandidateRepos(g, images)
    && (forall r :: r in superseded <==> r in repos)
    && (forall r :: r in superseded ==> superseded[r] == Entries(g, images, r))
  }

  lemma RefsOfPush(images: seq<Image>, img: Image, id: string)
    ensures RefsOf(images + [img], id)
            == if img.id == id && HasTagRef(img) && Reference(img) !in RefsOf(images, id)
               then RefsOf(images, id) + [Reference(img)] else RefsOf(images, id)
  {
    assert (images + [img])[..|images|] == images;
  }

  lemma {:induction false} RefsOfUnseen(images: seq<Image>, id: string)
    requires id !in AllIds(images)
    ensures RefsOf(images, id) == []
  {
    if images != [] {
      assert images[|images| - 1].id in AllIds(images);
      assert AllIds(images[..|images| - 1]) <= AllIds(images);
      RefsOfUnseen(images[..|images| - 1], id);
    }
  }

  lemma AllIdsPush(images: seq<Image>, img: Image)
    ensures AllIds(images + [img]) == AllIds(images) + {img.id}
  {
    var all := images + [img];
    assert forall i :: 0 <= i < |images| ==> all[i] == images[i];
    assert all[|images|].id == img.id;
    assert forall i :: 0 <= i < |all| ==> all[i].id in AllIds(images) + {img.id};
  }

  // refs_by_id after one row.
  method NoteReference(ghost done: seq<Image>, img: Image, refs: map<string, seq<string>>)
    returns (updated: map<string, seq<string>>)
    requires RefsRouted(done, refs)
    ensures RefsRouted(done + [img], updated)
  {
    AllIdsPush(done, img);
    var tagList := if img.id in refs then refs[img.id] else [];
    if img.id !in refs { RefsOfUnseen(done, img.id); }
    assert tagList == RefsOf(done, img.id);
    RefsOfPush(done, img, img.id);
    if HasTagRef(img) && Reference(img) !in tagList {
      tagList := tagList + [Reference(img)];
    }
    assert tagList == RefsOf(done + [img], img.id);
    updated := refs[img.id := tagList];
    forall id | id in updated && id != img.id ensures updated[id] == RefsOf(done + [img], id) {
      RefsOfPush(done, img, id);
    }
  }

  lemma DirectlyKeptPush(g: Ruling, done: seq<Image>, img: Image, id: string, reason: Reason)
    ensures DirectlyKept(g, done + [img], id, reason)
            <==> DirectlyKept(g, done, id, reason) || (img.id == id && g.verdict(img) == Keep(reason))
  {
    var all := done + [img];
    assert forall i :: 0 <= i < |done| ==> all[i] == done[i];
    assert all[|done|] == img;
  }

  // A candidate row joins its repository's list.
  method Defer(ghost g: Ruling, ghost done: seq<Image>, img: Image, repos: seq<string>, superseded: map<string, seq<Entry>>)
    returns (reposNow: seq<string>, supersededNow: map<string, seq<Entry>>)
    requires GroupsRouted(g, done, repos, superseded) && g.verdict(img) == Candidate
    ensures GroupsRouted(g, done + [img], reposNow, supersededNow)
  {
    assert (done + [img])[..|done|] == done;
    forall r { EntriesPush(g, done, img, r); }
    CandidateReposExact(g, done);
    var before := if img.repo in superseded then superseded[img.repo] else [];
    supersededNow := superseded[img.repo := before + [Entry(img.age, img.id)]];
    reposNow := if img.repo in superseded then repos else repos + [img.repo];
  }

  lemma GroupsUnchanged(g: Ruling, done: seq<Image>, img: Image, repos: seq<string>, superseded: map<string, seq<Entry>>)
    requires GroupsRouted(g, done, repos, superseded) && g.verdict(img) != Candidate
    ensures GroupsRouted(g, done + [img], repos, superseded)
  {
    assert (done + [img])[..|done|] == done;
    forall r { EntriesPush(g, done, img, r); }
  }

  lemma DirectReapsPush(g: Ruling, done: seq<Image>, img: Image)
    ensures DirectReaps(g, done + [img]) == DirectReaps(g, done) + (if g.verdict(img) == Reap then [img.id] else [])
  {
    assert (done + [img])[..|done|] == done;
  }

  // The guard chain applied to one row.
  method RouteRow(g: Ruling, ghost done: seq<Image>, img: Image, queue: seq<string>, kept: map<string, Reason>,
                  repos: seq<string>, superseded: map<string, seq<Entry>>)
    returns (queueNow: seq<string>, keptNow: map<string, Reason>, reposNow: seq<string>, supersededNow: map<string, seq<Entry>>)
    requires queue == DirectReaps(g, done) && KeptRouted(g, done, kept) && GroupsRouted(g, done, repos, superseded)
    ensures queueNow == DirectReaps(g, done + [img]) && KeptRouted(g, done + [img], keptNow)
    ensures GroupsRouted(g, done + [img], reposNow, supersededNow)
  {
    DirectReapsPush(g, done, img);
    forall id, reason { DirectlyKeptPush(g, done, img, id, reason); }
    queueNow, keptNow, reposNow, supersededNow := queue, kept, repos, superseded;
    match g.verdict(img) {
      case Keep(reason) =>
        keptNow := kept[img.id := reason];
        GroupsUnchanged(g, done, img, repos, superseded);
      case Reap =>
        queueNow := queue + [img.id];
        GroupsUnchanged(g, done, img, repos, superseded);
      case Candidate =>
        reposNow, supersededNow := Defer(g, done, img, repos, superseded);
    }
  }

  // The first loop.
  method RouteRows(g: Ruling, images: seq<Image>)
    returns (queue: seq<string>, kept: map<string, Reason>, refs: map<string, seq<string>>,
             repos: seq<string>, superseded: map<string, seq<Entry>>)
    ensures queue == DirectReaps(g, images) && KeptRouted(g, images, kept)
    ensures RefsRouted(images, refs) && GroupsRouted(g, images, repos, superseded)
  {
    queue, kept, refs, repos, superseded := [], map[], map[], [], map[];
    for n := 0 to |images|
      invariant queue == DirectReaps(g, images[..n]) && KeptRouted(g, images[..n], kept)
      invariant RefsRouted(images[..n], refs) && GroupsRouted(g, images[..n], repos, superseded)
    {
      assert images[..n + 1] == images[..n] + [images[n]];
      refs := NoteReference(images[..n], images[n], refs);
      queue, kept, repos, superseded := RouteRow(g, images[..n], images[n], queue, kept, repos, superseded);
    }
    assert images[..|images|] == images;
  }

  // One of the newest entries of the sorted list belongs to this id.
  ghost predicate AmongNewest(sorted: seq<Entry>, keep: int, id: string) {
    exists k :: 0 <= k < |sorted| && k < keep && sorted[k].id == id
  }

  lemma AmongNewestPush(sorted: seq<Entry>, e: Entry, keep: int, id: string)
    ensures AmongNewest(sorted + [e], keep, id) <==> AmongNewest(sorted, keep, id) || (|sorted| < keep && e.id == id)
  {
    var all := sorted + [e];
    assert forall k :: 0 <= k < |sorted| ==> all[k] == sorted[k];
    assert all[|sorted|] == e;
  }

  ghost predicate NewestKept(sorted: seq<Entry>, keep: int, before: map<string, Reason>, after: map<string, Reason>) {
    && (forall id :: id in after <==> id in before || AmongNewest(sorted, keep, id))
    && (forall id :: id in after ==>
          (id in before && after[id] == before[id]) || (AmongNewest(sorted, keep, id) && after[id] == NewestGeneration))
  }

  // The newest `keep` entries of a sorted list are kept, the others queued for removal.
  method RetainNewest(sorted: seq<Entry>, keep: int, kept: map<string, Reason>, queue: seq<string>)
    returns (keptNow: map<string, Reason>, queueNow: seq<string>)
    ensures queueNow == queue + IdsOf(BeyondNewest(sorted, keep))
    ensures NewestKept(sorted, keep, kept, keptNow)
  {
    keptNow, queueNow := kept, queue;
    for idx := 0 to |sorted|
      invariant queueNow == queue + IdsOf(BeyondNewest(sorted[..idx], keep))
      invariant NewestKept(sorted[..idx], keep, kept, keptNow)
    {
      assert sorted[..idx + 1] == sorted[..idx] + [sorted[idx]];
      forall id { AmongNewestPush(sorted[..idx], sorted[idx], keep, id); }
      if idx < keep {
        keptNow := keptNow[sorted[idx].id := NewestGeneration];
      } else {
        queueNow := queueNow + [sorted[idx].id];
        assert BeyondNewest(sorted[..idx + 1], keep) == BeyondNewest(sorted[..idx], keep) + [sorted[idx]];
      }
    }
    assert sorted[..|sorted|] == sorted;
  }

  // A candidate row of this repository and id holds a retained slot.
  ghost predicate RetainedIn(g: Ruling, images: seq<Image>, repo: string, id: string) {
    exists i :: 0 <= i < |images| && images[i].id == id && images[i].repo == repo
                && g.verdict(images[i]) == Candidate && Rank(g, images, i) < g.keep
  }

  lemma NewestAreRetained(g: Ruling, images: seq<Image>, repo: string, id: string)
    ensures AmongNewest(StableSort(Entries(g, images, repo)), g.keep, id) <==> RetainedIn(g, images, repo, id)
  {
    var sorted := StableSort(Entries(g, images, repo));
    if AmongNewest(sorted, g.keep, id) {
      var k :| 0 <= k < |sorted| && k < g.keep && sorted[k].id == id;
      var i := RowAtPosition(g, images, repo, k);
    }
    if RetainedIn(g, images, repo, id) {
      var i :| 0 <= i < |images| && images[i].id == id && images[i].repo == repo
               && g.verdict(images[i]) == Candidate && Rank(g, images, i) < g.keep;
      SortedAtRank(g, images, i);
      assert sorted[Rank(g, images, i)].id == id;
    }
  }

  // kept_reasons once the first n repositories have been through retention.
  ghost predicate KeptSoFar(g: Ruling, images: seq<Image>, repos: seq<string>, n: nat, kept: map<string, Reason>)
    requires n <= |repos|
  {
    && (forall id, reason :: DirectlyKept(g, images, id, reason) ==> id in kept)
    && (forall id, k :: 0 <= k < n && RetainedIn(g, images, repos[k], id) ==> id in kept)
    && (forall id :: id in kept ==>
          DirectlyKept(g, images, id, kept[id])
          || (kept[id] == NewestGeneration && exists k :: 0 <= k < n && RetainedIn(g, images, repos[k], id)))
  }

  lemma KeptAfterRepo(g: Ruling, images: seq<Image>, repos: seq<string>, n: nat,
                      before: map<string, Reason>, after: map<string, Reason>)
    requires n < |repos| && KeptSoFar(g, images, repos, n, before)
    requires NewestKept(StableSort(Entries(g, images, repos[n])), g.keep, before, after)
    ensures KeptSoFar(g, images, repos, n + 1, after)
  {
    forall id { NewestAreRetained(g, images, repos[n], id); }
  }

  lemma KeptInTheEnd(g: Ruling, images: seq<Image>, kept: map<string, Reason>)
    requires KeptSoFar(g, images, CandidateRepos(g, images), |CandidateRepos(g, images)|, kept)
    ensures kept.Keys == KeptIds(g, images)
    ensures forall id :: id in kept ==> ReasonHolds(g, images, id, kept[id])
  {
    var repos := CandidateRepos(g, images);
    CandidateReposExact(g, images);
    forall i | 0 <= i < |images| && KeepsRow(g, images, i) ensures images[i].id in kept {
      if g.verdict(images[i]).Keep? {
        assert DirectlyKept(g, images, images[i].id, g.verdict(images[i]).reason);
      } else {
        EntryOfRow(g, images, i);
        var k :| 0 <= k < |repos| && repos[k] == images[i].repo;
        assert RetainedIn(g, images, repos[k], images[i].id);
      }
    }
  }

  ghost predicate QueueSoFar(g: Ruling, images: seq<Image>, repos: seq<string>, n: nat, queue: seq<string>)
    requires n <= |repos|
  {
    queue == DirectReaps(g, images) + RetentionReaps(g, images, repos, n)
  }

  lemma QueueAfterRepo(g: Ruling, images: seq<Image>, repos: seq<string>, n: nat, before: seq<string>, after: seq<string>)
    requires n < |repos| && QueueSoFar(g, images, repos, n, before)
    requires after == before + RetentionTail(g, images, repos[n])
    ensures QueueSoFar(g, images, repos, n + 1, after)
  {
    Reassociate(DirectReaps(g, images), RetentionReaps(g, images, repos, n), RetentionTail(g, images, repos[n]));
  }

  // The retention loop over all repositories.
  method RetainGenerations(g: Ruling, ghost images: seq<Image>, repos: seq<string>, superseded: map<string, seq<Entry>>,
                           kept: map<string, Reason>, queue: seq<string>)
    returns (keptNow: map<string, Reason>, queueNow: seq<string>)
    requires KeptRouted(g, images, kept) && queue == DirectReaps(g, images)
    requires forall j :: 0 <= j < |repos| ==> repos[j] in superseded && superseded[repos[j]] == Entries(g, images, repos[j])
    ensures QueueSoFar(g, images, repos, |repos|, queueNow)
    ensures KeptSoFar(g, images, repos, |repos|, keptNow)
  {
    keptNow, queueNow := kept, queue;
    assert QueueSoFar(g, images, repos, 0, queue);
    for j := 0 to |repos|
      invariant QueueSoFar(g, images, repos, j, queueNow)
      invariant KeptSoFar(g, images, repos, j, keptNow)
    {
      ghost var keptBefore, queueBefore := keptNow, queueNow;
      keptNow, queueNow := RetainNewest(StableSort(superseded[repos[j]]), g.keep, keptNow, queueNow);
      KeptAfterRepo(g, images, repos, j, keptBefore, keptNow);
      QueueAfterRepo(g, images, repos, j, queueBefore, queueNow);
    }
  }

  // remove_image_ids, remove_image_refs and kept_reasons of the plan.
  method PlanImages(g: Ruling, images: seq<Image>)
    returns (removeIds: seq<string>, removeRefs: map<string, seq<string>>, kept: map<string, Reason>)
    ensures removeIds == Reconciled(RemovalQueue(g, images), KeptIds(g, images))
    ensures removeRefs == map id | id in RemovedIds(g, images) :: RefsOf(images, id)
    ensures kept.Keys == KeptIds(g, images)
    ensures forall id :: id in kept ==> ReasonHolds(g, images, id, kept[id])
  {
    var queue, refs, repos, superseded;
    queue, kept, refs, repos, superseded := RouteRows(g, images);
    kept, queue := RetainGenerations(g, images, repos, superseded, kept, queue);
    KeptInTheEnd(g, images, kept);
    ReconciledExact(g, images);
    removeIds := Reconcile(queue, kept);
    removeRefs := map id | id in removeIds :: refs[id];
  }

  method BuildPlan(p: Policy, images: seq<Image>, containers: seq<Container>) returns (plan: Plan)
    ensures plan.removeIds == Reconciled(RemovalQueue(RulingOf(p), images), KeptIds(RulingOf(p), images))
    ensures plan.removeRefs == map id | id in RemovedIds(RulingOf(p), images) :: RefsOf(images, id)
    ensures exists at :: ListsOldStopped(p, containers, plan.removeContainers, at)
    ensures plan.keptReasons.Keys == KeptIds(RulingOf(p), images)
    ensures forall id :: id in plan.keptReasons ==> ReasonHolds(RulingOf(p), images, id, plan.keptReasons[id])
  {
    var removeIds, removeRefs, kept := PlanImages(RulingOf(p), images);
    var stopped := StoppedContainers(p, containers);
    plan := Plan(removeIds, removeRefs, stopped, kept);
  }

  method Reconcile(queue: seq<string>, kept: map<string, Reason>) returns (safe: seq<string>)
    ensures safe == Reconciled(queue, kept.Keys)
  {
    safe := [];
    var seen: set<string> := {};
    for n := 0 to |queue|
      invariant safe == Reconciled(queue[..n], kept.Keys)
      invariant forall x :: x in seen <==> x in safe
    {
      assert queue[..n + 1][..n] == queue[..n];
      if queue[n] !in kept && queue[n] !in seen {
        seen := seen + {queue[n]};
        safe := safe + [queue[n]];
      }
    }
    assert queue[..|queue|] == queue;
  }

  method StoppedContainers(p: Policy, containers: seq<Container>) returns (ids: seq<string>)
    ensures exists at :: ListsOldStopped(p, containers, ids, at)
  {
    ids := [];
    ghost var at: seq<nat> := [];
    for n := 0 to |containers|
      invariant ListsOldStopped(p, containers[..n], ids, at)
    {
      var c := containers[n];
      if c.stopped && !(c.age < p.minAgeDays as real) {
        ids, at := ids + [c.id], at + [n];
      }
    }
    assert containers[..|containers|] == containers;
  }

  function Earlier(): (nat, nat) -> bool { (a: nat, b: nat) => a < b }

  // There is only one such list.
  lemma OldStoppedIsUnique(p: Policy, containers: seq<Container>,
                           ids: seq<string>, at: seq<nat>, others: seq<string>, where: seq<nat>)
    requires ListsOldStopped(p, containers, ids, at) && ListsOldStopped(p, containers, others, where)
    ensures ids == others
  {
    assert Ordering.Ascending(at, Earlier()) && Ordering.Ascending(where, Earlier());
    Ordering.AscendingUnique(at, where, Earlier());
  }
}
