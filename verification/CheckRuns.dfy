// collect_seen_check_run_names and find_orphan_contexts of
// scripts/audit_branch_protection_lib.py: pagination that is complete on a healthy server
// and errs towards reporting orphans on a failing one.
module CheckRuns {
  import opened Wrappers

  const PAGE_SIZE: nat := 100

  const PR_ONLY_CONTEXTS: set<string> := {"main-target-guard"}

  // One API answer: a failed or empty call, text that is not JSON, or the listed runs (a run
  // without a string name is None).
  datatype Page = Failed | Malformed | Runs(runs: seq<Option<string>>)

  // The check-runs endpoint: commit and page number to answer.
  type Server = (string, nat) -> Page

  predicate IsFull(p: Page) { p.Runs? && |p.runs| >= PAGE_SIZE }

  function NamesIn(runs: seq<Option<string>>): set<string> {
    set i | 0 <= i < |runs| && runs[i].Some? :: runs[i].value
  }

  function NamesOn(p: Page): set<string> { if p.Runs? then NamesIn(p.runs) else {} }

  // Every commit has a page that is not full, so that its pages come to an end.
  ghost predicate Finite(s: Server, last: string -> nat) {
    forall sha :: last(sha) >= 1 && !IsFull(s(sha, last(sha)))
  }

  // The names on the pages of a commit from `page` up to the first one that is not full.
  ghost function NamesFrom(s: Server, sha: string, page: nat, last: nat): set<string>
    requires page <= last && !IsFull(s(sha, last))
    decreases last - page
  {
    NamesOn(s(sha, page)) + (if IsFull(s(sha, page)) then NamesFrom(s, sha, page + 1, last) else {})
  }

  // All names the collector should see over the listed commits.
  ghost function NamesOver(s: Server, shas: seq<string>, last: string -> nat): set<string>
    requires Finite(s, last)
  {
    if shas == [] then {}
    else NamesOver(s, shas[..|shas| - 1], last)
         + NamesFrom(s, shas[|shas| - 1], 1, last(shas[|shas| - 1]))
  }

  // The pages of one commit.
  method CollectCommit(s: Server, sha: string, ghost last: nat, seen: set<string>) returns (seenNow: set<string>)
    requires last >= 1 && !IsFull(s(sha, last))
    ensures seenNow == seen + NamesFrom(s, sha, 1, last)
  {
    seenNow := seen;
    var page := 1;
    while true
      invariant 1 <= page <= last
      invariant seenNow + NamesFrom(s, sha, page, last) == seen + NamesFrom(s, sha, 1, last)
      decreases last - page
    {
      var answer := s(sha, page);
      if answer.Failed? || answer.Malformed? || answer.runs == [] {
        break;
      }
      seenNow := seenNow + NamesIn(answer.runs);
      if |answer.runs| < PAGE_SIZE {
        break;
      }
      page := page + 1;
    }
  }

  // collect_seen_check_run_names; commits is None when listing them failed.
  method CollectSeen(s: Server, commits: Option<seq<string>>, ghost last: string -> nat) returns (seen: set<string>)
    requires Finite(s, last)
    ensures seen == if commits.None? then {} else NamesOver(s, commits.value, last)
  {
    if commits.None? {
      return {};
    }
    seen := {};
    var shas := commits.value;
    for i := 0 to |shas|
      invariant seen == NamesOver(s, shas[..i], last)
    {
      assert shas[..i + 1][..i] == shas[..i];
      seen := CollectCommit(s, shas[i], last(shas[i]), seen);
    }
    assert shas[..|shas|] == shas;
  }

  // find_orphan_contexts
  function FindOrphans(required: seq<string>, seen: set<string>): (orphans: seq<string>)
    ensures forall c :: c in orphans <==> c in required && c !in seen && c !in PR_ONLY_CONTEXTS
  {
    if required == [] then []
    else
      var c := required[|required| - 1];
      assert required == required[..|required| - 1] + [c];
      FindOrphans(required[..|required| - 1], seen) + (if c !in seen && c !in PR_ONLY_CONTEXTS then [c] else [])
  }

  // Orphans are listed in the order of the required contexts, as often as they are required:
  // one context at a time...
  lemma OrphansOfOne(c: string, seen: set<string>)
    ensures FindOrphans([c], seen) == if c in seen || c == "main-target-guard" then [] else [c]
  {
    assert [c][..0] == [];
  }

  // ...and list by list.
  lemma {:induction false} OrphansAppend(a: seq<string>, b: seq<string>, seen: set<string>)
    ensures FindOrphans(a + b, seen) == FindOrphans(a, seen) + FindOrphans(b, seen)
  {
    if b == [] {
      assert a + b == a;
    } else {
      assert (a + b)[..|a + b| - 1] == a + b[..|b| - 1];
      OrphansAppend(a, b[..|b| - 1], seen);
    }
  }

  // ----- a healthy server -----

  // Page p of a finite list cut every PAGE_SIZE entries; past the end, an empty page.
  function Slice(all: seq<Option<string>>, page: nat): seq<Option<string>> {
    if page == 0 || (page - 1) * PAGE_SIZE >= |all| then []
    else if page * PAGE_SIZE <= |all| then all[(page - 1) * PAGE_SIZE..page * PAGE_SIZE]
    else all[(page - 1) * PAGE_SIZE..]
  }

  function Healthy(lists: string -> seq<Option<string>>): Server {
    (sha: string, page: nat) => Runs(Slice(lists(sha), page))
  }

  function LastPage(lists: string -> seq<Option<string>>): string -> nat {
    (sha: string) => |lists(sha)| / PAGE_SIZE + 1
  }

  // It answers page p with the p-th hundred of the listed runs.
  lemma HundredsAreServed(lists: string -> seq<Option<string>>, sha: string, page: nat)
    requires page >= 1
    ensures var all, answer := lists(sha), Healthy(lists)(sha, page);
            && answer.Runs?
            && |answer.runs| == (if |all| <= 100 * (page - 1) then 0 else if |all| < 100 * page then |all| - 100 * (page - 1) else 100)
            && (forall i :: 0 <= i < |answer.runs| ==> answer.runs[i] == all[100 * (page - 1) + i])
            && (IsFull(answer) <==> |all| >= 100 * page)
  {
  }

  lemma HealthyIsFinite(lists: string -> seq<Option<string>>)
    ensures Finite(Healthy(lists), LastPage(lists))
  {
    forall sha ensures LastPage(lists)(sha) >= 1 && !IsFull(Healthy(lists)(sha, LastPage(lists)(sha))) {
      LastSliceIsShort(lists(sha), |lists(sha)| / PAGE_SIZE + 1);
    }
  }

  lemma LastSliceIsShort(all: seq<Option<string>>, last: nat)
    requires last == |all| / PAGE_SIZE + 1
    ensures |Slice(all, last)| < PAGE_SIZE && Slice(all, last) == all[(last - 1) * PAGE_SIZE..]
  {
    assert (last - 1) * PAGE_SIZE <= |all| < last * PAGE_SIZE;
  }

  lemma PageOfRest(all: seq<Option<string>>, page: nat)
    requires page >= 1 && page * PAGE_SIZE <= |all|
    ensures var rest := all[(page - 1) * PAGE_SIZE..];
            rest[..PAGE_SIZE] == Slice(all, page) && rest[PAGE_SIZE..] == all[page * PAGE_SIZE..]
  {
  }

  // A page before the last is full, and holds the first names of what is left.
  lemma FullPage(all: seq<Option<string>>, page: nat)
    requires 1 <= page <= |all| / PAGE_SIZE
    ensures |Slice(all, page)| == PAGE_SIZE && (page - 1) * PAGE_SIZE <= page * PAGE_SIZE <= |all|
    ensures NamesIn(all[(page - 1) * PAGE_SIZE..]) == NamesIn(Slice(all, page)) + NamesIn(all[page * PAGE_SIZE..])
  {
    PageOfRest(all, page);
    NamesSplit(all[(page - 1) * PAGE_SIZE..], PAGE_SIZE);
  }

  // The names of the rest of a list, page by page.
  lemma {:induction false} PagesCover(s: Server, sha: string, all: seq<Option<string>>, page: nat, last: nat)
    requires last == |all| / PAGE_SIZE + 1 && 1 <= page <= last
    requires forall p: nat :: s(sha, p) == Runs(Slice(all, p))
    ensures !IsFull(s(sha, last)) && (page - 1) * PAGE_SIZE <= |all|
    ensures NamesFrom(s, sha, page, last) == NamesIn(all[(page - 1) * PAGE_SIZE..])
    decreases last - page
  {
    LastSliceIsShort(all, last);
    if page < last {
      FullPage(all, page);
      PagesCover(s, sha, all, page + 1, last);
    }
  }

  // From any page on, the pages up to the first short one hold exactly the rest of the list.
  lemma SlicesCover(lists: string -> seq<Option<string>>, sha: string, page: nat)
    requires 1 <= page <= LastPage(lists)(sha)
    ensures !IsFull(Healthy(lists)(sha, LastPage(lists)(sha)))
    ensures NamesFrom(Healthy(lists), sha, page, LastPage(lists)(sha)) == NamesIn(lists(sha)[(page - 1) * PAGE_SIZE..])
  {
    PagesCover(Healthy(lists), sha, lists(sha), page, LastPage(lists)(sha));
  }

  lemma NamesSplit(runs: seq<Option<string>>, n: nat)
    requires n <= |runs|
    ensures NamesIn(runs) == NamesIn(runs[..n]) + NamesIn(runs[n..])
  {
    assert forall i :: 0 <= i < |runs| ==> runs[i] == if i < n then runs[..n][i] else runs[n..][i - n];
    forall name | name in NamesIn(runs[n..]) ensures name in NamesIn(runs) {
      var i :| 0 <= i < |runs[n..]| && runs[n..][i].Some? && runs[n..][i].value == name;
      assert runs[i + n] == runs[n..][i];
    }
  }

  // Every check-run name is collected, for every list length, whole pages included.
  lemma {:induction false} PaginationIsComplete(lists: string -> seq<Option<string>>, shas: seq<string>, name: string)
    ensures Finite(Healthy(lists), LastPage(lists))
    ensures name in NamesOver(Healthy(lists), shas, LastPage(lists))
            <==> exists k :: 0 <= k < |shas| && name in NamesIn(lists(shas[k]))
  {
    HealthyIsFinite(lists);
    if shas != [] {
      var front, sha := shas[..|shas| - 1], shas[|shas| - 1];
      PaginationIsComplete(lists, front, name);
      SlicesCover(lists, sha, 1);
      assert lists(sha)[0..] == lists(sha);
      assert forall k :: 0 <= k < |front| ==> front[k] == shas[k];
    }
  }

  // ----- a failing server -----

  // The same server with some of its answers lost or garbled.
  ghost predicate Degrades(s: Server, bad: Server) {
    forall sha, page :: bad(sha, page) == s(sha, page) || bad(sha, page).Failed? || bad(sha, page).Malformed?
  }

  lemma {:induction false} DegradedCommitSeesLess(s: Server, bad: Server, sha: string, page: nat, last: nat)
    requires Degrades(s, bad) && page <= last && !IsFull(s(sha, last))
    ensures !IsFull(bad(sha, last)) && NamesFrom(bad, sha, page, last) <= NamesFrom(s, sha, page, last)
    decreases last - page
  {
    assert bad(sha, last) == s(sha, last) || bad(sha, last).Failed? || bad(sha, last).Malformed?;
    assert bad(sha, page) == s(sha, page) || bad(sha, page).Failed? || bad(sha, page).Malformed?;
    if IsFull(bad(sha, page)) {
      DegradedCommitSeesLess(s, bad, sha, page + 1, last);
    }
  }

  lemma {:induction false} DegradedSeesLess(s: Server, bad: Server, shas: seq<string>, last: string -> nat)
    requires Degrades(s, bad) && Finite(s, last)
    ensures Finite(bad, last) && NamesOver(bad, shas, last) <= NamesOver(s, shas, last)
  {
    forall sha ensures last(sha) >= 1 && !IsFull(bad(sha, last(sha))) {
      DegradedCommitSeesLess(s, bad, sha, last(sha), last(sha));
    }
    if shas != [] {
      DegradedSeesLess(s, bad, shas[..|shas| - 1], last);
      DegradedCommitSeesLess(s, bad, shas[|shas| - 1], 1, last(shas[|shas| - 1]));
    }
  }

  // Any pattern of lost pages, or losing the commit listing, can only add orphans.
  lemma FailuresNeverHideOrphans(s: Server, bad: Server, shas: seq<string>, last: string -> nat,
                                 required: seq<string>, context: string)
    requires Degrades(s, bad) && Finite(s, last)
    requires context in FindOrphans(required, NamesOver(s, shas, last))
    ensures Finite(bad, last) && context in FindOrphans(required, NamesOver(bad, shas, last))
    ensures context in FindOrphans(required, {})
  {
    DegradedSeesLess(s, bad, shas, last);
  }

  // On a healthy server a required context is an orphan exactly when no scanned commit
  // lists it and it is not one that only pull requests report.
  lemma OrphanIff(lists: string -> seq<Option<string>>, shas: seq<string>, required: seq<string>, context: string)
    ensures Finite(Healthy(lists), LastPage(lists))
    ensures context in FindOrphans(required, NamesOver(Healthy(lists), shas, LastPage(lists)))
            <==> context in required && context != "main-target-guard"
                 && forall k :: 0 <= k < |shas| ==> context !in NamesIn(lists(shas[k]))
  {
    PaginationIsComplete(lists, shas, context);
  }
}
