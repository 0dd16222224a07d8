// The findings of scripts/audit_branch_protection_lib.py in terms of the live map: under which
// key a branch is looked up, whose workflow a gate is checked against, and which class each
// failure gets.
module GateVerdicts {
  import opened Listing
  import opened Wrappers
  import opened Text
  import opened NeedsClosure
  import opened GateParity
  import opened GateManifest

  // ----- one gate -----

  // The branch was fetched, and these contexts are required on it.
  ghost predicate Requires(live: Live, key: string, contexts: seq<string>) {
    key in live && live[key].required == Some(contexts)
  }

  // The gate's job is upstream of the aggregator's job in the workflow of its aggregator.
  ghost predicate Upstream(live: Live, key: string, gate: Gate) {
    key in live && gate.aggregator in live[key].aggregatorJobs
    && Reaches(live[key].aggregatorJobs[gate.aggregator], gate.aggregatorJobId, gate.gateJobId)
  }

  ghost predicate Satisfied(live: Live, key: string, gate: Gate) {
    exists contexts :: Requires(live, key, contexts)
      && ((gate.coverage == "direct" && DirectlyRequired(gate.context, contexts))
          || (gate.coverage == "needs_child" && DirectlyRequired(gate.aggregator, contexts) && Upstream(live, key, gate)))
  }

  // The gate fails on this branch in this way.
  ghost predicate Fails(live: Live, key: string, gate: Gate, kind: Class) {
    match kind
    case Unprotected => key !in live || live[key].required.None?
    case Missing =>
      exists contexts :: Requires(live, key, contexts)
        && gate.coverage == "direct" && !DirectlyRequired(gate.context, contexts)
    case Indeterminate =>
      exists contexts :: Requires(live, key, contexts)
        && gate.coverage == "needs_child" && DirectlyRequired(gate.aggregator, contexts)
        && gate.aggregator !in live[key].aggregatorJobs
    case NotInNeedsClosure =>
      exists contexts :: Requires(live, key, contexts)
        && gate.coverage == "needs_child"
        && (!DirectlyRequired(gate.aggregator, contexts)
            || (gate.aggregator in live[key].aggregatorJobs && !Upstream(live, key, gate)))
    case InvalidManifest =>
      exists contexts :: Requires(live, key, contexts) && gate.coverage !in {"direct", "needs_child"}
    case QueueDrift => false
    case StrictDrift => false
  }

  // ----- one merge policy -----

  // The declared queue setting is unreadable, or not the live one, or the live one is unknown.
  ghost predicate QueueFails(live: Live, key: string, policy: MergePolicy, kind: Class) {
    policy.queue.Some?
    && match kind
       case InvalidManifest => policy.queue.value !in {"enabled", "disabled"}
       case Indeterminate => policy.queue.value in {"enabled", "disabled"} && (key !in live || live[key].queueEnabled.None?)
       case QueueDrift =>
         key in live
         && ((policy.queue.value == "enabled" && live[key].queueEnabled == Some(false))
             || (policy.queue.value == "disabled" && live[key].queueEnabled == Some(true)))
       case _ => false
  }

  // The same for strict status checks.
  ghost predicate StrictFails(live: Live, key: string, policy: MergePolicy, kind: Class) {
    policy.strict.Some?
    && match kind
       case InvalidManifest => policy.strict.value == NotABool
       case Indeterminate => policy.strict.value.StrictBool? && (key !in live || live[key].strict.None?)
       case StrictDrift =>
         policy.strict.value.StrictBool? && key in live && live[key].strict == Some(!policy.strict.value.b)
       case _ => false
  }

  // ----- the report -----

  // One declared gate of the branch fails so, or its merge policy does.
  ghost predicate BranchShows(live: Live, repo: string, b: BranchSpec, f: Finding) {
    var key := repo + ":" + b.branch;
    f.repo == repo && f.branch == b.branch
    && ((exists i :: 0 <= i < |b.gates| && f.gate == b.gates[i].context && Fails(live, key, b.gates[i], f.kind))
        || (f.gate == "merge_policy" && (QueueFails(live, key, b.policy, f.kind) || StrictFails(live, key, b.policy, f.kind))))
  }

  ghost predicate ManifestShows(live: Live, repos: seq<RepoSpec>, f: Finding) {
    exists i, j :: 0 <= i < |repos| && 0 <= j < |repos[i].branches| && BranchShows(live, repos[i].repo, repos[i].branches[j], f)
  }

  lemma GateClass(live: Live, repo: string, branch: string, gate: Gate, kind: Class)
    ensures var entry := EntryFor(live, repo, branch);
            GateFinding(gate, entry.required, JobsFor(entry, gate)) == Some(kind) <==> Fails(live, repo + ":" + branch, gate, kind)
  {
    var key := repo + ":" + branch;
    if key in live && live[key].required.Some? {
      assert Requires(live, key, live[key].required.value);
    }
    assert |"direct"| != |"needs_child"|;
  }

  lemma PolicyClass(live: Live, repo: string, branch: string, policy: MergePolicy, kind: Class)
    ensures var entry := EntryFor(live, repo, branch);
            && (QueueClass(policy, entry.queueEnabled) == Some(kind) <==> QueueFails(live, repo + ":" + branch, policy, kind))
            && (StrictClass(policy, entry.strict) == Some(kind) <==> StrictFails(live, repo + ":" + branch, policy, kind))
  {
    assert |"enabled"| != |"disabled"|;
  }

  lemma ListedHas(repo: string, branch: string, gate: string, kind: Option<Class>, f: Finding)
    ensures f in Listed(repo, branch, gate, kind) <==>
            f.repo == repo && f.branch == branch && f.gate == gate && kind == Some(f.kind)
  {
  }

  lemma GateReportHas(live: Live, repo: string, branch: string, gate: Gate, f: Finding)
    ensures f in GateReport(repo, branch, EntryFor(live, repo, branch))(gate) <==>
            f.repo == repo && f.branch == branch && f.gate == gate.context && Fails(live, repo + ":" + branch, gate, f.kind)
  {
    var entry := EntryFor(live, repo, branch);
    GateClass(live, repo, branch, gate, f.kind);
    ListedHas(repo, branch, gate.context, GateFinding(gate, entry.required, JobsFor(entry, gate)), f);
  }

  lemma PolicyReportHas(live: Live, repo: string, branch: string, policy: MergePolicy, f: Finding)
    ensures f in PolicyFindings(repo, branch, EntryFor(live, repo, branch), policy) <==>
            f.repo == repo && f.branch == branch && f.gate == "merge_policy"
            && (QueueFails(live, repo + ":" + branch, policy, f.kind) || StrictFails(live, repo + ":" + branch, policy, f.kind))
  {
    var entry := EntryFor(live, repo, branch);
    PolicyClass(live, repo, branch, policy, f.kind);
    ListedHas(repo, branch, "merge_policy", QueueClass(policy, entry.queueEnabled), f);
    ListedHas(repo, branch, "merge_policy", StrictClass(policy, entry.strict), f);
  }

  lemma BranchReportHas(live: Live, repo: string, b: BranchSpec, f: Finding)
    ensures f in BranchReport(repo, live)(b) <==> BranchShows(live, repo, b, f)
  {
    var entry := EntryFor(live, repo, b.branch);
    EachHas(b.gates, GateReport(repo, b.branch, entry), f);
    forall i | 0 <= i < |b.gates| { GateReportHas(live, repo, b.branch, b.gates[i], f); }
    PolicyReportHas(live, repo, b.branch, b.policy, f);
  }

  lemma RepoReportHas(live: Live, r: RepoSpec, f: Finding)
    ensures f in RepoReport(live)(r) <==> exists j :: 0 <= j < |r.branches| && BranchShows(live, r.repo, r.branches[j], f)
  {
    EachHas(r.branches, BranchReport(r.repo, live), f);
    forall j | 0 <= j < |r.branches| { BranchReportHas(live, r.repo, r.branches[j], f); }
  }

  // The findings on a manifest are exactly the failing gates and policies of its branches.
  lemma ManifestShowsIff(live: Live, repos: seq<RepoSpec>, f: Finding)
    ensures f in ManifestFindings(live, repos) <==> ManifestShows(live, repos, f)
  {
    EachHas(repos, RepoReport(live), f);
    forall i | 0 <= i < |repos| { RepoReportHas(live, repos[i], f); }
  }

  lemma FailsInOneWay(live: Live, key: string, gate: Gate, one: Class, two: Class)
    requires Fails(live, key, gate, one) && Fails(live, key, gate, two)
    ensures one == two && !Satisfied(live, key, gate)
  {
    assert |"direct"| != |"needs_child"|;
  }

  lemma UnsatisfiedFails(live: Live, key: string, gate: Gate) returns (kind: Class)
    requires !Satisfied(live, key, gate)
    ensures Fails(live, key, gate, kind)
  {
    if key in live && live[key].required.Some? {
      assert Requires(live, key, live[key].required.value);
      kind := if gate.coverage == "direct" then Missing
        else if gate.coverage != "needs_child" then InvalidManifest
        else if DirectlyRequired(gate.aggregator, live[key].required.value) && gate.aggregator !in live[key].aggregatorJobs
        then Indeterminate else NotInNeedsClosure;
    } else {
      kind := Unprotected;
    }
  }

  // A gate fails in one way, or not at all: then its branch is protected and the gate is
  // required itself, or its aggregator is and runs behind it.
  lemma FailsUnlessSatisfied(live: Live, key: string, gate: Gate)
    ensures Satisfied(live, key, gate) <==> forall kind :: !Fails(live, key, gate, kind)
    ensures forall one, two :: Fails(live, key, gate, one) && Fails(live, key, gate, two) ==> one == two
  {
    forall one, two | Fails(live, key, gate, one) && Fails(live, key, gate, two)
      ensures one == two && !Satisfied(live, key, gate)
    {
      FailsInOneWay(live, key, gate, one, two);
    }
    if !Satisfied(live, key, gate) {
      var kind := UnsatisfiedFails(live, key, gate);
    }
  }

  ghost predicate NothingShown(live: Live, repos: seq<RepoSpec>) { forall f :: !ManifestShows(live, repos, f) }

  lemma SilentIff(live: Live, repos: seq<RepoSpec>)
    ensures ManifestFindings(live, repos) == [] <==> NothingShown(live, repos)
  {
    var findings := ManifestFindings(live, repos);
    if findings == [] {
      forall f ensures !ManifestShows(live, repos, f) { ManifestShowsIff(live, repos, f); }
    } else {
      ManifestShowsIff(live, repos, findings[0]);
    }
  }

  // A manifest that declares this gate only.
  function OneGate(repo: string, branch: string, gate: Gate): seq<RepoSpec> {
    [RepoSpec(repo, [BranchSpec(branch, [gate], MergePolicy(None, None))])]
  }

  lemma OneGateShows(live: Live, repo: string, branch: string, gate: Gate, f: Finding)
    ensures ManifestShows(live, OneGate(repo, branch, gate), f) <==>
            f == Finding(repo, branch, gate.context, f.kind) && Fails(live, repo + ":" + branch, gate, f.kind)
  {
    var repos := OneGate(repo, branch, gate);
    assert repos[0].branches[0].gates[0] == gate;
    if f == Finding(repo, branch, gate.context, f.kind) && Fails(live, repo + ":" + branch, gate, f.kind) {
      assert BranchShows(live, repos[0].repo, repos[0].branches[0], f);
    }
  }

  // One gate is passed over in silence exactly when it is satisfied.
  lemma OneGateIsSilentIff(live: Live, repo: string, branch: string, gate: Gate)
    ensures ManifestFindings(live, OneGate(repo, branch, gate)) == [] <==> Satisfied(live, repo + ":" + branch, gate)
  {
    SilentIff(live, OneGate(repo, branch, gate));
    FailsUnlessSatisfied(live, repo + ":" + branch, gate);
    forall kind ensures ManifestShows(live, OneGate(repo, branch, gate), Finding(repo, branch, gate.context, kind))
                        <==> Fails(live, repo + ":" + branch, gate, kind)
    {
      OneGateShows(live, repo, branch, gate, Finding(repo, branch, gate.context, kind));
    }
    forall f | ManifestShows(live, OneGate(repo, branch, gate), f) ensures Fails(live, repo + ":" + branch, gate, f.kind) {
      OneGateShows(live, repo, branch, gate, f);
    }
  }

  // A needs-child gate of a fetched branch draws no finding exactly when its aggregator is
  // required and the gate's job is reachable from the aggregator's job in the workflow fetched
  // for that aggregator.
  lemma NeedsChildIsSilentIff(live: Live, repo: string, branch: string, gate: Gate)
    requires gate.coverage == "needs_child" && repo + ":" + branch in live
    ensures ManifestFindings(live, OneGate(repo, branch, gate)) == [] <==>
            var entry := live[repo + ":" + branch];
            entry.required.Some? && DirectlyRequired(gate.aggregator, entry.required.value)
            && gate.aggregator in entry.aggregatorJobs
            && Reaches(entry.aggregatorJobs[gate.aggregator], gate.aggregatorJobId, gate.gateJobId)
  {
    var key := repo + ":" + branch;
    OneGateIsSilentIff(live, repo, branch, gate);
    if live[key].required.Some? {
      assert Requires(live, key, live[key].required.value);
    }
  }

  // ----- contexts -----

  lemma SeparatorInside(front: string, last: string, i: int)
    requires OccursAt(front + " / " + last, " / ", i) && i < |front|
    requires |front| >= 2 ==> front[|front| - 2..] != " /"
    ensures i + 3 <= |front|
  {
    var ctx := front + " / " + last;
    assert ctx[i..i + 3][1] == ctx[i + 1] && ctx[i..i + 3][0] == ctx[i];
    assert ctx[|front|] == ' ';
    assert |front| >= 2 ==> front[|front| - 2..] == [front[|front| - 2], front[|front| - 1]];
  }

  lemma {:induction false} LastSegmentBehind(front: string, last: string)
    requires !Contains(last, " / ") && (|front| >= 2 ==> front[|front| - 2..] != " /")
    ensures LastSegment(front + " / " + last) == last
    decreases |front|
  {
    var ctx := front + " / " + last;
    assert OccursAt(ctx, " / ", |front|);
    var i := Find(ctx, " / ", 0);
    if i == |front| {
      assert ctx[i + 3..] == last;
    } else {
      SeparatorInside(front, last, i);
      var rest := front[i + 3..];
      assert ctx[i + 3..] == rest + " / " + last;
      assert |rest| >= 2 ==> rest[|rest| - 2..] == front[|front| - 2..];
      LastSegmentBehind(rest, last);
    }
  }

  // The leaf of a context is what stands behind its last " / ", or all of it, trimmed. (In
  // front of a separator, " /" would be taken for the beginning of another one.)
  lemma LeafIsLastPart(front: string, last: string)
    requires !Contains(last, " / ") && (|front| >= 2 ==> front[|front| - 2..] != " /")
    ensures Leaf(front + " / " + last) == Strip(last) && Leaf(last) == Strip(last)
  {
    LastSegmentBehind(front, last);
  }
}
