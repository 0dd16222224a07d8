// evaluate_merge_policy_parity and evaluate_manifest_parity of
// scripts/audit_branch_protection_lib.py: when the whole manifest comes back clean.
module GateManifest {
  import opened Listing
  import opened Wrappers
  import opened NeedsClosure
  import opened GateParity

  // merge_policy.strict as written: a boolean or something else.
  datatype StrictValue = StrictBool(b: bool) | NotABool

  datatype MergePolicy = MergePolicy(queue: Option<string>, strict: Option<StrictValue>)

  datatype BranchSpec = BranchSpec(branch: string, gates: seq<Gate>, policy: MergePolicy)

  datatype RepoSpec = RepoSpec(repo: string, branches: seq<BranchSpec>)

  // What was fetched for one repo:branch.
  datatype LiveEntry = LiveEntry(
    required: Option<seq<string>>,
    aggregatorJobs: map<string, Jobs<string>>,
    queueEnabled: Option<bool>,
    strict: Option<bool>)

  type Live = map<string, LiveEntry>

  datatype Finding = Finding(repo: string, branch: string, gate: string, kind: Class)

  // The live state of a branch, empty when it was not fetched.
  function EntryFor(live: Live, repo: string, branch: string): LiveEntry {
    var key := repo + ":" + branch;
    if key in live then live[key] else LiveEntry(None, map[], None, None)
  }

  function JobsFor(entry: LiveEntry, gate: Gate): Option<Jobs<string>> {
    if gate.coverage == "needs_child" && gate.aggregator in entry.aggregatorJobs
    then Some(entry.aggregatorJobs[gate.aggregator]) else None
  }

  function QueueClass(policy: MergePolicy, live: Option<bool>): Option<Class> {
    match policy.queue
    case None => None
    case Some(declared) =>
      if declared != "enabled" && declared != "disabled" then Some(InvalidManifest)
      else if live.None? then Some(Indeterminate)
      else if live.value != (declared == "enabled") then Some(QueueDrift)
      else None
  }

  function StrictClass(policy: MergePolicy, live: Option<bool>): Option<Class> {
    match policy.strict
    case None => None
    case Some(NotABool) => Some(InvalidManifest)
    case Some(StrictBool(declared)) =>
      if live.None? then Some(Indeterminate) else if live.value != declared then Some(StrictDrift) else None
  }

  function Listed(repo: string, branch: string, gate: string, kind: Option<Class>): seq<Finding> {
    if kind.Some? then [Finding(repo, branch, gate, kind.value)] else []
  }

  // Findings in declaration order: gates, then merge policy, per branch and repository.
  ghost function GateReport(repo: string, branch: string, entry: LiveEntry): Gate -> seq<Finding> {
    (gate: Gate) => Listed(repo, branch, gate.context, GateFinding(gate, entry.required, JobsFor(entry, gate)))
  }

  function PolicyFindings(repo: string, branch: string, entry: LiveEntry, policy: MergePolicy): seq<Finding> {
    Listed(repo, branch, "merge_policy", QueueClass(policy, entry.queueEnabled))
    + Listed(repo, branch, "merge_policy", StrictClass(policy, entry.strict))
  }

  ghost function BranchFindings(repo: string, entry: LiveEntry, b: BranchSpec): seq<Finding> {
    Each(b.gates, GateReport(repo, b.branch, entry)) + PolicyFindings(repo, b.branch, entry, b.policy)
  }

  ghost function BranchReport(repo: string, live: Live): BranchSpec -> seq<Finding> {
    (b: BranchSpec) => BranchFindings(repo, EntryFor(live, repo, b.branch), b)
  }

  ghost function RepoReport(live: Live): RepoSpec -> seq<Finding> {
    (r: RepoSpec) => Each(r.branches, BranchReport(r.repo, live))
  }

  ghost function ManifestFindings(live: Live, repos: seq<RepoSpec>): seq<Finding> {
    Each(repos, RepoReport(live))
  }

  method EvaluateBranch(repo: string, entry: LiveEntry, b: BranchSpec) returns (findings: seq<Finding>)
    ensures findings == BranchFindings(repo, entry, b)
  {
    findings := [];
    for i := 0 to |b.gates|
      invariant findings == Each(b.gates[..i], GateReport(repo, b.branch, entry))
    {
      EachPush(b.gates, i, GateReport(repo, b.branch, entry));
      var gate := b.gates[i];
      var kind := EvaluateGate(gate, entry.required, JobsFor(entry, gate));
      findings := findings + Listed(repo, b.branch, gate.context, kind);
    }
    assert b.gates[..|b.gates|] == b.gates;
    findings := findings + PolicyFindings(repo, b.branch, entry, b.policy);
  }

  method EvaluateRepo(live: Live, r: RepoSpec) returns (findings: seq<Finding>)
    ensures findings == Each(r.branches, BranchReport(r.repo, live))
  {
    findings := [];
    for i := 0 to |r.branches|
      invariant findings == Each(r.branches[..i], BranchReport(r.repo, live))
    {
      EachPush(r.branches, i, BranchReport(r.repo, live));
      var more := EvaluateBranch(r.repo, EntryFor(live, r.repo, r.branches[i].branch), r.branches[i]);
      findings := findings + more;
    }
    assert r.branches[..|r.branches|] == r.branches;
  }

  method EvaluateManifest(live: Live, repos: seq<RepoSpec>) returns (findings: seq<Finding>)
    ensures findings == ManifestFindings(live, repos)
  {
    findings := [];
    for i := 0 to |repos|
      invariant findings == Each(repos[..i], RepoReport(live))
    {
      EachPush(repos, i, RepoReport(live));
      var more := EvaluateRepo(live, repos[i]);
      findings := findings + more;
    }
    assert repos[..|repos|] == repos;
  }

  // ----- when the manifest is clean -----

  ghost predicate GateCovered(entry: LiveEntry, gate: Gate) {
    GateFinding(gate, entry.required, JobsFor(entry, gate)) == None
  }

  // The declared queue and strict settings are readable and are the live ones.
  ghost predicate PolicyKept(entry: LiveEntry, policy: MergePolicy) {
    && (policy.queue.Some? ==>
          (policy.queue.value == "enabled" && entry.queueEnabled == Some(true))
          || (policy.queue.value == "disabled" && entry.queueEnabled == Some(false)))
    && (policy.strict.Some? ==>
          policy.strict.value.StrictBool? && entry.strict == Some(policy.strict.value.b))
  }

  ghost predicate BranchClean(live: Live, repo: string, b: BranchSpec) {
    var entry := EntryFor(live, repo, b.branch);
    (forall i :: 0 <= i < |b.gates| ==> GateCovered(entry, b.gates[i])) && PolicyKept(entry, b.policy)
  }

  lemma PolicyFindingsIff(repo: string, branch: string, entry: LiveEntry, policy: MergePolicy)
    ensures PolicyFindings(repo, branch, entry, policy) == [] <==> PolicyKept(entry, policy)
  {
  }

  lemma BranchFindingsIff(live: Live, repo: string, b: BranchSpec)
    ensures BranchReport(repo, live)(b) == [] <==> BranchClean(live, repo, b)
  {
    var entry := EntryFor(live, repo, b.branch);
    EachEmptyIff(b.gates, GateReport(repo, b.branch, entry));
    PolicyFindingsIff(repo, b.branch, entry, b.policy);
    assert forall gate :: GateReport(repo, b.branch, entry)(gate) == [] <==> GateCovered(entry, gate);
    assert |BranchFindings(repo, entry, b)|
        == |Each(b.gates, GateReport(repo, b.branch, entry))| + |PolicyFindings(repo, b.branch, entry, b.policy)|;
  }

  ghost predicate RepoClean(live: Live, r: RepoSpec) {
    forall j :: 0 <= j < |r.branches| ==> BranchClean(live, r.repo, r.branches[j])
  }

  ghost predicate ManifestClean(live: Live, repos: seq<RepoSpec>) {
    forall i :: 0 <= i < |repos| ==> RepoClean(live, repos[i])
  }

  lemma RepoFindingsIff(live: Live, r: RepoSpec)
    ensures RepoReport(live)(r) == [] <==> RepoClean(live, r)
  {
    EachEmptyIff(r.branches, BranchReport(r.repo, live));
    forall j | 0 <= j < |r.branches| { BranchFindingsIff(live, r.repo, r.branches[j]); }
  }

  // No findings exactly when every declared gate is covered and every policy is live.
  lemma ManifestFindingsIff(live: Live, repos: seq<RepoSpec>)
    ensures ManifestFindings(live, repos) == [] <==> ManifestClean(live, repos)
  {
    EachEmptyIff(repos, RepoReport(live));
    forall i | 0 <= i < |repos| { RepoFindingsIff(live, repos[i]); }
  }

  // Live protection that grew everywhere, with the same queue and strict settings.
  ghost predicate LiveGrows(live: Live, more: Live) {
    forall key :: key in live ==>
      key in more
      && more[key].queueEnabled == live[key].queueEnabled && more[key].strict == live[key].strict
      && ProtectionGrows(live[key].required, more[key].required)
      && forall a :: a in live[key].aggregatorJobs ==>
           a in more[key].aggregatorJobs && NeedsGrow(live[key].aggregatorJobs[a], more[key].aggregatorJobs[a])
  }

  // A clean branch that was not fetched declares no gate and no setting.
  lemma UnfetchedDeclaresNothing(live: Live, repo: string, b: BranchSpec)
    requires BranchClean(live, repo, b) && repo + ":" + b.branch !in live
    ensures b.gates == [] && b.policy.queue.None? && b.policy.strict.None?
  {
    assert b.gates != [] ==> GateCovered(EntryFor(live, repo, b.branch), b.gates[0]);
  }

  lemma BranchStaysClean(live: Live, more: Live, repo: string, b: BranchSpec)
    requires LiveGrows(live, more) && BranchClean(live, repo, b)
    ensures BranchClean(more, repo, b)
  {
    var entry, entryMore := EntryFor(live, repo, b.branch), EntryFor(more, repo, b.branch);
    if repo + ":" + b.branch !in live {
      UnfetchedDeclaresNothing(live, repo, b);
    }
    forall i | 0 <= i < |b.gates| ensures GateCovered(entryMore, b.gates[i]) {
      var gate := b.gates[i];
      assert GateCovered(entry, gate);
      CoveredStaysCovered(gate, entry.required, entryMore.required, JobsFor(entry, gate), JobsFor(entryMore, gate));
    }
  }

  // Adding required contexts or needs edges never makes a clean manifest report anything.
  lemma CleanManifestStaysClean(live: Live, more: Live, repos: seq<RepoSpec>)
    requires LiveGrows(live, more) && ManifestFindings(live, repos) == []
    ensures ManifestFindings(more, repos) == []
  {
    ManifestFindingsIff(live, repos);
    ManifestFindingsIff(more, repos);
    forall i | 0 <= i < |repos| ensures RepoClean(more, repos[i]) {
      assert RepoClean(live, repos[i]);
      forall j | 0 <= j < |repos[i].branches| ensures BranchClean(more, repos[i].repo, repos[i].branches[j]) {
        BranchStaysClean(live, more, repos[i].repo, repos[i].branches[j]);
      }
    }
  }
}
