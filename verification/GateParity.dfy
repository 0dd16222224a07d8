// Branch-protection parity of scripts/audit_branch_protection_lib.py: fuzzy context
// matching, one gate, one merge policy, and the whole manifest.
module GateParity {
  import opened Wrappers
  import opened Text
  import opened NeedsClosure

  const SEPARATOR := " / "

  // ctx.split(" / ")[-1]: separators are taken from the left and do not overlap.
  function LastSegment(ctx: string): (r: string)
    decreases |ctx|
  {
    var i := Find(ctx, SEPARATOR, 0);
    if i == -1 then ctx else LastSegment(ctx[i + 3..])
  }

  // normalize_context_forms
  function Forms(ctx: string): set<string> {
    {Strip(ctx)} + (if Contains(ctx, SEPARATOR) then {Strip(LastSegment(ctx))} else {})
  }

  predicate Matches(a: string, b: string) { Forms(a) * Forms(b) != {} }

  // is_gate_directly_required
  predicate DirectlyRequired(gate: string, required: seq<string>) {
    exists k :: 0 <= k < |required| && Matches(gate, required[k])
  }

  // The trimmed last segment: the check-run name a context boils down to.
  function Leaf(ctx: string): string { Strip(LastSegment(ctx)) }

  // Trimming the context does not move its last segment.
  predicate Settled(ctx: string) { Leaf(Strip(ctx)) == Leaf(ctx) }

  lemma FormsAre(ctx: string)
    ensures Forms(ctx) == {Strip(ctx), Leaf(ctx)}
  {
    if i :| 0 <= i <= |ctx| && OccursAt(ctx, SEPARATOR, i) {
      assert Contains(ctx, SEPARATOR);
    } else {
      assert !Contains(ctx, SEPARATOR);
    }
  }

  ghost predicate NoSeparator(s: string) { forall i :: !OccursAt(s, SEPARATOR, i) }

  lemma {:induction false} LastSegmentHasNone(ctx: string)
    ensures NoSeparator(LastSegment(ctx))
    decreases |ctx|
  {
    var i := Find(ctx, SEPARATOR, 0);
    if i == -1 {
      assert forall k :: 0 <= k ==> !OccursAt(ctx, SEPARATOR, k);
    } else {
      LastSegmentHasNone(ctx[i + 3..]);
    }
  }

  lemma SliceOfSlice(s: string, lo: nat, hi: nat, i: nat)
    requires lo <= hi <= |s| && i + 3 <= hi - lo
    ensures s[lo..hi][i..i + 3] == s[lo + i..lo + i + 3]
  {
    var a, b := s[lo..hi][i..i + 3], s[lo + i..lo + i + 3];
    assert |a| == |b| == 3;
    forall k | 0 <= k < 3 ensures a[k] == b[k] {
      assert a[k] == s[lo..hi][i + k] == s[lo + i + k] == b[k];
    }
  }

  lemma SliceHasNone(s: string, lo: nat, hi: nat)
    requires lo <= hi <= |s| && NoSeparator(s)
    ensures NoSeparator(s[lo..hi])
  {
    forall i ensures !OccursAt(s[lo..hi], SEPARATOR, i) {
      if OccursAt(s[lo..hi], SEPARATOR, i) {
        SliceOfSlice(s, lo, hi, i);
        assert OccursAt(s, SEPARATOR, lo + i);
      }
    }
  }

  // A leaf is its own leaf.
  lemma LeafIsSettled(ctx: string)
    ensures Leaf(Leaf(ctx)) == Leaf(ctx) && Strip(Leaf(ctx)) == Leaf(ctx)
  {
    var last := LastSegment(ctx);
    LastSegmentHasNone(ctx);
    var r := RStrip(last);
    SliceHasNone(last, 0, |r|);
    assert last[0..|r|] == r;
    var l := LStrip(r);
    SliceHasNone(r, |r| - |l|, |r|);
    assert r[|r| - |l|..|r|] == l;
    assert NoSeparator(Leaf(ctx));
    assert LastSegment(Leaf(ctx)) == Leaf(ctx);
  }

  // Between settled contexts the fuzzy match is equality of leaves, so an equivalence.
  lemma MatchIsLeafEquality(a: string, b: string)
    requires Settled(a) && Settled(b)
    ensures Matches(a, b) <==> Leaf(a) == Leaf(b)
  {
    FormsAre(a);
    FormsAre(b);
    LeafIsSettled(a);
    LeafIsSettled(b);
    FormsMeet(Strip(a), Leaf(a), Strip(b), Leaf(b), Leaf);
  }

  // Two pairs of forms, each pair with its second form as the leaf of both.
  lemma FormsMeet<T>(sa: T, la: T, sb: T, lb: T, leaf: T -> T)
    requires leaf(sa) == la && leaf(la) == la && leaf(sb) == lb && leaf(lb) == lb
    ensures {sa, la} * {sb, lb} != {} <==> la == lb
  {
    if la == lb {
      assert la in {sa, la} * {sb, lb};
    }
    if f :| f in {sa, la} * {sb, lb} {
      assert leaf(f) == la && leaf(f) == lb;
    }
  }

  lemma TrimmedIsSettled(ctx: string)
    requires Trimmed(ctx)
    ensures Settled(ctx)
  {
  }

  // Exactly for settled contexts does matching against every trimmed context mean having
  // the same leaf.
  lemma SettledIff(ctx: string)
    ensures Settled(ctx) <==> (forall d :: Trimmed(d) ==> (Matches(ctx, d) <==> Leaf(ctx) == Leaf(d)))
  {
    if Settled(ctx) {
      forall d | Trimmed(d) ensures Matches(ctx, d) <==> Leaf(ctx) == Leaf(d) {
        TrimmedIsSettled(d);
        MatchIsLeafEquality(ctx, d);
      }
    } else {
      var d := Strip(ctx);
      FormsAre(ctx);
      FormsAre(d);
      assert Strip(ctx) in Forms(ctx) * Forms(d);
      assert Trimmed(d) && Matches(ctx, d);
    }
  }

  lemma WithoutEarlySpace(s: string)
    requires Trimmed(s) && forall i :: 0 <= i && i + 3 <= |s| ==> s[i] != ' '
    ensures Strip(s) == s && LastSegment(s) == s
  {
    forall i | 0 <= i && i + 3 <= |s| ensures !OccursAt(s, SEPARATOR, i) {
      assert s[i..i + 3][0] != SEPARATOR[0];
    }
  }

  lemma LeadingSpace(s: string)
    requires Trimmed(s) && s != ""
    ensures Strip(" " + s) == s
  {
    var spaced := " " + s;
    assert RStrip(spaced) == spaced;
    assert spaced[1..] == s && LStrip(s) == s;
  }

  lemma LeadingSeparator(s: string)
    ensures LastSegment(SEPARATOR + s) == LastSegment(s)
  {
    var c := SEPARATOR + s;
    assert c[0..3] == SEPARATOR;
    assert OccursAt(c, SEPARATOR, 0);
    assert c[3..] == s;
  }

  lemma SpacedForms()
    ensures Strip(" / x") == "/ x" && Leaf(" / x") == "x"
    ensures Strip("/ x") == "/ x" && Leaf("/ x") == "/ x" && Strip("x") == "x" && Leaf("x") == "x"
  {
    WithoutEarlySpace("/ x");
    WithoutEarlySpace("x");
    assert " / x" == " " + "/ x" == SEPARATOR + "x";
    LeadingSpace("/ x");
    LeadingSeparator("x");
  }

  lemma CommonFormMatches(a: string, b: string, f: string)
    requires f in Forms(a) && f in Forms(b)
    ensures Matches(a, b)
  {
    assert f in Forms(a) * Forms(b);
  }

  // A context with outer whitespace can match two contexts that do not match each other.
  lemma MatchingIsNotTransitive()
    ensures Matches("/ x", " / x") && Matches(" / x", "x") && !Matches("/ x", "x")
  {
    SpacedForms();
    FormsAre("/ x");
    FormsAre(" / x");
    FormsAre("x");
    CommonFormMatches("/ x", " / x", "/ x");
    CommonFormMatches(" / x", "x", "x");
    MatchIsLeafEquality("/ x", "x");
    assert |"/ x"| == 3 && |"x"| == 1;
  }

  // ----- one gate -----

  datatype Gate = Gate(context: string, coverage: string, aggregator: string, aggregatorJobId: string, gateJobId: string)

  datatype Class = Missing | NotInNeedsClosure | Unprotected | Indeterminate | InvalidManifest | QueueDrift | StrictDrift

  // evaluate_gate_parity: None when the gate is covered.
  ghost function GateFinding(gate: Gate, required: Option<seq<string>>, jobs: Option<Jobs<string>>): Option<Class> {
    if required.None? then Some(Unprotected)
    else if gate.coverage == "direct" then
      if DirectlyRequired(gate.context, required.value) then None else Some(Missing)
    else if gate.coverage == "needs_child" then
      if !DirectlyRequired(gate.aggregator, required.value) then Some(NotInNeedsClosure)
      else if jobs.None? then Some(Indeterminate)
      else if Reaches(jobs.value, gate.aggregatorJobId, gate.gateJobId) then None
      else Some(NotInNeedsClosure)
    else Some(InvalidManifest)
  }

  method EvaluateGate(gate: Gate, required: Option<seq<string>>, jobs: Option<Jobs<string>>) returns (finding: Option<Class>)
    ensures finding == GateFinding(gate, required, jobs)
  {
    if required.None? {
      return Some(Unprotected);
    }
    if gate.coverage == "direct" {
      return if DirectlyRequired(gate.context, required.value) then None else Some(Missing);
    }
    if gate.coverage == "needs_child" {
      if !DirectlyRequired(gate.aggregator, required.value) {
        return Some(NotInNeedsClosure);
      }
      if jobs.None? {
        return Some(Indeterminate);
      }
      var closure := ComputeNeedsClosure(jobs.value, gate.aggregatorJobId);
      return if gate.gateJobId in closure then None else Some(NotInNeedsClosure);
    }
    return Some(InvalidManifest);
  }

  ghost predicate AllSettled(contexts: seq<string>) { forall k :: 0 <= k < |contexts| ==> Settled(contexts[k]) }

  ghost predicate SomeLeafEquals(context: string, required: seq<string>) {
    exists k :: 0 <= k < |required| && Leaf(required[k]) == Leaf(context)
  }

  lemma RequiredIffSomeLeaf(context: string, required: seq<string>)
    requires Settled(context) && AllSettled(required)
    ensures DirectlyRequired(context, required) <==> SomeLeafEquals(context, required)
  {
    forall k | 0 <= k < |required| ensures Matches(context, required[k]) <==> Leaf(required[k]) == Leaf(context) {
      MatchIsLeafEquality(context, required[k]);
    }
  }

  // With settled contexts a gate is covered exactly when the branch is protected and its
  // own leaf is required, or its aggregator's leaf is required and the gate's job is
  // upstream of the aggregator's job.
  lemma CoveredIff(gate: Gate, required: Option<seq<string>>, jobs: Option<Jobs<string>>)
    requires Settled(gate.context) && Settled(gate.aggregator) && (required.Some? ==> AllSettled(required.value))
    ensures GateFinding(gate, required, jobs) == None <==>
            required.Some?
            && (CoveredDirectly(gate, required.value) || (jobs.Some? && CoveredByNeeds(gate, required.value, jobs.value)))
  {
    if required.Some? {
      if gate.coverage == "direct" {
        DirectIff(gate, required.value, jobs);
      } else if gate.coverage == "needs_child" {
        NeedsChildIff(gate, required.value, jobs);
      }
    }
  }

  ghost predicate CoveredDirectly(gate: Gate, required: seq<string>) {
    gate.coverage == "direct" && SomeLeafEquals(gate.context, required)
  }

  ghost predicate CoveredByNeeds(gate: Gate, required: seq<string>, jobs: Jobs<string>) {
    gate.coverage == "needs_child" && SomeLeafEquals(gate.aggregator, required)
    && Reaches(jobs, gate.aggregatorJobId, gate.gateJobId)
  }

  lemma DirectIff(gate: Gate, required: seq<string>, jobs: Option<Jobs<string>>)
    requires Settled(gate.context) && AllSettled(required) && gate.coverage == "direct"
    ensures GateFinding(gate, Some(required), jobs) == None <==> SomeLeafEquals(gate.context, required)
  {
    DirectFinding(gate, required, jobs);
    RequiredIffSomeLeaf(gate.context, required);
  }

  lemma NeedsChildIff(gate: Gate, required: seq<string>, jobs: Option<Jobs<string>>)
    requires Settled(gate.aggregator) && AllSettled(required) && gate.coverage == "needs_child"
    ensures GateFinding(gate, Some(required), jobs) == None <==>
            SomeLeafEquals(gate.aggregator, required)
            && jobs.Some? && Reaches(jobs.value, gate.aggregatorJobId, gate.gateJobId)
  {
    NeedsChildFinding(gate, required, jobs);
    RequiredIffSomeLeaf(gate.aggregator, required);
  }

  lemma NeedsChildFinding(gate: Gate, required: seq<string>, jobs: Option<Jobs<string>>)
    requires gate.coverage == "needs_child"
    ensures GateFinding(gate, Some(required), jobs) == None <==>
            DirectlyRequired(gate.aggregator, required)
            && jobs.Some? && Reaches(jobs.value, gate.aggregatorJobId, gate.gateJobId)
  {
    assert |"direct"| != |"needs_child"|;
  }

  lemma DirectFinding(gate: Gate, required: seq<string>, jobs: Option<Jobs<string>>)
    requires gate.coverage == "direct"
    ensures GateFinding(gate, Some(required), jobs) == None <==> DirectlyRequired(gate.context, required)
  {
  }

  // Protection that only grows: more required contexts, more needs edges.
  ghost predicate ProtectionGrows(required: Option<seq<string>>, more: Option<seq<string>>) {
    required.Some? ==> more.Some? && forall c :: c in required.value ==> c in more.value
  }

  ghost predicate WorkflowGrows(jobs: Option<Jobs<string>>, more: Option<Jobs<string>>) {
    jobs.Some? ==> more.Some? && NeedsGrow(jobs.value, more.value)
  }

  lemma RequiredStaysRequired(context: string, required: seq<string>, more: seq<string>)
    requires DirectlyRequired(context, required) && forall c :: c in required ==> c in more
    ensures DirectlyRequired(context, more)
  {
    var k :| 0 <= k < |required| && Matches(context, required[k]);
    assert required[k] in more;
    var j :| 0 <= j < |more| && more[j] == required[k];
  }

  // A covered gate stays covered, whatever the spelling of the contexts.
  lemma CoveredStaysCovered(gate: Gate, required: Option<seq<string>>, more: Option<seq<string>>,
                            jobs: Option<Jobs<string>>, moreJobs: Option<Jobs<string>>)
    requires ProtectionGrows(required, more) && WorkflowGrows(jobs, moreJobs)
    requires GateFinding(gate, required, jobs) == None
    ensures GateFinding(gate, more, moreJobs) == None
  {
    if gate.coverage == "direct" {
      RequiredStaysRequired(gate.context, required.value, more.value);
    } else {
      RequiredStaysRequired(gate.aggregator, required.value, more.value);
      ReachesGrows(jobs.value, moreJobs.value, gate.aggregatorJobId, gate.gateJobId);
    }
  }
}
