// compute_needs_closure of scripts/audit_branch_protection_lib.py: a worklist over the
// `needs:` edges of one workflow, proved to be transitive reachability.
module NeedsClosure {

  // The `needs:` entry of a job block: absent, one job, or a list.
  datatype Needs<T> = NoNeeds | OneNeed(job: T) | ManyNeeds(jobs: seq<T>)

  // The parsed jobs mapping of a workflow, over any type of job ids.
  type Jobs<T(==, !new)> = map<T, Needs<T>>

  // A dangling name, or a job without needs, has no edges.
  function NeedsOf<T(==, !new)>(jobs: Jobs<T>, job: T): seq<T> {
    if job !in jobs then []
    else match jobs[job]
      case NoNeeds => []
      case OneNeed(dep) => [dep]
      case ManyNeeds(deps) => deps
  }

  // The job block of a names b behind `needs:`, alone or in a list.
  ghost predicate Names<T(!new)>(jobs: Jobs<T>, a: T, b: T) {
    a in jobs && (jobs[a] == OneNeed(b) || exists deps :: jobs[a] == ManyNeeds(deps) && b in deps)
  }

  lemma NamesIff<T(!new)>(jobs: Jobs<T>, a: T, b: T)
    ensures b in NeedsOf(jobs, a) <==> Names(jobs, a, b)
  {
  }

  // A walk along one or more needs edges.
  ghost predicate IsWalk<T(!new)>(jobs: Jobs<T>, p: seq<T>) {
    |p| >= 2 && forall i :: 0 <= i < |p| - 1 ==> p[i + 1] in NeedsOf(jobs, p[i])
  }

  ghost predicate Reaches<T(!new)>(jobs: Jobs<T>, a: T, b: T) {
    exists p: seq<T> :: IsWalk(jobs, p) && p[0] == a && p[|p| - 1] == b
  }

  // Every name that occurs behind a needs edge.
  ghost function Named<T(!new)>(jobs: Jobs<T>): set<T> {
    set j, d | j in jobs.Keys && d in NeedsOf(jobs, j) :: d
  }

  lemma EdgeReaches<T(!new)>(jobs: Jobs<T>, a: T, b: T)
    requires b in NeedsOf(jobs, a)
    ensures Reaches(jobs, a, b)
  {
    assert IsWalk(jobs, [a, b]);
  }

  lemma StepReaches<T(!new)>(jobs: Jobs<T>, a: T, b: T, c: T)
    requires Reaches(jobs, a, b) && c in NeedsOf(jobs, b)
    ensures Reaches(jobs, a, c)
  {
    var p: seq<T> :| IsWalk(jobs, p) && p[0] == a && p[|p| - 1] == b;
    assert IsWalk(jobs, p + [c]);
  }

  // A set closed under needs that contains the first step of a walk contains its end.
  lemma {:induction false} ClosedContainsWalk<T(!new)>(jobs: Jobs<T>, p: seq<T>, s: set<T>)
    requires IsWalk(jobs, p)
    requires forall d :: d in NeedsOf(jobs, p[0]) ==> d in s
    requires forall x, d :: x in s && d in NeedsOf(jobs, x) ==> d in s
    ensures p[|p| - 1] in s
  {
    assert p[1] in s;
    if |p| > 2 {
      assert forall i :: 0 <= i < |p| - 1 ==> p[1..][i] == p[i + 1];
      ClosedContainsWalk(jobs, p[1..], s);
    }
  }

  // The loop invariant: what is in the closure is reachable, and what is in the closure (or
  // the root) has its needs in the closure or waits on the stack.
  ghost predicate Explored<T(!new)>(jobs: Jobs<T>, root: T, closure: set<T>, stack: seq<T>) {
    && closure <= Named(jobs)
    && (forall x :: x in closure ==> Reaches(jobs, root, x))
    && (forall x :: x in stack ==> x == root || x in closure)
    && (forall x, d :: (x == root || x in closure) && x !in stack && d in NeedsOf(jobs, x) ==> d in closure)
  }

  lemma ExploredIsReachability<T(!new)>(jobs: Jobs<T>, root: T, closure: set<T>)
    requires Explored(jobs, root, closure, [])
    ensures forall x :: x in closure <==> Reaches(jobs, root, x)
  {
    forall x | Reaches(jobs, root, x) ensures x in closure {
      var p: seq<T> :| IsWalk(jobs, p) && p[0] == root && p[|p| - 1] == x;
      ClosedContainsWalk(jobs, p, closure);
    }
  }

  lemma SubsetIsSmaller<T>(a: set<T>, b: set<T>)
    requires a <= b
    ensures |a| <= |b|
  {
    assert b == a + (b - a);
  }

  // The same while the first i needs of the popped job jid have been looked at.
  ghost predicate Exploring<T(!new)>(jobs: Jobs<T>, root: T, closure: set<T>, stack: seq<T>, jid: T, i: nat) {
    && closure <= Named(jobs)
    && (jid == root || jid in closure)
    && (forall x :: x in closure ==> Reaches(jobs, root, x))
    && (forall x :: x in stack ==> x == root || x in closure)
    && (forall x, d :: (x == root || x in closure) && x != jid && x !in stack && d in NeedsOf(jobs, x) ==> d in closure)
    && i <= |NeedsOf(jobs, jid)|
    && (forall k :: 0 <= k < i ==> NeedsOf(jobs, jid)[k] in closure)
  }

  lemma NewNameReached<T(!new)>(jobs: Jobs<T>, root: T, closure: set<T>, stack: seq<T>, jid: T, i: nat)
    requires Exploring(jobs, root, closure, stack, jid, i) && i < |NeedsOf(jobs, jid)|
    ensures var dep := NeedsOf(jobs, jid)[i];
            dep in Named(jobs) && Reaches(jobs, root, dep)
  {
    var dep := NeedsOf(jobs, jid)[i];
    assert jid in jobs.Keys;
    if jid in closure { StepReaches(jobs, root, jid, dep); } else { EdgeReaches(jobs, root, dep); }
  }

  lemma ExploringStep<T(!new)>(jobs: Jobs<T>, root: T, closure: set<T>, stack: seq<T>, jid: T, i: nat)
    requires Exploring(jobs, root, closure, stack, jid, i) && i < |NeedsOf(jobs, jid)|
    ensures var dep := NeedsOf(jobs, jid)[i];
            if dep in closure then Exploring(jobs, root, closure, stack, jid, i + 1)
            else Exploring(jobs, root, closure + {dep}, stack + [dep], jid, i + 1)
  {
    var dep := NeedsOf(jobs, jid)[i];
    NewNameReached(jobs, root, closure, stack, jid, i);
    var grown := closure + {dep};
    forall x, d | (x == root || x in grown) && x != jid && x !in stack + [dep] && d in NeedsOf(jobs, x) ensures d in grown {
      assert dep in stack + [dep];
      assert forall y :: y in stack ==> y in stack + [dep];
    }
  }

  // One pass over the needs of a popped job: new names join the closure and the stack.
  method PushNeeds<T(==, !new)>(jobs: Jobs<T>, ghost root: T, jid: T, closure: set<T>, stack: seq<T>)
    returns (closureNow: set<T>, stackNow: seq<T>)
    requires Exploring(jobs, root, closure, stack, jid, 0)
    ensures Exploring(jobs, root, closureNow, stackNow, jid, |NeedsOf(jobs, jid)|)
    ensures closure <= closureNow && (closureNow == closure ==> stackNow == stack)
  {
    closureNow, stackNow := closure, stack;
    var needs := NeedsOf(jobs, jid);
    for i := 0 to |needs|
      invariant Exploring(jobs, root, closureNow, stackNow, jid, i)
      invariant closure <= closureNow && (closureNow == closure ==> stackNow == stack)
    {
      var dep := needs[i];
      ExploringStep(jobs, root, closureNow, stackNow, jid, i);
      if dep !in closureNow {
        closureNow := closureNow + {dep};
        stackNow := stackNow + [dep];
      }
    }
  }

  method ComputeNeedsClosure<T(==, !new)>(jobs: Jobs<T>, root: T) returns (closure: set<T>)
    ensures forall x :: x in closure <==> Reaches(jobs, root, x)
  {
    closure := {};
    var stack := [root];
    while stack != []
      invariant Explored(jobs, root, closure, stack)
      decreases |Named(jobs)| - |closure|, |stack|
    {
      var jid := stack[|stack| - 1];
      var rest := stack[..|stack| - 1];
      assert stack == rest + [jid];
      assert jid in stack;
      ghost var before := closure;
      closure, stack := PushNeeds(jobs, root, jid, closure, rest);
      SubsetIsSmaller(closure, Named(jobs));
      if closure != before {
        assert closure == before + (closure - before);
      }
    }
    ExploredIsReachability(jobs, root, closure);
  }

  // The root is in its own closure exactly when it lies on a cycle: it needs a job from
  // which it can be reached again, or itself.
  lemma RootInClosureIff<T(!new)>(jobs: Jobs<T>, root: T)
    ensures Reaches(jobs, root, root) <==>
            exists d :: d in NeedsOf(jobs, root) && (d == root || Reaches(jobs, d, root))
  {
    if Reaches(jobs, root, root) {
      var p: seq<T> :| IsWalk(jobs, p) && p[0] == root && p[|p| - 1] == root;
      assert p[1] in NeedsOf(jobs, p[0]);
      if |p| > 2 {
        assert IsWalk(jobs, p[1..]);
      }
    }
    if d :| d in NeedsOf(jobs, root) && d != root && Reaches(jobs, d, root) {
      var p: seq<T> :| IsWalk(jobs, p) && p[0] == d && p[|p| - 1] == root;
      assert IsWalk(jobs, [root] + p);
    }
    if root in NeedsOf(jobs, root) {
      EdgeReaches(jobs, root, root);
    }
  }

  // A job that needs itself is in its own closure.
  lemma SelfNeedIsInClosure()
    ensures Reaches(map["a" := OneNeed("a")], "a", "a")
  {
    var jobs: Jobs<string> := map["a" := OneNeed("a")];
    assert NeedsOf(jobs, "a") == ["a"];
    RootInClosureIff(jobs, "a");
  }

  // Adding edges only adds reachable jobs.
  ghost predicate NeedsGrow<T(!new)>(jobs: Jobs<T>, more: Jobs<T>) {
    forall j, d :: d in NeedsOf(jobs, j) ==> d in NeedsOf(more, j)
  }

  lemma ReachesGrows<T(!new)>(jobs: Jobs<T>, more: Jobs<T>, a: T, b: T)
    requires NeedsGrow(jobs, more) && Reaches(jobs, a, b)
    ensures Reaches(more, a, b)
  {
    var p: seq<T> :| IsWalk(jobs, p) && p[0] == a && p[|p| - 1] == b;
    assert IsWalk(more, p);
  }
}
