/** Resolving the build modules: a depth-first walk over requirements that either puts every module
    after all it requires, or stops at a missing module or a cycle. */
module BuildPlan {
  import opened Collections

  datatype Module = Module(name: string, requirements: seq<string>)

  type Plan = seq<Module>

  /** The first module of that name, or the number of modules if there is none. */
  function FindModule(p: Plan, name: string): (i: nat)
    ensures i <= |p|
    ensures i < |p| ==> p[i].name == name
    ensures forall j :: 0 <= j < i ==> p[j].name != name
  {
    FindFrom(p, name, 0)
  }

  function FindFrom(p: Plan, name: string, from: nat): (i: nat)
    requires from <= |p|
    ensures from <= i <= |p|
    ensures i < |p| ==> p[i].name == name
    ensures forall j :: from <= j < i ==> p[j].name != name
    decreases |p| - from
  {
    if from == |p| || p[from].name == name then from else FindFrom(p, name, from + 1)
  }

  /** Module i's k-th requirement. */
  function Target(p: Plan, i: nat, k: nat): nat
    requires i < |p| && k < |p[i].requirements|
  {
    FindModule(p, p[i].requirements[k])
  }

  // ----- The walk -----

  datatype Walk = Walk(visiting: seq<bool>, resolved: seq<bool>, order: seq<nat>)

  predicate Sized(p: Plan, s: Walk) {
    |s.visiting| == |p| && |s.resolved| == |p|
  }

  function Unmarked(p: Plan, s: Walk): set<nat>
    requires Sized(p, s)
  {
    set j: nat | j < |p| && !s.visiting[j] && !s.resolved[j]
  }

  predicate Grows(p: Plan, s: Walk, t: Walk) {
    Sized(p, s) && Sized(p, t)
    && forall j :: 0 <= j < |p| && (s.visiting[j] || s.resolved[j]) ==> t.visiting[j] || t.resolved[j]
  }

  lemma GrowsShrinks(p: Plan, s: Walk, t: Walk)
    requires Grows(p, s, t)
    ensures |Unmarked(p, t)| <= |Unmarked(p, s)|
  {
    SubsetSize(Unmarked(p, t), Unmarked(p, s));
  }

  function Enter(s: Walk, i: nat): Walk
    requires i < |s.visiting|
  {
    s.(visiting := s.visiting[i := true])
  }

  lemma EnterShrinks(p: Plan, s: Walk, i: nat)
    requires Sized(p, s) && i < |p| && !s.visiting[i] && !s.resolved[i]
    ensures |Unmarked(p, Enter(s, i))| < |Unmarked(p, s)|
  {
    assert i in Unmarked(p, s) && i !in Unmarked(p, Enter(s, i));
    SubsetSize(Unmarked(p, Enter(s, i)), Unmarked(p, s));
  }

  function Leave(s: Walk, i: nat): Walk
    requires i < |s.visiting| && i < |s.resolved|
  {
    Walk(s.visiting[i := false], s.resolved[i := true], s.order + [i])
  }

  function Resolve(p: Plan, s: Walk, i: nat): (r: (Walk, bool))
    requires Sized(p, s) && i < |p|
    ensures Grows(p, s, r.0)
    decreases |Unmarked(p, s)|, 0
  {
    if s.resolved[i] then (s, true)
    else if s.visiting[i] then (s, false)
    else
      EnterShrinks(p, s, i);
      var (t, ok) := ResolveRequirements(p, Enter(s, i), i, 0);
      if ok then (Leave(t, i), true) else (t, false)
  }

  function ResolveRequirements(p: Plan, s: Walk, i: nat, k: nat): (r: (Walk, bool))
    requires Sized(p, s) && i < |p| && k <= |p[i].requirements|
    ensures Grows(p, s, r.0)
    decreases |Unmarked(p, s)|, 1 + |p[i].requirements| - k
  {
    if k == |p[i].requirements| then (s, true)
    else if Target(p, i, k) == |p| then (s, false)
    else
      var (t, ok) := Resolve(p, s, Target(p, i, k));
      GrowsShrinks(p, s, t);
      if ok then ResolveRequirements(p, t, i, k + 1) else (t, false)
  }

  function ResolveFrom(p: Plan, s: Walk, i: nat): (r: (Walk, bool))
    requires Sized(p, s) && i <= |p|
    ensures Sized(p, r.0)
    decreases |p| - i
  {
    if i == |p| then (s, true)
    else
      var (t, ok) := Resolve(p, s, i);
      if ok then ResolveFrom(p, t, i + 1) else (t, false)
  }

  function Start(p: Plan): (s: Walk)
    ensures Sized(p, s)
  {
    Walk(seq(|p|, _ => false), seq(|p|, _ => false), [])
  }

  /** The plan of a project, freshly read. */
  function ResolvePlan(p: Plan): (Walk, bool) {
    ResolveFrom(p, Start(p), 0)
  }

  // ----- What a plan should be -----

  predicate Requires(p: Plan, i: nat, j: nat) {
    i < |p| && exists k: nat :: k < |p[i].requirements| && Target(p, i, k) == j
  }

  /** Every requirement names a module. */
  predicate Complete(p: Plan) {
    forall i: nat, k: nat :: i < |p| && k < |p[i].requirements| ==> Target(p, i, k) < |p|
  }

  predicate Step(p: Plan, path: seq<nat>, n: nat)
    requires n + 1 < |path|
  {
    Requires(p, path[n], path[n + 1])
  }

  predicate IsPath(p: Plan, path: seq<nat>) {
    && (forall n :: 0 <= n < |path| ==> path[n] < |p|)
    && forall n: nat {:trigger Step(p, path, n)} :: n + 1 < |path| ==> Step(p, path, n)
  }

  predicate IsCycle(p: Plan, path: seq<nat>) {
    IsPath(p, path) && |path| >= 2 && path[0] == path[|path| - 1]
  }

  ghost predicate Cyclic(p: Plan) {
    exists path: seq<nat> :: IsCycle(p, path)
  }

  /** Everything the n-th module requires is there, and before it. */
  predicate Supplied(p: Plan, order: seq<nat>, n: nat)
    requires n < |order|
  {
    && order[n] < |p|
    && forall k: nat :: k < |p[order[n]].requirements| ==> Target(p, order[n], k) in order[..n]
  }

  predicate Topological(p: Plan, order: seq<nat>) {
    NoDuplicates(order) && forall n: nat {:trigger Supplied(p, order, n)} :: n < |order| ==> Supplied(p, order, n)
  }

  // ----- What the walk keeps -----

  predicate Inv(p: Plan, s: Walk) {
    && Sized(p, s) && Topological(p, s.order)
    && (forall j: nat :: j < |p| ==> (s.resolved[j] <==> j in s.order))
    && (forall j: nat :: j < |p| ==> !(s.resolved[j] && s.visiting[j]))
  }

  lemma AppendTopological(p: Plan, order: seq<nat>, i: nat)
    requires Topological(p, order) && i < |p| && i !in order
    requires forall k: nat :: k < |p[i].requirements| ==> Target(p, i, k) in order
    ensures Topological(p, order + [i])
  {
    var longer := order + [i];
    forall n: nat | n < |longer| ensures Supplied(p, longer, n) {
      if n < |order| {
        assert Supplied(p, order, n);
        assert longer[..n] == order[..n];
      } else {
        assert longer[..n] == order;
      }
    }
  }

  /** A resolved module stays resolved, and the order only grows at its end. */
  predicate Extends(s: Walk, t: Walk) {
    |s.order| <= |t.order| && t.order[..|s.order|] == s.order
  }

  /** When the walk succeeds it keeps the invariant, takes back every visiting mark, and resolves the
      module it was asked for. */
  lemma {:induction false} ResolveKeeps(p: Plan, s: Walk, i: nat)
    requires Inv(p, s) && i < |p|
    ensures var (t, ok) := Resolve(p, s, i);
            ok ==> Inv(p, t) && Extends(s, t) && t.visiting == s.visiting && t.resolved[i]
    decreases |Unmarked(p, s)|, 0
  {
    if !s.resolved[i] && !s.visiting[i] {
      EnterShrinks(p, s, i);
      var e := Enter(s, i);
      var (t, ok) := ResolveRequirements(p, e, i, 0);
      RequirementsKeep(p, e, i, 0);
      if ok {
        assert t.visiting[i] && i !in t.order;
        AppendTopological(p, t.order, i);
        assert Leave(t, i).visiting == s.visiting;
      }
    }
  }

  lemma {:induction false} RequirementsKeep(p: Plan, s: Walk, i: nat, k: nat)
    requires Inv(p, s) && i < |p| && k <= |p[i].requirements|
    requires forall j: nat :: j < k ==> Target(p, i, j) in s.order
    ensures var (t, ok) := ResolveRequirements(p, s, i, k);
            ok ==> Inv(p, t) && Extends(s, t) && t.visiting == s.visiting
                   && forall j: nat :: j < |p[i].requirements| ==> Target(p, i, j) in t.order
    decreases |Unmarked(p, s)|, 1 + |p[i].requirements| - k
  {
    hide Topological, Unmarked;
    if k < |p[i].requirements| && Target(p, i, k) < |p| {
      var (t, ok) := Resolve(p, s, Target(p, i, k));
      ResolveKeeps(p, s, Target(p, i, k));
      GrowsShrinks(p, s, t);
      if ok {
        forall j: nat | j < k + 1 ensures Target(p, i, j) in t.order {
          if j < k {
            assert Target(p, i, j) in t.order[..|s.order|];
          }
        }
        RequirementsKeep(p, t, i, k + 1);
      }
    }
  }

  // ----- Why the walk fails -----

  /** The modules being visited are those on the stack, each requiring the next. */
  predicate OnStack(p: Plan, s: Walk, stack: seq<nat>) {
    Sized(p, s) && IsPath(p, stack) && forall j: nat :: j < |p| && s.visiting[j] ==> j in stack
  }

  predicate Broken(p: Plan) {
    exists i: nat, k: nat :: i < |p| && k < |p[i].requirements| && Target(p, i, k) == |p|
  }

  lemma PushPath(p: Plan, stack: seq<nat>, i: nat)
    requires IsPath(p, stack) && i < |p| && (stack != [] ==> Requires(p, stack[|stack| - 1], i))
    ensures IsPath(p, stack + [i])
  {
    var longer := stack + [i];
    forall n: nat | n + 1 < |longer| ensures Step(p, longer, n) {
      if n + 1 < |stack| {
        assert Step(p, stack, n);
      }
    }
  }

  /** Meeting a module that is on the stack closes a cycle. */
  lemma CycleFound(p: Plan, stack: seq<nat>, i: nat)
    requires IsPath(p, stack) && i in stack && Requires(p, stack[|stack| - 1], i)
    ensures Cyclic(p)
  {
    var at: nat :| at < |stack| && stack[at] == i;
    PushPath(p, stack, i);
    var whole := stack + [i];
    var loop := whole[at..];
    forall n: nat | n + 1 < |loop| ensures Step(p, loop, n) {
      assert Step(p, whole, at + n);
    }
    assert IsCycle(p, loop);
  }

  /** When the walk fails, a requirement names no module, or requirements run in a circle. */
  lemma {:induction false} ResolveFails(p: Plan, s: Walk, i: nat, stack: seq<nat>)
    requires Inv(p, s) && OnStack(p, s, stack) && i < |p| && (stack != [] ==> Requires(p, stack[|stack| - 1], i))
    ensures !Resolve(p, s, i).1 ==> Broken(p) || Cyclic(p)
    decreases |Unmarked(p, s)|, 0
  {
    if s.resolved[i] {
    } else if s.visiting[i] {
      CycleFound(p, stack, i);
    } else {
      EnterShrinks(p, s, i);
      PushPath(p, stack, i);
      RequirementsFail(p, Enter(s, i), i, 0, stack + [i]);
    }
  }

  lemma {:induction false} RequirementsFail(p: Plan, s: Walk, i: nat, k: nat, stack: seq<nat>)
    requires Inv(p, s) && OnStack(p, s, stack) && i < |p| && stack != [] && stack[|stack| - 1] == i
    requires k <= |p[i].requirements|
    ensures !ResolveRequirements(p, s, i, k).1 ==> Broken(p) || Cyclic(p)
    decreases |Unmarked(p, s)|, 1 + |p[i].requirements| - k
  {
    if k < |p[i].requirements| && Target(p, i, k) < |p| {
      var j := Target(p, i, k);
      var (t, ok) := Resolve(p, s, j);
      assert Requires(p, i, j);
      ResolveFails(p, s, j, stack);
      ResolveKeeps(p, s, j);
      GrowsShrinks(p, s, t);
      if ok {
        RequirementsFail(p, t, i, k + 1, stack);
      }
    }
  }

  // ----- The whole plan -----

  predicate Idle(s: Walk) {
    forall j :: 0 <= j < |s.visiting| ==> !s.visiting[j]
  }

  lemma {:induction false} ResolveFromKeeps(p: Plan, s: Walk, i: nat)
    requires Inv(p, s) && Idle(s) && i <= |p| && forall j: nat :: j < i ==> s.resolved[j]
    ensures var (t, ok) := ResolveFrom(p, s, i);
            && (ok ==> Inv(p, t) && forall j: nat :: j < |p| ==> t.resolved[j])
            && (!ok ==> Broken(p) || Cyclic(p))
    decreases |p| - i
  {
    if i < |p| {
      var (t, ok) := Resolve(p, s, i);
      ResolveKeeps(p, s, i);
      ResolveFails(p, s, i, []);
      if ok {
        forall j: nat | j < i + 1 ensures t.resolved[j] {
          if j < i {
            assert j in s.order;
            assert j in t.order[..|s.order|];
          }
        }
        ResolveFromKeeps(p, t, i + 1);
      }
    }
  }

  /** Where a module stands in the order. */
  function Position(order: seq<nat>, i: nat): (n: nat)
    requires i in order
    ensures n < |order| && order[n] == i
    decreases |order|
  {
    if order[|order| - 1] == i then |order| - 1 else Position(order[..|order| - 1], i)
  }

  lemma RequiredEarlier(p: Plan, order: seq<nat>, i: nat, j: nat)
    requires Topological(p, order) && i in order && Requires(p, i, j)
    ensures j in order && Position(order, j) < Position(order, i)
  {
    var n := Position(order, i);
    assert Supplied(p, order, n);
    var k: nat :| k < |p[i].requirements| && Target(p, i, k) == j;
    assert j in order[..n];
    var m: nat :| m < n && order[m] == j;
    assert m == Position(order, j);
  }

  lemma {:induction false} PathGoesBack(p: Plan, order: seq<nat>, path: seq<nat>, n: nat)
    requires Topological(p, order) && IsPath(p, path) && 0 < n < |path| && path[0] in order
    ensures path[n] in order && Position(order, path[n]) < Position(order, path[0])
    decreases n
  {
    if n > 1 {
      PathGoesBack(p, order, path, n - 1);
    }
    assert Step(p, path, n - 1);
    RequiredEarlier(p, order, path[n - 1], path[n]);
  }

  /** A complete order leaves no room for a cycle or a missing module. */
  lemma FullOrderMeans(p: Plan, order: seq<nat>)
    requires Topological(p, order) && forall i: nat :: i < |p| ==> i in order
    ensures Complete(p) && !Cyclic(p)
  {
    forall i: nat, k: nat | i < |p| && k < |p[i].requirements| ensures Target(p, i, k) < |p| {
      assert Requires(p, i, Target(p, i, k));
      RequiredEarlier(p, order, i, Target(p, i, k));
      assert Supplied(p, order, Position(order, Target(p, i, k)));
    }
    if Cyclic(p) {
      var path: seq<nat> :| IsCycle(p, path);
      PathGoesBack(p, order, path, |path| - 1);
    }
  }

  lemma BrokenIsIncomplete(p: Plan)
    ensures Broken(p) <==> !Complete(p)
  {
    if !Complete(p) {
      var i: nat, k: nat :| i < |p| && k < |p[i].requirements| && Target(p, i, k) >= |p|;
      assert Target(p, i, k) == |p|;
    }
  }

  /** Resolving succeeds exactly when every requirement names a module and no requirements run in a
      circle; and then the order is a permutation of all the modules, each after everything it
      requires. */
  lemma ResolvePlanExact(p: Plan)
    ensures var (t, ok) := ResolvePlan(p);
            && (ok <==> Complete(p) && !Cyclic(p))
            && (ok ==> Topological(p, t.order) && |t.order| == |p|
                       && (forall i: nat :: i in t.order <==> i < |p|))
  {
    var s := Start(p);
    assert Inv(p, s) && Idle(s);
    ResolveFromKeeps(p, s, 0);
    BrokenIsIncomplete(p);
    var (t, ok) := ResolvePlan(p);
    if ok {
      FullOrderMeans(p, t.order);
      forall i: nat | i in t.order ensures i < |p| {
        assert Supplied(p, t.order, Position(t.order, i));
      }
      DistinctSize(t.order, |p|);
    }
  }

  /** The marks are not cleared between calls: resolving a resolved plan again succeeds with an empty
      order. */
  lemma {:induction false} ResolvedAgain(p: Plan, s: Walk, i: nat)
    requires Sized(p, s) && i <= |p| && forall j: nat :: j < |p| ==> s.resolved[j]
    ensures ResolveFrom(p, s.(order := []), i) == (s.(order := []), true)
    decreases |p| - i
  {
    if i < |p| {
      ResolvedAgain(p, s, i + 1);
    }
  }
}
