/** The resolver as it works: marks and the resolved order are arrays, changed as the recursion goes. */
module PlanResolver {
  import opened Collections
  import opened BuildPlan

  class ArchivePlan {
    const Modules: Plan
    const Visiting: array<bool>
    const Resolved: array<bool>
    const ResolvedOrder: array<nat>
    var ResolvedCount: nat

    predicate Valid()
      reads this
    {
      && Visiting.Length == |Modules| && Resolved.Length == |Modules| && ResolvedOrder.Length == |Modules|
      && Visiting != Resolved && ResolvedCount <= ResolvedOrder.Length
    }

    function State(): (s: Walk)
      requires Valid()
      reads this, Visiting, Resolved, ResolvedOrder
      ensures Sized(Modules, s)
    {
      Walk(Visiting[..], Resolved[..], ResolvedOrder[..ResolvedCount])
    }

    constructor (modules: Plan)
      ensures Valid() && Modules == modules && fresh(Visiting) && fresh(Resolved) && fresh(ResolvedOrder)
      ensures State() == Start(modules)
    {
      Modules := modules;
      Visiting := new bool[|modules|](_ => false);
      Resolved := new bool[|modules|](_ => false);
      ResolvedOrder := new nat[|modules|](_ => 0);
      ResolvedCount := 0;
      new;
      assert State().order == [];
    }

    method FindModuleIndex(name: string) returns (index: int)
      ensures index == if FindModule(Modules, name) < |Modules| then FindModule(Modules, name) else -1
    {
      var i := 0;
      while i < |Modules|
        invariant i <= |Modules|
        invariant forall j :: 0 <= j < i ==> Modules[j].name != name
      {
        if Modules[i].name == name {
          return i;
        }
        i := i + 1;
      }
      return -1;
    }

    /** The order has room for one more module while one is still open. */
    lemma RoomForOne(i: nat)
      requires Valid() && Inv(Modules, State()) && i < |Modules| && i !in State().order
      ensures ResolvedCount < ResolvedOrder.Length
    {
      var order := State().order;
      forall j: nat | j in order + [i] ensures j < |Modules| {
        if j in order {
          assert Supplied(Modules, order, Position(order, j));
        }
      }
      DistinctBound(order + [i], |Modules|);
    }

    method ResolveModuleIndex(i: nat) returns (ok: bool)
      requires Valid() && i < |Modules| && Inv(Modules, State())
      modifies this, Visiting, Resolved, ResolvedOrder
      ensures Valid() && (State(), ok) == Resolve(Modules, old(State()), i)
      decreases |Unmarked(Modules, State())|, 0
    {
      hide Inv, Sized;
      ghost var s := State();
      ResolveKeeps(Modules, s, i);
      if Resolved[i] {
        return true;
      }
      if Visiting[i] {
        return false;
      }
      EnterInv(Modules, s, i);
      EnterShrinks(Modules, s, i);
      Visiting[i] := true;
      assert State() == Enter(s, i);
      ok := ResolveRequired(i);
      if !ok {
        return;
      }
      RequirementsKeep(Modules, Enter(s, i), i, 0);
      ghost var t := State();
      StillOpen(Modules, t, i);
      RoomForOne(i);
      Visiting[i] := false;
      Resolved[i] := true;
      ResolvedOrder[ResolvedCount] := i;
      ResolvedCount := ResolvedCount + 1;
      assert ResolvedOrder[..ResolvedCount] == t.order + [i];
      assert State() == Leave(t, i);
    }

    static lemma EnterInv(p: Plan, s: Walk, i: nat)
      requires Inv(p, s) && i < |p| && !s.resolved[i]
      ensures Inv(p, Enter(s, i))
    {
    }

    static lemma StillOpen(p: Plan, t: Walk, i: nat)
      requires Inv(p, t) && i < |p| && t.visiting[i]
      ensures i !in t.order
    {
    }

    /** The loop over one module's requirements. */
    method ResolveRequired(i: nat) returns (ok: bool)
      requires Valid() && i < |Modules| && Inv(Modules, State())
      modifies this, Visiting, Resolved, ResolvedOrder
      ensures Valid() && (State(), ok) == ResolveRequirements(Modules, old(State()), i, 0)
      decreases |Unmarked(Modules, State())|, 1
    {
      hide Inv, Sized, Unmarked;
      ghost var s := State();
      var k := 0;
      while k < |Modules[i].requirements|
        invariant k <= |Modules[i].requirements| && Valid() && Inv(Modules, State()) && Grows(Modules, s, State())
        invariant ResolveRequirements(Modules, State(), i, k) == ResolveRequirements(Modules, s, i, 0)
      {
        var index := FindModuleIndex(Modules[i].requirements[k]);
        if index < 0 {
          return false;
        }
        ghost var t := State();
        GrowsShrinks(Modules, s, t);
        ResolveKeeps(Modules, t, index);
        ok := ResolveModuleIndex(index);
        if !ok {
          return;
        }
        GrowsTwice(Modules, s, t, State());
        k := k + 1;
      }
      return true;
    }

    static lemma GrowsTwice(p: Plan, s: Walk, t: Walk, u: Walk)
      requires Grows(p, s, t) && Grows(p, t, u)
      ensures Grows(p, s, u)
    {
    }

    /** The whole plan: it succeeds exactly when it can, and then the order is complete and every
        module comes after all it requires. */
    method ResolveKernelArchivePlan() returns (ok: bool)
      requires Valid() && State().(order := []) == Start(Modules)
      modifies this, Visiting, Resolved, ResolvedOrder
      ensures Valid() && ok == ResolvePlan(Modules).1
      ensures ok <==> Complete(Modules) && !Cyclic(Modules)
      ensures ok ==> ResolvedCount == |Modules| && Topological(Modules, ResolvedOrder[..])
                     && forall i: nat :: i in ResolvedOrder[..] <==> i < |Modules|
    {
      hide Inv, Cyclic, Complete, Topological, Grows;
      ResolvedCount := 0;
      assert State() == Start(Modules);
      StartInv(Modules);
      var i := 0;
      while i < |Modules|
        invariant i <= |Modules| && Valid() && Inv(Modules, State())
        invariant ResolveFrom(Modules, State(), i) == ResolvePlan(Modules)
      {
        ghost var s := State();
        ResolveKeeps(Modules, s, i);
        ok := ResolveModuleIndex(i);
        if !ok {
          ResolvePlanExact(Modules);
          return;
        }
        i := i + 1;
      }
      ResolvePlanExact(Modules);
      assert ResolvedOrder[..] == ResolvedOrder[..ResolvedCount];
      return true;
    }

    static lemma StartInv(p: Plan)
      ensures Inv(p, Start(p))
    {
    }
  }
}
