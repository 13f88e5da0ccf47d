/** Validation of the kernel module manifests: each requirement must name an earlier module, and then
    the table the kernel is built with is in the order its sweeps rely on. */
module ManifestValidation {
  import opened Collections
  import opened BuildPlan
  import Life = ModuleLifecycle

  // A manifest is a module of a plan: its identifier and its stripped requirement tokens.

  /** The reader only accepts manifests with an identifier. */
  predicate Named(p: Plan) {
    forall i :: 0 <= i < |p| ==> p[i].name != ""
  }

  const MOST_REQUIREMENTS: nat := 6

  predicate TokenOk(p: Plan, i: nat, k: nat)
    requires i < |p| && k < |p[i].requirements|
  {
    p[i].requirements[k] == "" || Target(p, i, k) < i
  }

  function Count(tokens: seq<string>): nat
    decreases |tokens|
  {
    if tokens == [] then 0
    else Count(tokens[..|tokens| - 1]) + if tokens[|tokens| - 1] == "" then 0 else 1
  }

  /** What the requirement list of one manifest must be. */
  predicate ListOk(p: Plan, i: nat)
    requires i < |p|
  {
    (forall k: nat {:trigger TokenOk(p, i, k)} :: k < |p[i].requirements| ==> TokenOk(p, i, k))
    && Count(p[i].requirements) <= MOST_REQUIREMENTS
  }

  // ----- The cycle visit -----

  datatype Mark = Unseen | Visiting | Done

  function Unseens(p: Plan, marks: seq<Mark>): set<nat>
    requires |marks| == |p|
  {
    set j: nat | j < |p| && marks[j] == Unseen
  }

  lemma MarkShrinks(p: Plan, marks: seq<Mark>, i: nat)
    requires |marks| == |p| && i < |p| && marks[i] == Unseen
    ensures |Unseens(p, marks[i := Visiting])| < |Unseens(p, marks)|
  {
    assert i in Unseens(p, marks) && i !in Unseens(p, marks[i := Visiting]);
    SubsetSize(Unseens(p, marks[i := Visiting]), Unseens(p, marks));
  }

  predicate Marked(p: Plan, a: seq<Mark>, b: seq<Mark>) {
    |a| == |p| && |b| == |p| && forall j :: 0 <= j < |p| && a[j] != Unseen ==> b[j] != Unseen
  }

  lemma MarkedSize(p: Plan, a: seq<Mark>, b: seq<Mark>)
    requires Marked(p, a, b)
    ensures |Unseens(p, b)| <= |Unseens(p, a)|
  {
    SubsetSize(Unseens(p, b), Unseens(p, a));
  }

  function Visit(p: Plan, marks: seq<Mark>, i: nat): (r: (seq<Mark>, bool))
    requires |marks| == |p| && i < |p|
    ensures Marked(p, marks, r.0)
    decreases |Unseens(p, marks)|, 0
  {
    if marks[i] == Done then (marks, true)
    else if marks[i] == Visiting then (marks, false)
    else
      MarkShrinks(p, marks, i);
      var (after, ok) := VisitRequirements(p, marks[i := Visiting], i, 0);
      if ok then (after[i := Done], true) else (after, false)
  }

  /** A requirement that names no module is passed over here. */
  function VisitRequirements(p: Plan, marks: seq<Mark>, i: nat, k: nat): (r: (seq<Mark>, bool))
    requires |marks| == |p| && i < |p| && k <= |p[i].requirements|
    ensures Marked(p, marks, r.0)
    decreases |Unseens(p, marks)|, 1 + |p[i].requirements| - k
  {
    if k == |p[i].requirements| then (marks, true)
    else if Target(p, i, k) == |p| then VisitRequirements(p, marks, i, k + 1)
    else
      var (after, ok) := Visit(p, marks, Target(p, i, k));
      MarkedSize(p, marks, after);
      if ok then VisitRequirements(p, after, i, k + 1) else (after, false)
  }

  function Validate(p: Plan, marks: seq<Mark>, i: nat): bool
    requires |marks| == |p| && i <= |p|
    decreases |p| - i
  {
    if i == |p| then true
    else if !ListOk(p, i) then false
    else
      var (after, ok) := Visit(p, marks, i);
      ok && Validate(p, after, i + 1)
  }

  /** The pairs the interrupt controllers need. */
  predicate RequiredEdge(p: Plan, id: string, needed: string) {
    var i := FindModule(p, id);
    i == |p| || needed in p[i].requirements
  }

  const PIC := "OrynKernelModulePic"
  const APIC := "OrynKernelModuleApic"
  const CPU := "OrynKernelModuleCpu"
  const INTERRUPTS := "OrynKernelModuleInterrupts"

  predicate RequiredEdges(p: Plan) {
    RequiredEdge(p, PIC, CPU) && RequiredEdge(p, PIC, INTERRUPTS)
    && RequiredEdge(p, APIC, CPU) && RequiredEdge(p, APIC, INTERRUPTS) && RequiredEdge(p, APIC, PIC)
  }

  function NoMarks(p: Plan): (m: seq<Mark>)
    ensures |m| == |p|
  {
    seq(|p|, _ => Unseen)
  }

  predicate Accepted(p: Plan) {
    Validate(p, NoMarks(p), 0) && RequiredEdges(p)
  }

  // ----- The visit cannot reject -----

  predicate DoneBelow(marks: seq<Mark>, i: nat) {
    i <= |marks| && (forall j :: 0 <= j < i ==> marks[j] == Done) && forall j :: i <= j < |marks| ==> marks[j] == Unseen
  }

  lemma EmptyNotFound(p: Plan)
    requires Named(p)
    ensures FindModule(p, "") == |p|
  {
  }

  lemma {:induction false} RequirementsVisited(p: Plan, marks: seq<Mark>, i: nat, k: nat)
    requires Named(p) && i < |p| && |marks| == |p| && k <= |p[i].requirements| && ListOk(p, i)
    requires forall j :: 0 <= j < i ==> marks[j] == Done
    ensures VisitRequirements(p, marks, i, k) == (marks, true)
    decreases |p[i].requirements| - k
  {
    if k < |p[i].requirements| {
      assert TokenOk(p, i, k);
      EmptyNotFound(p);
      RequirementsVisited(p, marks, i, k + 1);
    }
  }

  /** In a table whose lists are in order, the visit of a module only marks it. */
  lemma VisitOnlyMarks(p: Plan, marks: seq<Mark>, i: nat)
    requires Named(p) && i < |p| && |marks| == |p| && ListOk(p, i) && DoneBelow(marks, i)
    ensures Visit(p, marks, i) == (marks[i := Done], true)
  {
    RequirementsVisited(p, marks[i := Visiting], i, 0);
    assert marks[i := Visiting][i := Done] == marks[i := Done];
  }

  lemma {:induction false} ValidateExactFrom(p: Plan, marks: seq<Mark>, i: nat)
    requires Named(p) && |marks| == |p| && i <= |p| && DoneBelow(marks, i)
    ensures Validate(p, marks, i) <==> forall j: nat {:trigger ListOk(p, j)} :: i <= j < |p| ==> ListOk(p, j)
    decreases |p| - i
  {
    if i < |p| && ListOk(p, i) {
      VisitOnlyMarks(p, marks, i);
      ValidateExactFrom(p, marks[i := Done], i + 1);
    }
  }

  /** Validation accepts exactly the tables whose requirements all name earlier modules, at most six
      each, with the required pairs; the cycle visit never rejects anything. */
  lemma AcceptedExact(p: Plan)
    requires Named(p)
    ensures Accepted(p) <==> (forall i: nat {:trigger ListOk(p, i)} :: i < |p| ==> ListOk(p, i)) && RequiredEdges(p)
  {
    ValidateExactFrom(p, NoMarks(p), 0);
  }

  /** The tokens that are not empty. */
  function Given(tokens: seq<string>): set<nat> {
    set k: nat | k < |tokens| && tokens[k] != ""
  }

  lemma {:induction false} CountIs(tokens: seq<string>)
    ensures Count(tokens) == |Given(tokens)|
    decreases |tokens|
  {
    if tokens == [] {
      assert Given(tokens) == {};
    } else {
      var last := |tokens| - 1;
      CountIs(tokens[..last]);
      assert Given(tokens) == Given(tokens[..last]) + if tokens[last] == "" then {} else {last};
    }
  }

  /** Module j has the name that is token k of module i. */
  predicate NamedBy(p: Plan, i: nat, k: nat, j: nat)
    requires i < |p| && k < |p[i].requirements|
  {
    j < |p| && p[j].name == p[i].requirements[k]
  }

  /** The first module of a name, if there is one, lists another as required. */
  ghost predicate Lists(p: Plan, id: string, needed: string) {
    forall i: nat :: i < |p| && p[i].name == id && (forall j :: 0 <= j < i ==> p[j].name != id) ==> needed in p[i].requirements
  }

  lemma ListsIs(p: Plan, id: string, needed: string)
    ensures RequiredEdge(p, id, needed) <==> Lists(p, id, needed)
  {
  }

  /** Spelled out: each requirement that is not empty names a module before the one that has it, no module has
      more than six, and the two interrupt controllers list the processor and interrupt modules, the newer one
      the older besides. */
  lemma AcceptedMeans(p: Plan)
    requires Named(p)
    ensures Accepted(p) <==>
            && (forall i: nat, k: nat :: i < |p| && k < |p[i].requirements| && p[i].requirements[k] != "" ==>
                                           exists j: nat :: j < i && NamedBy(p, i, k, j))
            && (forall i: nat :: i < |p| ==> |Given(p[i].requirements)| <= 6)
            && Lists(p, "OrynKernelModulePic", "OrynKernelModuleCpu")
            && Lists(p, "OrynKernelModulePic", "OrynKernelModuleInterrupts")
            && Lists(p, "OrynKernelModuleApic", "OrynKernelModuleCpu")
            && Lists(p, "OrynKernelModuleApic", "OrynKernelModuleInterrupts")
            && Lists(p, "OrynKernelModuleApic", "OrynKernelModulePic")
  {
    AcceptedExact(p);
    ListsIs(p, PIC, CPU);
    ListsIs(p, PIC, INTERRUPTS);
    ListsIs(p, APIC, CPU);
    ListsIs(p, APIC, INTERRUPTS);
    ListsIs(p, APIC, PIC);
    forall i: nat | i < |p|
      ensures ListOk(p, i) <==>
              && (forall k: nat :: k < |p[i].requirements| && p[i].requirements[k] != "" ==> exists j: nat :: j < i && NamedBy(p, i, k, j))
              && |Given(p[i].requirements)| <= 6
    {
      ListOkMeans(p, i);
    }
  }

  lemma ListOkMeans(p: Plan, i: nat)
    requires i < |p|
    ensures ListOk(p, i) <==>
            && (forall k: nat :: k < |p[i].requirements| && p[i].requirements[k] != "" ==> exists j: nat :: j < i && NamedBy(p, i, k, j))
            && |Given(p[i].requirements)| <= 6
  {
    CountIs(p[i].requirements);
    forall k: nat | k < |p[i].requirements|
      ensures TokenOk(p, i, k) <==> p[i].requirements[k] == "" || exists j: nat :: j < i && NamedBy(p, i, k, j)
    {
      var first := Target(p, i, k);
      if first < i {
        assert NamedBy(p, i, k, first);
      }
    }
  }

  /** A table whose lists are all in order has no cycle. */
  lemma {:induction false} PathDescends(p: Plan, path: seq<nat>, n: nat)
    requires Named(p) && (forall i: nat {:trigger ListOk(p, i)} :: i < |p| ==> ListOk(p, i)) && IsPath(p, path) && 0 < n < |path|
    ensures path[n] < path[0]
    decreases n
  {
    if n > 1 {
      PathDescends(p, path, n - 1);
    }
    var i := path[n - 1];
    assert Step(p, path, n - 1);
    var k: nat :| k < |p[i].requirements| && Target(p, i, k) == path[n];
    assert ListOk(p, i);
    assert TokenOk(p, i, k);
    EmptyNotFound(p);
    assert path[n] < |p|;
  }

  lemma AcceptedAcyclic(p: Plan)
    requires Named(p) && Accepted(p)
    ensures !Cyclic(p)
  {
    AcceptedExact(p);
    if Cyclic(p) {
      var path: seq<nat> :| IsCycle(p, path);
      PathDescends(p, path, |path| - 1);
    }
  }

  // ----- The table the kernel is built with -----

  /** The indices of the requirements that are not empty. */
  function Indices(p: Plan, i: nat, k: nat): (r: seq<nat>)
    requires i < |p| && k <= |p[i].requirements|
    decreases k
  {
    if k == 0 then []
    else Indices(p, i, k - 1) + if p[i].requirements[k - 1] == "" then [] else [Target(p, i, k - 1)]
  }

  function KernelItems(p: Plan, compiled: seq<bool>): (items: seq<Life.Item>)
    requires |compiled| == |p|
    ensures |items| == |p|
  {
    seq(|p|, i requires 0 <= i < |p| => Life.Item(Indices(p, i, |p[i].requirements|), compiled[i]))
  }

  lemma {:induction false} IndicesEarlier(p: Plan, i: nat, k: nat)
    requires i < |p| && k <= |p[i].requirements| && ListOk(p, i)
    ensures forall j :: 0 <= j < |Indices(p, i, k)| ==> Indices(p, i, k)[j] < i
    decreases k
  {
    if k > 0 {
      IndicesEarlier(p, i, k - 1);
      assert TokenOk(p, i, k - 1);
    }
  }

  /** Validation is what the kernel's sweeps rest on: an accepted table has every module after all it
      requires. */
  lemma AcceptedIsTopological(p: Plan, compiled: seq<bool>)
    requires Named(p) && Accepted(p) && |compiled| == |p|
    ensures Life.Topological(KernelItems(p, compiled))
  {
    AcceptedExact(p);
    forall i: nat, k: nat | i < |p| && k < |KernelItems(p, compiled)[i].requirements|
      ensures KernelItems(p, compiled)[i].requirements[k] <= i
    {
      assert ListOk(p, i);
      IndicesEarlier(p, i, |p[i].requirements|);
    }
  }

  /** From validated manifests, through any orderly start-up, to any step of any sweep: every ready
      module has all it requires ready. */
  lemma EveryLifeClosed(p: Plan, compiled: seq<bool>, ops: seq<Life.Op>, w: Life.Sweep, answers: seq<bool>, from: nat)
    requires Named(p) && Accepted(p) && |compiled| == |p| && |answers| == |p| && from <= |p|
    requires Life.RunOrderly(Life.Init(KernelItems(p, compiled)), {}, ops)
    ensures Life.Closed(Life.SweepTo(Life.Run(Life.Init(KernelItems(p, compiled)), ops), w, answers, from))
  {
    AcceptedIsTopological(p, compiled);
    Life.EveryStartClosed(KernelItems(p, compiled), ops);
    Life.SweepClosed(Life.Run(Life.Init(KernelItems(p, compiled)), ops), w, answers, from);
  }

  // ----- As it runs -----

  class Validator {
    const Modules: Plan
    const States: array<Mark>

    constructor (modules: Plan)
      ensures Modules == modules && fresh(States) && States.Length == |modules| && States[..] == NoMarks(modules)
    {
      Modules := modules;
      States := new Mark[|modules|](_ => Unseen);
    }

    method ValidateRequirementList(i: nat) returns (ok: bool)
      requires i < |Modules|
      ensures ok == ListOk(Modules, i)
    {
      var tokens := Modules[i].requirements;
      var count := 0;
      var k := 0;
      while k < |tokens|
        invariant k <= |tokens| && count == Count(tokens[..k])
        invariant forall j: nat {:trigger TokenOk(Modules, i, j)} :: j < k ==> TokenOk(Modules, i, j)
      {
        assert tokens[..k + 1][..k] == tokens[..k];
        if tokens[k] != "" {
          count := count + 1;
          var index := FindModule(Modules, tokens[k]);
          if index == |Modules| || index == i || index > i {
            assert !TokenOk(Modules, i, k);
            return false;
          }
        }
        k := k + 1;
      }
      assert tokens[..k] == tokens;
      return count <= MOST_REQUIREMENTS;
    }

    method CycleVisit(i: nat) returns (ok: bool)
      requires i < |Modules| == States.Length
      modifies States
      ensures (States[..], ok) == Visit(Modules, old(States[..]), i)
      decreases |Unseens(Modules, States[..])|
    {
      ghost var marks := States[..];
      if States[i] == Done {
        return true;
      }
      if States[i] == Visiting {
        return false;
      }
      MarkShrinks(Modules, marks, i);
      States[i] := Visiting;
      assert States[..] == marks[i := Visiting];
      var k := 0;
      while k < |Modules[i].requirements|
        invariant k <= |Modules[i].requirements|
        invariant Marked(Modules, marks[i := Visiting], States[..])
        invariant VisitRequirements(Modules, States[..], i, k) == VisitRequirements(Modules, marks[i := Visiting], i, 0)
      {
        var index := FindModule(Modules, Modules[i].requirements[k]);
        if index < |Modules| {
          MarkedSize(Modules, marks[i := Visiting], States[..]);
          ok := CycleVisit(index);
          if !ok {
            return;
          }
        }
        k := k + 1;
      }
      States[i] := Done;
      return true;
    }

    method ValidateModules() returns (ok: bool)
      requires States.Length == |Modules| && States[..] == NoMarks(Modules)
      modifies States
      ensures ok == Accepted(Modules)
    {
      var i := 0;
      while i < |Modules|
        invariant i <= |Modules|
        invariant Validate(Modules, States[..], i) == Validate(Modules, NoMarks(Modules), 0)
      {
        var listed := ValidateRequirementList(i);
        if !listed {
          return false;
        }
        var visited := CycleVisit(i);
        if !visited {
          return false;
        }
        i := i + 1;
      }
      return RequiredEdges(Modules);
    }
  }
}
