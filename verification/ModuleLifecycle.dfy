/** The kernel's module table: which module may start, and how start-up and the stop, panic and
    shutdown sweeps move the states. */
module ModuleLifecycle {

  datatype State =
    | Absent
    | Registered
    | Selected
    | Starting
    | Ready
    | Stopping
    | Stopped
    | Panicked
    | ShuttingDown
    | ShutDown
    | Skipped
    | Failed

  datatype Item = Item(requirements: seq<nat>, compiledIn: bool)

  /** The manifest rows never change; the states do. */
  datatype Table = Table(items: seq<Item>, states: seq<State>)

  predicate Formed(t: Table) {
    |t.items| == |t.states|
  }

  predicate IsReady(t: Table, id: nat) {
    id < |t.states| && t.states[id] == Ready
  }

  predicate AllReady(t: Table, ids: seq<nat>) {
    forall k :: 0 <= k < |ids| ==> IsReady(t, ids[k])
  }

  predicate CanStart(t: Table, id: nat)
    requires Formed(t)
  {
    id < |t.items| && t.items[id].compiledIn && AllReady(t, t.items[id].requirements)
  }

  function SetState(t: Table, id: nat, s: State): Table
    requires id < |t.states|
  {
    t.(states := t.states[id := s])
  }

  function Begin(t: Table, id: nat): (Table, bool)
    requires Formed(t)
  {
    if id >= |t.items| || !t.items[id].compiledIn then (t, false)
    else if !CanStart(t, id) then (SetState(t, id, Failed), false)
    else (SetState(t, id, Starting), true)
  }

  function Select(t: Table, id: nat): Table {
    if id < |t.states| && t.states[id] == Registered then SetState(t, id, Selected) else t
  }

  /** Ready, skipped and failed are set without a question asked. */
  function Mark(t: Table, id: nat, s: State): Table {
    if id < |t.states| then SetState(t, id, s) else t
  }

  /** A beginning succeeds exactly for a module that is compiled in and has all it requires ready; it is then
      starting. One that is compiled in but cannot start has failed. No other module is touched. */
  lemma BeginExact(t: Table, id: nat)
    requires Formed(t)
    ensures var (u, ok) := Begin(t, id);
            var compiled := id < |t.items| && t.items[id].compiledIn;
            var free := compiled && forall k :: 0 <= k < |t.items[id].requirements| ==>
                                                 var r := t.items[id].requirements[k]; r < |t.states| && t.states[r] == Ready;
            && (ok <==> free)
            && u.items == t.items && |u.states| == |t.states|
            && (compiled ==> u.states[id] == if free then Starting else Failed)
            && (forall j :: 0 <= j < |t.states| && !(j == id && compiled) ==> u.states[j] == t.states[j])
  {
  }

  /** Selecting moves a registered module on, and nothing else. */
  lemma SelectExact(t: Table, id: nat)
    requires Formed(t)
    ensures var u := Select(t, id);
            && u.items == t.items && |u.states| == |t.states|
            && (id < |t.states| && t.states[id] == Registered ==> u.states[id] == Selected)
            && (forall j :: 0 <= j < |t.states| && !(j == id && t.states[id] == Registered) ==> u.states[j] == t.states[j])
  {
  }

  // ----- The invariant -----

  predicate Backed(t: Table, id: nat)
    requires Formed(t) && id < |t.items|
  {
    t.states[id] == Ready ==> AllReady(t, t.items[id].requirements)
  }

  /** Every ready module has all the modules it requires ready. */
  predicate Closed(t: Table) {
    Formed(t) && forall id: nat {:trigger Backed(t, id)} :: id < |t.items| ==> Backed(t, id)
  }

  predicate NeededBy(t: Table, id: nat, other: nat)
    requires Formed(t) && other < |t.items|
  {
    t.states[other] == Ready && id in t.items[other].requirements
  }

  /** A module made ready keeps the table closed exactly when all it requires are ready by then. */
  lemma MadeReadyExact(t: Table, id: nat)
    requires Closed(t) && id < |t.items|
    ensures Closed(SetState(t, id, Ready)) <==> AllReady(SetState(t, id, Ready), t.items[id].requirements)
  {
    var u := SetState(t, id, Ready);
    if AllReady(u, t.items[id].requirements) {
      forall i: nat | i < |u.items| ensures Backed(u, i) {
        assert Backed(t, i);
      }
    } else {
      assert !Backed(u, id);
    }
  }

  /** A module taken out of ready keeps the table closed exactly when no other ready module requires
      it. */
  lemma TakenDownExact(t: Table, id: nat, s: State)
    requires Closed(t) && id < |t.items| && s != Ready
    ensures Closed(SetState(t, id, s))
       <==> t.states[id] != Ready || forall other: nat :: other < |t.items| && other != id ==> !NeededBy(t, id, other)
  {
    var u := SetState(t, id, s);
    if t.states[id] != Ready || forall other: nat :: other < |t.items| && other != id ==> !NeededBy(t, id, other) {
      forall i: nat | i < |u.items| ensures Backed(u, i) {
        assert Backed(t, i);
        if i != id && t.states[i] == Ready && t.states[id] == Ready {
          assert !NeededBy(t, id, i);
        }
      }
    } else {
      var other: nat :| other < |t.items| && other != id && NeededBy(t, id, other);
      var k: nat :| k < |t.items[other].requirements| && t.items[other].requirements[k] == id;
      assert !IsReady(u, u.items[other].requirements[k]);
      assert !Backed(u, other);
    }
  }

  // ----- Start-up -----

  datatype Op = Selecting(id: nat) | Beginning(id: nat) | Readying(id: nat) | Skipping(id: nat) | Failing(id: nat)

  /** How start-up is meant to go: one beginning a module, ready only after a beginning that
      succeeded, and no ready module skipped or failed. */
  predicate Orderly(t: Table, begun: set<nat>, op: Op) {
    match op
    case Selecting(id) => true
    case Beginning(id) => id !in begun
    case Readying(id) => id < |t.states| && t.states[id] == Starting
    case Skipping(id) => !IsReady(t, id)
    case Failing(id) => !IsReady(t, id)
  }

  function Apply(t: Table, op: Op): (u: Table)
    requires Formed(t)
    ensures Formed(u) && u.items == t.items
  {
    match op
    case Selecting(id) => Select(t, id)
    case Beginning(id) => Begin(t, id).0
    case Readying(id) => Mark(t, id, Ready)
    case Skipping(id) => Mark(t, id, Skipped)
    case Failing(id) => Mark(t, id, Failed)
  }

  function Begun(begun: set<nat>, op: Op): set<nat> {
    if op.Beginning? then begun + {op.id} else begun
  }

  /** A module that is starting or ready was begun, is compiled in, and has all it requires ready. */
  predicate Grounded(t: Table, begun: set<nat>, id: nat)
    requires Formed(t) && id < |t.items|
  {
    t.states[id] in {Starting, Ready} ==> id in begun && t.items[id].compiledIn && AllReady(t, t.items[id].requirements)
  }

  predicate Started(t: Table, begun: set<nat>) {
    Formed(t) && forall id: nat {:trigger Grounded(t, begun, id)} :: id < |t.items| ==> Grounded(t, begun, id)
  }

  lemma ApplyKeeps(t: Table, begun: set<nat>, op: Op)
    requires Started(t, begun) && Orderly(t, begun, op)
    ensures Started(Apply(t, op), Begun(begun, op))
  {
    var u := Apply(t, op);
    if op.id < |t.items| {
      assert Grounded(t, begun, op.id);
    }
    assert forall i: nat :: IsReady(t, i) ==> IsReady(u, i);
    forall id: nat | id < |u.items| ensures Grounded(u, Begun(begun, op), id) {
      assert Grounded(t, begun, id);
    }
  }

  predicate RunOrderly(t: Table, begun: set<nat>, ops: seq<Op>)
    requires Formed(t)
    decreases |ops|
  {
    ops == [] || (Orderly(t, begun, ops[0]) && RunOrderly(Apply(t, ops[0]), Begun(begun, ops[0]), ops[1..]))
  }

  function Run(t: Table, ops: seq<Op>): (u: Table)
    requires Formed(t)
    ensures Formed(u) && u.items == t.items
    decreases |ops|
  {
    if ops == [] then t else Run(Apply(t, ops[0]), ops[1..])
  }

  function BegunBy(begun: set<nat>, ops: seq<Op>): set<nat>
    decreases |ops|
  {
    if ops == [] then begun else BegunBy(Begun(begun, ops[0]), ops[1..])
  }

  lemma {:induction false} RunStarted(t: Table, begun: set<nat>, ops: seq<Op>)
    requires Started(t, begun) && RunOrderly(t, begun, ops)
    ensures Started(Run(t, ops), BegunBy(begun, ops))
    decreases |ops|
  {
    if ops != [] {
      ApplyKeeps(t, begun, ops[0]);
      RunStarted(Apply(t, ops[0]), Begun(begun, ops[0]), ops[1..]);
    }
  }

  /** The table as initialised: registered if compiled in, else absent. */
  function Init(items: seq<Item>): (t: Table)
    ensures Formed(t) && t.items == items
  {
    Table(items, seq(|items|, i requires 0 <= i < |items| => if items[i].compiledIn then Registered else Absent))
  }

  predicate CompiledReady(t: Table) {
    Formed(t) && forall id: nat :: id < |t.items| && IsReady(t, id) ==> t.items[id].compiledIn
  }

  /** Through any orderly start-up every ready module has all it requires ready. */
  lemma EveryStartClosed(items: seq<Item>, ops: seq<Op>)
    requires RunOrderly(Init(items), {}, ops)
    ensures Closed(Run(Init(items), ops)) && CompiledReady(Run(Init(items), ops))
  {
    var t := Init(items);
    assert Started(t, {});
    RunStarted(t, {}, ops);
    var u := Run(t, ops);
    var begun := BegunBy({}, ops);
    forall id: nat | id < |u.items| ensures Backed(u, id) && (IsReady(u, id) ==> u.items[id].compiledIn) {
      assert Grounded(u, begun, id);
    }
  }

  // ----- The sweeps -----

  datatype Sweep = StopSweep | PanicSweep | ShutdownSweep

  predicate ShouldRun(w: Sweep, compiledIn: bool, s: State) {
    compiledIn &&
    match w
    case StopSweep => s !in {Absent, Skipped, Stopping, Stopped, ShuttingDown, ShutDown}
    case PanicSweep => s !in {Absent, Skipped, Panicked, ShutDown}
    case ShutdownSweep => s !in {Absent, Skipped, ShuttingDown, ShutDown}
  }

  /** The state while the callback runs. */
  function During(w: Sweep): (s: State)
    ensures s != Ready
  {
    match w
    case StopSweep => Stopping
    case PanicSweep => Panicked
    case ShutdownSweep => ShuttingDown
  }

  function After(w: Sweep): (s: State)
    ensures s != Ready
  {
    match w
    case StopSweep => Stopped
    case PanicSweep => Panicked
    case ShutdownSweep => ShutDown
  }

  /** One module's callback, with what it answered (a missing callback counts as no). */
  function Invoke(t: Table, w: Sweep, id: nat, answer: bool): (Table, bool)
    requires Formed(t)
  {
    if id >= |t.items| || !ShouldRun(w, t.items[id].compiledIn, t.states[id]) then (t, false)
    else if !answer then (SetState(t, id, Failed), false)
    else (SetState(t, id, After(w)), true)
  }

  /** The table after the modules from the last down to number `from` were asked. */
  function SweepTo(t: Table, w: Sweep, answers: seq<bool>, from: nat): (u: Table)
    requires Formed(t) && |answers| == |t.items| && from <= |t.items|
    ensures Formed(u) && u.items == t.items
    decreases |t.items| - from
  {
    if from == |t.items| then t else Invoke(SweepTo(t, w, answers, from + 1), w, from, answers[from]).0
  }

  /** How many of those callbacks ran and answered yes. */
  function SweepCount(t: Table, w: Sweep, answers: seq<bool>, from: nat): nat
    requires Formed(t) && |answers| == |t.items| && from <= |t.items|
    decreases |t.items| - from
  {
    if from == |t.items| then 0
    else SweepCount(t, w, answers, from + 1)
         + if Invoke(SweepTo(t, w, answers, from + 1), w, from, answers[from]).1 then 1 else 0
  }

  /** The modules a sweep calls: those compiled in that are not absent, skipped, or already past it. */
  predicate Called(w: Sweep, compiledIn: bool, s: State) {
    compiledIn && s != Absent && s != Skipped && s != ShutDown
    && (w == StopSweep ==> s != Stopping && s != Stopped && s != ShuttingDown)
    && (w == PanicSweep ==> s != Panicked)
    && (w == ShutdownSweep ==> s != ShuttingDown)
  }

  /** What a module is after its sweep. */
  function Outcome(w: Sweep, answer: bool): State {
    if !answer then Failed else if w == StopSweep then Stopped else if w == PanicSweep then Panicked else ShutDown
  }

  function Answered(t: Table, w: Sweep, answers: seq<bool>, from: nat): set<nat>
    requires Formed(t) && |answers| == |t.items|
  {
    set id: nat | from <= id < |t.items| && Called(w, t.items[id].compiledIn, t.states[id]) && answers[id]
  }

  /** The state of one module after a sweep down to `from`. */
  function SweptState(t: Table, w: Sweep, answers: seq<bool>, from: nat, id: nat): State
    requires Formed(t) && |answers| == |t.items| && id < |t.items|
  {
    if from <= id && Called(w, t.items[id].compiledIn, t.states[id]) then Outcome(w, answers[id]) else t.states[id]
  }

  /** Where a sweep leaves every module: each one it calls ends as its answer says, every other stays as it
      was. */
  lemma {:induction false} SweepExact(t: Table, w: Sweep, answers: seq<bool>, from: nat)
    requires Formed(t) && |answers| == |t.items| && from <= |t.items|
    ensures forall id: nat :: id < |t.items| ==>
                                SweepTo(t, w, answers, from).states[id] == SweptState(t, w, answers, from, id)
    decreases |t.items| - from
  {
    hide Called, Outcome, Invoke;
    if from < |t.items| {
      SweepExact(t, w, answers, from + 1);
      InvokeExact(SweepTo(t, w, answers, from + 1), w, from, answers[from]);
    }
  }

  /** The count is the number of modules that were called and answered yes. */
  lemma {:induction false} SweepCounts(t: Table, w: Sweep, answers: seq<bool>, from: nat)
    requires Formed(t) && |answers| == |t.items| && from <= |t.items|
    ensures SweepCount(t, w, answers, from) == |Answered(t, w, answers, from)|
    decreases |t.items| - from
  {
    hide Called, Outcome, Invoke, SweepTo, Answered;
    if from < |t.items| {
      SweepCounts(t, w, answers, from + 1);
      SweepExact(t, w, answers, from + 1);
      InvokeExact(SweepTo(t, w, answers, from + 1), w, from, answers[from]);
      assert SweepTo(t, w, answers, from + 1).states[from] == t.states[from];
      AnsweredStep(t, w, answers, from);
    } else {
      NobodyLeft(t, w, answers);
    }
  }

  lemma NobodyLeft(t: Table, w: Sweep, answers: seq<bool>)
    requires Formed(t) && |answers| == |t.items|
    ensures Answered(t, w, answers, |t.items|) == {}
  {
  }

  lemma AnsweredStep(t: Table, w: Sweep, answers: seq<bool>, from: nat)
    requires Formed(t) && |answers| == |t.items| && from < |t.items|
    ensures |Answered(t, w, answers, from)| == |Answered(t, w, answers, from + 1)|
            + if Called(w, t.items[from].compiledIn, t.states[from]) && answers[from] then 1 else 0
  {
    hide Called;
    var more := if Called(w, t.items[from].compiledIn, t.states[from]) && answers[from] then {from} else {};
    assert Answered(t, w, answers, from) == Answered(t, w, answers, from + 1) + more;
  }

  lemma InvokeExact(t: Table, w: Sweep, id: nat, answer: bool)
    requires Formed(t) && id < |t.items|
    ensures var (u, ok) := Invoke(t, w, id, answer); var called := Called(w, t.items[id].compiledIn, t.states[id]);
            && (ok <==> called && answer)
            && u.items == t.items && u.states == if called then t.states[id := Outcome(w, answer)] else t.states
  {
  }

  /** No module requires one that comes after it. */
  predicate Topological(items: seq<Item>) {
    forall i: nat, k: nat :: i < |items| && k < |items[i].requirements| ==> items[i].requirements[k] <= i
  }

  /** No module from a number on is ready any more. */
  predicate SweptFrom(t: Table, from: nat) {
    forall id: nat :: from <= id < |t.states| ==> t.states[id] != Ready
  }

  lemma InvokeTakesDown(t: Table, w: Sweep, id: nat, answer: bool)
    requires CompiledReady(t) && id < |t.items|
    ensures Invoke(t, w, id, answer).0.states[id] != Ready && CompiledReady(Invoke(t, w, id, answer).0)
  {
    assert IsReady(t, id) ==> t.items[id].compiledIn;
    var u := Invoke(t, w, id, answer).0;
    forall i: nat | IsReady(u, i) ensures u.items[i].compiledIn {
      assert IsReady(t, i);
    }
  }

  lemma {:induction false} SweepTakesDown(t: Table, w: Sweep, answers: seq<bool>, from: nat)
    requires CompiledReady(t) && |answers| == |t.items| && from <= |t.items|
    ensures var u := SweepTo(t, w, answers, from);
            SweptFrom(u, from) && CompiledReady(u) && forall id: nat :: id < from ==> u.states[id] == t.states[id]
    decreases |t.items| - from
  {
    if from < |t.items| {
      SweepTakesDown(t, w, answers, from + 1);
      InvokeTakesDown(SweepTo(t, w, answers, from + 1), w, from, answers[from]);
    }
  }

  lemma InvokeOutcomes(t: Table, w: Sweep, id: nat, answer: bool)
    requires Formed(t) && id < |t.items|
    ensures Invoke(t, w, id, answer).0 in {t, SetState(t, id, Failed), SetState(t, id, After(w))}
  {
  }

  lemma DownClosed(t: Table, id: nat, s: State)
    requires Closed(t) && Topological(t.items) && id < |t.items| && SweptFrom(t, id + 1) && s != Ready
    ensures Closed(SetState(t, id, s))
  {
    forall other: nat | other < |t.items| && other != id ensures !NeededBy(t, id, other) {
      if id in t.items[other].requirements {
        var k: nat :| k < |t.items[other].requirements| && t.items[other].requirements[k] == id;
      }
    }
    TakenDownExact(t, id, s);
  }

  /** At every step of a sweep from the last module to the first, while a callback runs and after it,
      every ready module still has all it requires ready. */
  lemma {:induction false} SweepClosed(t: Table, w: Sweep, answers: seq<bool>, from: nat)
    requires Formed(t) && Closed(t) && CompiledReady(t) && Topological(t.items) && |answers| == |t.items| && from <= |t.items|
    ensures Closed(SweepTo(t, w, answers, from))
    ensures from > 0 ==> Closed(SetState(SweepTo(t, w, answers, from), from - 1, During(w)))
    decreases |t.items| - from
  {
    hide Closed, Topological, CompiledReady, SweptFrom, Invoke;
    var u := SweepTo(t, w, answers, from);
    SweepTakesDown(t, w, answers, from);
    if from < |t.items| {
      InvokeOutcomes(SweepTo(t, w, answers, from + 1), w, from, answers[from]);
      SweepClosed(t, w, answers, from + 1);
      SweepTakesDown(t, w, answers, from + 1);
      var v := SweepTo(t, w, answers, from + 1);
      DownClosed(v, from, Failed);
      DownClosed(v, from, After(w));
    }
    if from > 0 {
      DownClosed(u, from - 1, During(w));
    }
  }

  function AllAreReady(items: seq<Item>): (t: Table)
    ensures Formed(t) && t.items == items
  {
    Table(items, seq(|items|, _ => Ready))
  }

  lemma {:induction false} SweepLeavesFront(t: Table, w: Sweep, answers: seq<bool>, from: nat, id: nat)
    requires Formed(t) && |answers| == |t.items| && id < from <= |t.items|
    ensures SweepTo(t, w, answers, from).states[id] == t.states[id]
    decreases |t.items| - from
  {
    if from < |t.items| {
      SweepLeavesFront(t, w, answers, from + 1, id);
    }
  }

  /** The order is needed: with every module compiled in and ready, a sweep stays closed at every step
      exactly when no module requires a later one. */
  lemma SweepNeedsOrder(items: seq<Item>, w: Sweep, answers: seq<bool>)
    requires |answers| == |items| && forall i :: 0 <= i < |items| ==> items[i].compiledIn
    requires Closed(AllAreReady(items))
    ensures (forall from: nat :: from <= |items| ==> Closed(SweepTo(AllAreReady(items), w, answers, from)))
       <==> Topological(items)
  {
    var t := AllAreReady(items);
    if Topological(items) {
      forall from: nat | from <= |items| ensures Closed(SweepTo(t, w, answers, from)) {
        SweepClosed(t, w, answers, from);
      }
    } else {
      var i: nat, k: nat :| i < |items| && k < |items[i].requirements| && items[i].requirements[k] > i;
      var j := items[i].requirements[k];
      assert Backed(t, i);
      assert IsReady(t, j);
      SweepTakesDown(t, w, answers, j);
      SweepLeavesFront(t, w, answers, j, i);
      var u := SweepTo(t, w, answers, j);
      assert !IsReady(u, u.items[i].requirements[k]);
      assert !Backed(u, i);
      assert !Closed(SweepTo(t, w, answers, j));
    }
  }

  // ----- The table in memory -----

  class Manifest {
    const Items: seq<Item>
    const States: array<State>

    predicate Valid() {
      States.Length == |Items|
    }

    function View(): (t: Table)
      requires Valid()
      reads States
      ensures Formed(t)
    {
      Table(Items, States[..])
    }

    constructor (items: seq<Item>)
      ensures Valid() && Items == items && fresh(States) && View() == Init(items)
    {
      Items := items;
      States := new State[|items|](i requires 0 <= i < |items| => if items[i].compiledIn then Registered else Absent);
    }

    method CanStartModule(id: nat) returns (ok: bool)
      requires Valid()
      ensures ok == CanStart(View(), id)
    {
      if id >= |Items| || !Items[id].compiledIn {
        return false;
      }
      var k := 0;
      while k < |Items[id].requirements|
        invariant k <= |Items[id].requirements|
        invariant forall j :: 0 <= j < k ==> IsReady(View(), Items[id].requirements[j])
      {
        var other := Items[id].requirements[k];
        if other >= |Items| || States[other] != Ready {
          assert !IsReady(View(), Items[id].requirements[k]);
          return false;
        }
        k := k + 1;
      }
      return true;
    }

    method BeginModule(id: nat) returns (ok: bool)
      requires Valid()
      modifies States
      ensures (View(), ok) == Begin(old(View()), id)
    {
      if id >= |Items| || !Items[id].compiledIn {
        return false;
      }
      ok := CanStartModule(id);
      States[id] := if ok then Starting else Failed;
    }

    method MarkModule(id: nat, s: State)
      requires Valid()
      modifies States
      ensures View() == Mark(old(View()), id, s)
    {
      if id < |Items| {
        States[id] := s;
      }
    }

    /** One callback of a sweep: the state shows that it runs, then what came of it. */
    method InvokeCallback(w: Sweep, id: nat, answer: bool) returns (ok: bool)
      requires Valid()
      modifies States
      ensures (View(), ok) == Invoke(old(View()), w, id, answer)
    {
      if id >= |Items| || !ShouldRun(w, Items[id].compiledIn, States[id]) {
        return false;
      }
      ghost var t := View();
      States[id] := During(w);
      if !answer {
        States[id] := Failed;
        assert States[..] == t.states[id := Failed];
        return false;
      }
      States[id] := After(w);
      assert States[..] == t.states[id := After(w)];
      return true;
    }

    /** A whole sweep, from the last module to the first. */
    method InvokeCallbacks(w: Sweep, answers: seq<bool>) returns (count: nat)
      requires Valid() && |answers| == |Items|
      modifies States
      ensures View() == SweepTo(old(View()), w, answers, 0)
      ensures count == SweepCount(old(View()), w, answers, 0)
    {
      count := 0;
      var index: nat := |Items|;
      while index > 0
        invariant index <= |Items|
        invariant View() == SweepTo(old(View()), w, answers, index)
        invariant count == SweepCount(old(View()), w, answers, index)
      {
        index := index - 1;
        var ok := InvokeCallback(w, index, answers[index]);
        if ok {
          count := count + 1;
        }
      }
    }
  }
}
