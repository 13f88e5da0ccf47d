/** The round-robin scheduler: one queue to a CPU, the earliest thread of the highest priority next. */
module RunQueue {

  const CPUS: nat := 32
  const RING: nat := 64
  const NOBODY: int := -1

  /** A thread's priority, and the CPUs it may run on if it has an affinity. */
  datatype Affinity = Anywhere | Only(cpus: set<nat>)
  datatype Thread = Thread(priority: nat, affinity: Affinity)

  datatype Queues = Queues(
    cpuCount: nat,
    queues: seq<seq<nat>>,
    current: seq<int>,
    idle: seq<int>,
    ready: set<nat>,
    home: map<nat, nat>)

  type Threads = seq<Thread>

  predicate Shaped(ts: Threads, s: Queues) {
    && 1 <= s.cpuCount <= CPUS && |s.queues| == CPUS && |s.current| == CPUS && |s.idle| == CPUS
    && (forall c :: 0 <= c < CPUS ==> |s.queues[c]| <= RING)
    && (forall c, k :: 0 <= c < CPUS && 0 <= k < |s.queues[c]| ==> s.queues[c][k] < |ts|)
    && (forall c :: 0 <= c < CPUS ==> s.current[c] < |ts|)
  }

  function Clamp(cpu: nat): (c: nat)
    ensures c < CPUS
  {
    if cpu >= CPUS then 0 else cpu
  }

  /** The number a queue carries: queues past the CPUs there are were never numbered. */
  function CpuOf(s: Queues, c: nat): nat {
    if c < s.cpuCount then c else 0
  }

  predicate Allowed(t: Thread, cpu: nat) {
    t.affinity.Anywhere? || cpu in t.affinity.cpus
  }

  function FirstAllowed(t: Thread, from: nat, cpuCount: nat): (c: nat)
    requires from <= cpuCount
    ensures from <= c <= cpuCount
    ensures c < cpuCount ==> Allowed(t, c)
    ensures forall k :: from <= k < c ==> !Allowed(t, k)
    decreases cpuCount - from
  {
    if from == cpuCount || Allowed(t, from) then from else FirstAllowed(t, from + 1, cpuCount)
  }

  /** The queue a thread goes to: the one asked for if it may run there, else that of the first CPU it
      may run on; the number of queues if there is none. */
  function TargetQueue(s: Queues, t: Thread, c: nat): nat
    requires c < CPUS && s.cpuCount <= CPUS
  {
    if Allowed(t, CpuOf(s, c)) then c
    else
      var k := FirstAllowed(t, 0, s.cpuCount);
      if k < s.cpuCount then k else CPUS
  }

  function Enqueue(s: Queues, c: nat, id: nat): Queues
    requires c < |s.queues|
  {
    s.(queues := s.queues[c := s.queues[c] + [id]], ready := s.ready + {id}, home := s.home[id := CpuOf(s, c)])
  }

  function Add(ts: Threads, s: Queues, cpu: nat, id: nat): (r: (Queues, bool))
    requires Shaped(ts, s) && id < |ts|
    ensures Shaped(ts, r.0)
  {
    var c := TargetQueue(s, ts[id], Clamp(cpu));
    if c == CPUS || |s.queues[c]| >= RING then (s, false) else (Enqueue(s, c, id), true)
  }

  function Pop(s: Queues, c: nat): Queues
    requires c < |s.queues| && s.queues[c] != []
  {
    s.(queues := s.queues[c := s.queues[c][1..]])
  }

  /** The loop of picking: every thread queued at the start is taken from the head once; the best so
      far is held back, the others go back to the tail. */
  function PickLoop(ts: Threads, s: Queues, c: nat, n: nat, best: int): (r: (Queues, int))
    requires Shaped(ts, s) && c < CPUS && n <= |s.queues[c]| && best < |ts|
    ensures Shaped(ts, r.0) && r.1 < |ts|
    decreases n
  {
    if n == 0 then (s, best)
    else
      var candidate := s.queues[c][0];
      var t := Pop(s, c);
      if best < 0 then PickLoop(ts, t, c, n - 1, candidate)
      else if ts[candidate].priority > ts[best].priority
      then PickLoop(ts, Add(ts, t, CpuOf(s, c), best).0, c, n - 1, candidate)
      else PickLoop(ts, Add(ts, t, CpuOf(s, c), candidate).0, c, n - 1, best)
  }

  function PickNext(ts: Threads, s: Queues, cpu: nat): (Queues, int)
    requires Shaped(ts, s)
  {
    var c := Clamp(cpu);
    if s.queues[c] == [] then (s, s.idle[CpuOf(s, c)])
    else
      var (t, best) := PickLoop(ts, s, c, |s.queues[c]|, NOBODY);
      (t.(current := t.current[CpuOf(s, c) := best], ready := if best < 0 then t.ready else t.ready - {best as nat}), best)
  }

  /** The current thread goes to the tail and the next is picked. */
  function Preempt(ts: Threads, s: Queues, cpu: nat): (Queues, int)
    requires Shaped(ts, s)
  {
    var c := Clamp(cpu);
    if s.current[c] < 0 then PickNext(ts, s, c)
    else PickNext(ts, Add(ts, s.(ready := s.ready + {s.current[c] as nat}), c, s.current[c]).0, c)
  }

  // ----- Which thread is picked, and what is left -----

  /** The one that stays ahead of all the rest: a later one only by a higher priority. */
  function Winner(ts: Threads, best: nat, rest: seq<nat>): (w: nat)
    requires best < |ts| && forall k :: 0 <= k < |rest| ==> rest[k] < |ts|
    ensures w < |ts|
    decreases |rest|
  {
    if rest == [] then best
    else Winner(ts, if ts[rest[0]].priority > ts[best].priority then rest[0] else best, rest[1..])
  }

  /** The others, in the order they go back to the tail. */
  function Losers(ts: Threads, best: nat, rest: seq<nat>): (l: seq<nat>)
    requires best < |ts| && forall k :: 0 <= k < |rest| ==> rest[k] < |ts|
    ensures |l| == |rest| && forall k :: 0 <= k < |l| ==> l[k] < |ts|
    decreases |rest|
  {
    if rest == [] then []
    else if ts[rest[0]].priority > ts[best].priority then [best] + Losers(ts, rest[0], rest[1..])
    else [rest[0]] + Losers(ts, best, rest[1..])
  }

  /** Nothing appears and nothing is lost. */
  lemma {:induction false} WinnerAndLosers(ts: Threads, best: nat, rest: seq<nat>)
    requires best < |ts| && forall k :: 0 <= k < |rest| ==> rest[k] < |ts|
    ensures multiset{Winner(ts, best, rest)} + multiset(Losers(ts, best, rest)) == multiset{best} + multiset(rest)
    decreases |rest|
  {
    if rest != [] {
      assert rest == [rest[0]] + rest[1..];
      var up := ts[rest[0]].priority > ts[best].priority;
      WinnerAndLosers(ts, if up then rest[0] else best, rest[1..]);
    }
  }

  /** k is the place of the earliest thread of the highest priority. */
  predicate EarliestBest(ts: Threads, list: seq<nat>, k: nat)
    requires forall j :: 0 <= j < |list| ==> list[j] < |ts|
  {
    && k < |list|
    && (forall j :: 0 <= j < |list| ==> ts[list[j]].priority <= ts[list[k]].priority)
    && (forall j :: 0 <= j < k ==> ts[list[j]].priority < ts[list[k]].priority)
  }

  lemma {:induction false} WinnerIsEarliestBest(ts: Threads, best: nat, rest: seq<nat>)
    requires best < |ts| && forall k :: 0 <= k < |rest| ==> rest[k] < |ts|
    ensures forall j :: 0 <= j < |[best] + rest| ==> ([best] + rest)[j] < |ts|
    ensures exists k: nat :: EarliestBest(ts, [best] + rest, k) && Winner(ts, best, rest) == ([best] + rest)[k]
    decreases |rest|
  {
    var list := [best] + rest;
    if rest == [] {
      assert EarliestBest(ts, list, 0);
    } else {
      var next := if ts[rest[0]].priority > ts[best].priority then rest[0] else best;
      WinnerIsEarliestBest(ts, next, rest[1..]);
      var shorter := [next] + rest[1..];
      var k: nat :| EarliestBest(ts, shorter, k) && Winner(ts, next, rest[1..]) == shorter[k];
      assert list == [best, rest[0]] + rest[1..];
      EarliestLonger(ts, best, rest[0], rest[1..], k);
    }
  }

  lemma EarliestLonger(ts: Threads, best: nat, x: nat, rest: seq<nat>, k: nat)
    requires best < |ts| && x < |ts| && forall j :: 0 <= j < |rest| ==> rest[j] < |ts|
    requires EarliestBest(ts, [if ts[x].priority > ts[best].priority then x else best] + rest, k)
    ensures var up := ts[x].priority > ts[best].priority;
            var list := [best, x] + rest;
            var at: nat := if k > 0 then k + 1 else if up then 1 else 0;
            EarliestBest(ts, list, at) && list[at] == ([if up then x else best] + rest)[k]
  {
    var list := [best, x] + rest;
    var shorter := [if ts[x].priority > ts[best].priority then x else best] + rest;
    var at: nat := if k > 0 then k + 1 else if ts[x].priority > ts[best].priority then 1 else 0;
    assert shorter[0] == if ts[x].priority > ts[best].priority then x else best;
    assert list[at] == shorter[k];
    forall j: nat | j < |list|
      ensures ts[list[j]].priority <= ts[list[at]].priority && (j < at ==> ts[list[j]].priority < ts[list[at]].priority)
    {
      if j >= 2 {
        assert list[j] == shorter[j - 1];
      } else {
        assert ts[shorter[0]].priority <= ts[shorter[k]].priority;
      }
    }
  }

  /** With all priorities equal the order is kept: the first wins, the rest follow as they were. */
  lemma {:induction false} EqualKeepsOrder(ts: Threads, best: nat, rest: seq<nat>)
    requires best < |ts| && forall k :: 0 <= k < |rest| ==> rest[k] < |ts| && ts[rest[k]].priority == ts[best].priority
    ensures Winner(ts, best, rest) == best && Losers(ts, best, rest) == rest
    decreases |rest|
  {
    if rest != [] {
      EqualKeepsOrder(ts, best, rest[1..]);
    }
  }

  // ----- Picking -----

  /** Those of a list that may run on a CPU. */
  function Staying(ts: Threads, list: seq<nat>, cpu: nat): seq<nat>
    requires forall k :: 0 <= k < |list| ==> list[k] < |ts|
  {
    if list == [] then [] else (if Allowed(ts[list[0]], cpu) then [list[0]] else []) + Staying(ts, list[1..], cpu)
  }

  /** Re-adding to a numbered queue appends the thread if it may run there, and otherwise leaves the
      queue as it is. */
  lemma AddHere(ts: Threads, s: Queues, c: nat, id: nat)
    requires Shaped(ts, s) && c < s.cpuCount && id < |ts| && |s.queues[c]| < RING
    ensures Add(ts, s, c, id).0.queues[c] == s.queues[c] + if Allowed(ts[id], c) then [id] else []
    ensures Add(ts, s, c, id).0.cpuCount == s.cpuCount && Add(ts, s, c, id).0.current == s.current
    ensures Allowed(ts[id], c) ==> Add(ts, s, c, id) == (Enqueue(s, c, id), true)
  {
  }

  /** One turn of the loop. */
  lemma PickLoopStep(ts: Threads, s: Queues, c: nat, n: nat, best: nat)
    requires Shaped(ts, s) && c < s.cpuCount && 0 < n <= |s.queues[c]| && best < |ts| && |s.queues[c]| < RING
    ensures s.queues[c][0] < |ts|
    ensures var candidate := s.queues[c][0];
            var up := ts[candidate].priority > ts[best].priority;
            var back := if up then best else candidate;
            var next := if up then candidate else best;
            var u := Add(ts, Pop(s, c), c, back).0;
            && Shaped(ts, u) && |u.queues| == CPUS && u.queues[c] == s.queues[c][1..] + (if Allowed(ts[back], c) then [back] else [])
            && u.cpuCount == s.cpuCount && u.current == s.current
            && PickLoop(ts, s, c, n, best) == PickLoop(ts, u, c, n - 1, next)
  {
    hide Add;
    ShapedQueue(ts, s, c);
    PopShaped(ts, s, c);
    var candidate := s.queues[c][0];
    AddHere(ts, Pop(s, c), c, if ts[candidate].priority > ts[best].priority then best else candidate);
  }

  /** One turn of the folds. */
  lemma FoldStep(ts: Threads, best: nat, x: nat, rest: seq<nat>, cpu: nat)
    requires best < |ts| && x < |ts| && forall k :: 0 <= k < |rest| ==> rest[k] < |ts|
    ensures var up := ts[x].priority > ts[best].priority;
            var back := if up then best else x;
            var next := if up then x else best;
            && (forall k :: 0 <= k < |[x] + rest| ==> ([x] + rest)[k] < |ts|)
            && Winner(ts, best, [x] + rest) == Winner(ts, next, rest)
            && Staying(ts, Losers(ts, best, [x] + rest), cpu)
               == (if Allowed(ts[back], cpu) then [back] else []) + Staying(ts, Losers(ts, next, rest), cpu)
  {
    var up := ts[x].priority > ts[best].priority;
    var back, next := if up then best else x, if up then x else best;
    var l := Losers(ts, next, rest);
    assert ([x] + rest)[1..] == rest;
    assert Losers(ts, best, [x] + rest) == [back] + l;
    assert ([back] + l)[1..] == l;
  }

  lemma {:induction false} PickLoopExact(ts: Threads, s: Queues, c: nat, n: nat, best: nat, front: seq<nat>, behind: seq<nat>)
    requires Shaped(ts, s) && c < s.cpuCount && c < CPUS && best < |ts| && |s.queues[c]| < RING
    requires s.queues[c] == front + behind && |front| == n && forall k :: 0 <= k < n ==> front[k] < |ts|
    ensures var (t, w) := PickLoop(ts, s, c, n, best);
            && w == Winner(ts, best, front) && t.queues[c] == behind + Staying(ts, Losers(ts, best, front), c)
            && t.cpuCount == s.cpuCount && t.current == s.current
    decreases n
  {
    hide Shaped, PickLoop, Winner, Losers, Staying, Add;
    if n == 0 {
      PickLoopEnds(ts, s, c, best);
      assert front == [] && front + behind == behind;
    } else {
      var x, rest := front[0], front[1..];
      assert front == [x] + rest;
      ShapedQueue(ts, s, c);
      PopShaped(ts, s, c);
      assert s.queues[c][0] == x && s.queues[c][1..] == rest + behind;
      PickLoopStep(ts, s, c, n, best);
      var up := ts[x].priority > ts[best].priority;
      var back, next := if up then best else x, if up then x else best;
      var u := Add(ts, Pop(s, c), c, back).0;
      var keep := if Allowed(ts[back], c) then [back] else [];
      assert u.queues[c] == rest + (behind + keep);
      PickLoopExact(ts, u, c, n - 1, next, rest, behind + keep);
      FoldStep(ts, best, x, rest, c);
      assert (behind + keep) + Staying(ts, Losers(ts, next, rest), c) == behind + (keep + Staying(ts, Losers(ts, next, rest), c));
    }
  }

  lemma PickLoopEnds(ts: Threads, s: Queues, c: nat, best: nat)
    requires Shaped(ts, s) && c < CPUS && best < |ts|
    ensures PickLoop(ts, s, c, 0, best) == (s, best) && Winner(ts, best, []) == best && Losers(ts, best, []) == []
    ensures Staying(ts, [], c) == []
  {
  }

  lemma ShapedQueue(ts: Threads, s: Queues, c: nat)
    requires Shaped(ts, s) && c < CPUS
    ensures |s.queues| == CPUS && |s.current| == CPUS && |s.idle| == CPUS && |s.queues[c]| <= RING && s.current[c] < |ts|
    ensures forall k :: 0 <= k < |s.queues[c]| ==> s.queues[c][k] < |ts|
    ensures 1 <= s.cpuCount <= CPUS
  {
  }

  lemma PopShaped(ts: Threads, s: Queues, c: nat)
    requires Shaped(ts, s) && c < CPUS && |s.queues| == CPUS && s.queues[c] != []
    ensures Shaped(ts, Pop(s, c))
  {
  }

  /** The pick is the earliest thread of the highest priority; what stays queued are the others, in the
      order they went back, less those that may not run there any more. */
  lemma PickNumberedExact(ts: Threads, s: Queues, c: nat)
    requires Shaped(ts, s) && c < s.cpuCount && s.queues[c] != []
    ensures var (t, w) := PickNext(ts, s, c); var list := s.queues[c];
            && (forall k :: 0 <= k < |list| ==> list[k] < |ts|)
            && (exists k: nat :: EarliestBest(ts, list, k) && w == list[k])
            && w == Winner(ts, list[0], list[1..])
            && t.queues[c] == Staying(ts, Losers(ts, list[0], list[1..]), c)
            && t.current == s.current[c := w]
            && t.cpuCount == s.cpuCount
  {
    var list := s.queues[c];
    ShapedQueue(ts, s, c);
    PopShaped(ts, s, c);
    var t := Pop(s, c);
    var n := |list| - 1;
    assert list == [list[0]] + list[1..];
    assert list[1..] + [] == list[1..];
    PickLoopExact(ts, t, c, n, list[0], list[1..], []);
    WinnerIsEarliestBest(ts, list[0], list[1..]);
  }

  lemma {:induction false} StayingAll(ts: Threads, list: seq<nat>, cpu: nat)
    requires forall k :: 0 <= k < |list| ==> list[k] < |ts|
    ensures |Staying(ts, list, cpu)| <= |list|
    ensures |Staying(ts, list, cpu)| == |list| <==> forall k :: 0 <= k < |list| ==> Allowed(ts[list[k]], cpu)
    ensures |Staying(ts, list, cpu)| == |list| ==> Staying(ts, list, cpu) == list
    decreases |list|
  {
    if list != [] {
      StayingAll(ts, list[1..], cpu);
      forall k | 1 <= k < |list| ensures list[k] == list[1..][k - 1] {
      }
      if !Allowed(ts[list[0]], cpu) {
        assert |Staying(ts, list, cpu)| < |list|;
      } else if |Staying(ts, list[1..], cpu)| < |list[1..]| {
        var k :| 0 <= k < |list[1..]| && !Allowed(ts[list[1..][k]], cpu);
        assert !Allowed(ts[list[k + 1]], cpu);
      }
    }
  }

  // ----- Picking for a CPU that is not there -----

  /** Each thread of the list is added in turn. */
  function AddAll(ts: Threads, s: Queues, cpu: nat, list: seq<nat>): (t: Queues)
    requires Shaped(ts, s) && forall k :: 0 <= k < |list| ==> list[k] < |ts|
    ensures Shaped(ts, t)
    decreases |list|
  {
    if list == [] then s else AddAll(ts, Add(ts, s, cpu, list[0]).0, cpu, list[1..])
  }

  function Dropped(s: Queues, c: nat, n: nat): Queues
    requires c < |s.queues| && n <= |s.queues[c]|
  {
    s.(queues := s.queues[c := s.queues[c][n..]])
  }

  lemma DroppedShaped(ts: Threads, s: Queues, c: nat, n: nat)
    requires Shaped(ts, s) && c < CPUS && |s.queues| == CPUS && n <= |s.queues[c]|
    ensures Shaped(ts, Dropped(s, c, n))
  {
  }

  /** Adding for CPU 0 never touches a ring that carries no number. */
  lemma AddElsewhere(ts: Threads, s: Queues, c: nat, n: nat, id: nat)
    requires Shaped(ts, s) && s.cpuCount <= c < CPUS && |s.queues| == CPUS && n <= |s.queues[c]| && id < |ts|
    requires Shaped(ts, Dropped(s, c, n))
    ensures var u := Add(ts, s, 0, id).0;
            && u.cpuCount == s.cpuCount && |u.queues| == CPUS && u.queues[c] == s.queues[c]
            && Add(ts, Dropped(s, c, n), 0, id).0 == Dropped(u, c, n)
  {
    var d := Dropped(s, c, n);
    var k := TargetQueue(s, ts[id], 0);
    assert TargetQueue(d, ts[id], 0) == k && k != c;
    if k < CPUS && |s.queues[k]| < RING {
      assert d.queues[k := d.queues[k] + [id]] == s.queues[k := s.queues[k] + [id]][c := s.queues[c][n..]];
    }
  }

  /** The loop on such a ring: the losers go, one after another, to CPU 0. */
  lemma {:induction false} PickLoopElsewhere(ts: Threads, s: Queues, c: nat, n: nat, best: nat, front: seq<nat>)
    requires Shaped(ts, s) && s.cpuCount <= c < CPUS && |s.queues| == CPUS && n <= |s.queues[c]| && best < |ts|
    requires front == s.queues[c][..n] && (forall k :: 0 <= k < n ==> front[k] < |ts|) && Shaped(ts, Dropped(s, c, n))
    ensures PickLoop(ts, s, c, n, best)
         == (AddAll(ts, Dropped(s, c, n), 0, Losers(ts, best, front)), Winner(ts, best, front))
    decreases n
  {
    hide Shaped, Add;
    if n == 0 {
      assert Dropped(s, c, 0) == s;
    } else {
      var x, rest := front[0], front[1..];
      var up := ts[x].priority > ts[best].priority;
      var back, next := if up then best else x, if up then x else best;
      PopShaped(ts, s, c);
      var p := Pop(s, c);
      assert Dropped(p, c, n - 1) == Dropped(s, c, n);
      AddElsewhere(ts, p, c, n - 1, back);
      var u := Add(ts, p, 0, back).0;
      ShapedQueue(ts, p, c);
      assert u.queues[c] == s.queues[c][1..];
      assert rest == u.queues[c][..n - 1];
      DroppedShaped(ts, u, c, n - 1);
      PickLoopElsewhere(ts, u, c, n - 1, next, rest);
      assert CpuOf(s, c) == 0 && CpuOf(p, c) == 0;
      assert PickLoop(ts, s, c, n, best) == PickLoop(ts, u, c, n - 1, next);
      var l := Losers(ts, best, front);
      assert l == [back] + Losers(ts, next, rest);
      assert l[1..] == Losers(ts, next, rest);
    }
  }

  /** A pick on a CPU number from the configured count on, which the rings accept: the earliest of the
      highest priority becomes the current thread of CPU 0, and the others are added to CPU 0 in the
      order they lost. */
  lemma PickUnnumberedExact(ts: Threads, s: Queues, c: nat)
    requires Shaped(ts, s) && s.cpuCount <= c < CPUS && s.queues[c] != []
    ensures var list := s.queues[c];
            && (forall k :: 0 <= k < |list| ==> list[k] < |ts|) && Shaped(ts, Dropped(s, c, |list|))
            && var (t, w) := PickNext(ts, s, c);
            var u := AddAll(ts, Dropped(s, c, |list|), 0, Losers(ts, list[0], list[1..]));
            && (exists k: nat :: EarliestBest(ts, list, k) && w == list[k])
            && w == Winner(ts, list[0], list[1..])
            && |u.current| == CPUS
            && t == u.(current := u.current[0 := w], ready := u.ready - {w as nat})
  {
    hide Add, Shaped;
    ShapedQueue(ts, s, c);
    var list := s.queues[c];
    PopShaped(ts, s, c);
    DroppedShaped(ts, s, c, |list|);
    var p := Pop(s, c);
    assert list == [list[0]] + list[1..];
    assert p.queues[c] == list[1..] && list[1..][..|list| - 1] == list[1..];
    assert Dropped(p, c, |list| - 1) == Dropped(s, c, |list|);
    PickLoopElsewhere(ts, p, c, |list| - 1, list[0], list[1..]);
    WinnerIsEarliestBest(ts, list[0], list[1..]);
    ShapedQueue(ts, AddAll(ts, Dropped(s, c, |list|), 0, Losers(ts, list[0], list[1..])), 0);
  }

  function Limited(list: seq<nat>): seq<nat> {
    if |list| <= RING then list else list[..RING]
  }

  lemma LimitedTwice(q: seq<nat>, a: seq<nat>, b: seq<nat>)
    requires |q| <= RING
    ensures Limited(Limited(q + a) + b) == Limited(q + (a + b))
  {
    if |q + a| <= RING {
      assert q + a + b == q + (a + b);
    } else {
      assert Limited(q + a) + b == (q + a)[..RING] + b;
    }
  }

  /** Of the threads added to CPU 0 those that may run there queue up as long as there is room. */
  lemma {:induction false} AddAllQueues(ts: Threads, s: Queues, list: seq<nat>)
    requires Shaped(ts, s) && forall k :: 0 <= k < |list| ==> list[k] < |ts|
    ensures |AddAll(ts, s, 0, list).queues| == CPUS == |s.queues|
    ensures AddAll(ts, s, 0, list).queues[0] == Limited(s.queues[0] + Staying(ts, list, 0))
    decreases |list|
  {
    hide Shaped, Add, Limited;
    ShapedQueue(ts, s, 0);
    if list == [] {
      LimitedEnough(s.queues[0]);
    } else {
      AddAtZero(ts, s, list[0]);
      AddAllQueues(ts, Add(ts, s, 0, list[0]).0, list[1..]);
      LimitedTwice(s.queues[0], if Allowed(ts[list[0]], 0) then [list[0]] else [], Staying(ts, list[1..], 0));
    }
  }

  lemma LimitedEnough(q: seq<nat>)
    requires |q| <= RING
    ensures Limited(q) == q == Limited(q + []) == Limited([] + q)
  {
    assert q + [] == q == [] + q;
  }

  lemma AddAtZero(ts: Threads, s: Queues, id: nat)
    requires Shaped(ts, s) && id < |ts|
    ensures |s.queues| == CPUS == |Add(ts, s, 0, id).0.queues|
    ensures Add(ts, s, 0, id).0.queues[0] == Limited(s.queues[0] + if Allowed(ts[id], 0) then [id] else [])
  {
  }

  /** No thread ever runs on a CPU that is not there. */
  predicate Numbered(s: Queues) {
    forall c :: s.cpuCount <= c < |s.current| ==> s.current[c] < 0
  }

  lemma {:induction false} PickLoopCurrent(ts: Threads, s: Queues, c: nat, n: nat, best: int)
    requires Shaped(ts, s) && c < CPUS && n <= |s.queues[c]| && best < |ts|
    ensures var t := PickLoop(ts, s, c, n, best).0; t.current == s.current && t.cpuCount == s.cpuCount
    decreases n
  {
    hide Shaped, Add;
    if n > 0 {
      ShapedQueue(ts, s, c);
      PopShaped(ts, s, c);
      var candidate := s.queues[c][0];
      var t := Pop(s, c);
      if best < 0 {
        PickLoopCurrent(ts, t, c, n - 1, candidate);
      } else {
        var up := ts[candidate].priority > ts[best].priority;
        AddCurrent(ts, t, CpuOf(s, c), if up then best else candidate, c);
        PickLoopCurrent(ts, Add(ts, t, CpuOf(s, c), if up then best else candidate).0, c, n - 1, if up then candidate else best);
      }
    }
  }

  lemma AddCurrent(ts: Threads, s: Queues, cpu: nat, id: nat, c: nat)
    requires Shaped(ts, s) && id < |ts| && c < CPUS
    ensures var t := Add(ts, s, cpu, id).0;
            t.current == s.current && t.cpuCount == s.cpuCount && |t.queues| == CPUS == |s.queues| && |t.queues[c]| >= |s.queues[c]|
  {
  }

  /** Every operation keeps that; so pre-empting such a CPU is no more than a pick. */
  lemma NumberedKeeps(ts: Threads, s: Queues, cpu: nat, id: nat)
    requires Shaped(ts, s) && Numbered(s) && id < |ts|
    ensures Numbered(Add(ts, s, cpu, id).0) && Numbered(PickNext(ts, s, cpu).0) && Numbered(Preempt(ts, s, cpu).0)
    ensures s.cpuCount <= cpu < CPUS ==> Preempt(ts, s, cpu) == PickNext(ts, s, cpu)
  {
    hide Shaped, Add, PickLoop;
    var c := Clamp(cpu);
    ShapedQueue(ts, s, c);
    AddCurrent(ts, s, cpu, id, c);
    PickNumbered(ts, s, c);
    if s.current[c] >= 0 {
      var r := s.(ready := s.ready + {s.current[c] as nat});
      ReadyShaped(ts, s, r);
      AddCurrent(ts, r, c, s.current[c], c);
      PickNumbered(ts, Add(ts, r, c, s.current[c]).0, c);
    }
  }

  lemma ReadyShaped(ts: Threads, s: Queues, r: Queues)
    requires Shaped(ts, s) && r == s.(ready := r.ready)
    ensures Shaped(ts, r)
  {
  }

  lemma PickNumbered(ts: Threads, s: Queues, c: nat)
    requires Shaped(ts, s) && Numbered(s) && c < CPUS
    ensures Numbered(PickNext(ts, s, c).0)
  {
    hide Shaped;
    ShapedQueue(ts, s, c);
    if s.queues[c] != [] {
      PickLoopCurrent(ts, s, c, |s.queues[c]|, NOBODY);
    }
  }

  // ----- Picking on any CPU -----

  /** The threads queued for the CPU that a pick re-adds to, before it does. */
  function Waiting(s: Queues, c: nat): seq<nat>
    requires c < CPUS == |s.queues|
  {
    if c < s.cpuCount then [] else s.queues[0]
  }

  /** For every CPU number: the pick is the earliest thread of the highest priority in its ring and
      becomes current on the CPU the ring is numbered for; the others queue up there again in the order
      they lost, less those that may not run there any more, as long as there is room. */
  lemma PickNextExact(ts: Threads, s: Queues, cpu: nat)
    requires Shaped(ts, s) && s.queues[Clamp(cpu)] != []
    ensures var c := Clamp(cpu); var here := CpuOf(s, c); var (t, w) := PickNext(ts, s, cpu); var list := s.queues[c];
            && (forall k :: 0 <= k < |list| ==> list[k] < |ts|)
            && (exists k: nat :: EarliestBest(ts, list, k) && w == list[k])
            && |t.queues| == CPUS
            && t.queues[here] == Limited(Waiting(s, c) + Staying(ts, Losers(ts, list[0], list[1..]), here))
            && t.current == s.current[here := w]
            && t.cpuCount == s.cpuCount
  {
    hide Shaped, PickNext, Staying, Limited;
    var c := Clamp(cpu);
    Picked(ts, s, cpu);
    if c < s.cpuCount {
      PickNumberedExact(ts, s, c);
      ShapedQueue(ts, s, c);
      var l := Losers(ts, s.queues[c][0], s.queues[c][1..]);
      StayingAll(ts, l, c);
      LimitedEnough(Staying(ts, l, c));
    } else {
      PickUnnumberedQueue(ts, s, c);
    }
  }

  lemma PickUnnumberedQueue(ts: Threads, s: Queues, c: nat)
    requires Shaped(ts, s) && s.cpuCount <= c < CPUS && s.queues[c] != []
    ensures var (t, w) := PickNext(ts, s, c); var list := s.queues[c];
            && (forall k :: 0 <= k < |list| ==> list[k] < |ts|)
            && (exists k: nat :: EarliestBest(ts, list, k) && w == list[k])
            && |t.queues| == CPUS && t.queues[0] == Limited(s.queues[0] + Staying(ts, Losers(ts, list[0], list[1..]), 0))
            && t.current == s.current[0 := w] && t.cpuCount == s.cpuCount
  {
    hide Shaped, PickNext, AddAll, Staying, Limited, EarliestBest;
    ShapedQueue(ts, s, c);
    var list := s.queues[c];
    PickUnnumberedExact(ts, s, c);
    var d := Dropped(s, c, |list|);
    AddAllQueues(ts, d, Losers(ts, list[0], list[1..]));
    AddAllCurrent(ts, d, 0, Losers(ts, list[0], list[1..]));
    assert d.queues[0] == s.queues[0];
  }

  lemma Picked(ts: Threads, s: Queues, cpu: nat)
    requires Shaped(ts, s)
    ensures PickNext(ts, s, cpu) == PickNext(ts, s, Clamp(cpu)) && |PickNext(ts, s, cpu).0.queues| == CPUS
  {
  }

  lemma {:induction false} AddAllCurrent(ts: Threads, s: Queues, cpu: nat, list: seq<nat>)
    requires Shaped(ts, s) && forall k :: 0 <= k < |list| ==> list[k] < |ts|
    ensures AddAll(ts, s, cpu, list).current == s.current && AddAll(ts, s, cpu, list).cpuCount == s.cpuCount
    decreases |list|
  {
    hide Shaped, Add;
    if list != [] {
      AddCurrent(ts, s, cpu, list[0], 0);
      AddAllCurrent(ts, Add(ts, s, cpu, list[0]).0, cpu, list[1..]);
    }
  }

  /** Picking leaves exactly the others queued, behind what waited there, if and only if each of them may
      still run there and there is room for all: one whose affinity changed while it was queued moves
      away or is lost. On a numbered CPU there is always room. */
  lemma PickNextKeepsExact(ts: Threads, s: Queues, cpu: nat)
    requires Shaped(ts, s) && s.queues[Clamp(cpu)] != []
    requires var list := s.queues[Clamp(cpu)]; forall k :: 0 <= k < |list| ==> list[k] < |ts|
    ensures var c := Clamp(cpu); var here := CpuOf(s, c); var (t, w) := PickNext(ts, s, cpu); var list := s.queues[c];
            var others := Losers(ts, list[0], list[1..]);
            && 0 <= w && multiset{w as nat} + multiset(others) == multiset(list)
            && |t.queues| == CPUS
            && (t.queues[here] == Waiting(s, c) + others
                <==> |Waiting(s, c)| + |others| <= RING && forall k :: 0 <= k < |others| ==> Allowed(ts[others[k]], here))
            && (c < s.cpuCount ==> |Waiting(s, c)| + |others| <= RING)
  {
    hide Shaped, PickNext;
    var c := Clamp(cpu);
    var here := CpuOf(s, c);
    ShapedQueue(ts, s, c);
    var list := s.queues[c];
    var others := Losers(ts, list[0], list[1..]);
    PickNextExact(ts, s, cpu);
    PickWinner(ts, s, cpu);
    WinnerAndLosers(ts, list[0], list[1..]);
    assert list == [list[0]] + list[1..];
    StayingAll(ts, others, here);
    var q := Waiting(s, c);
    if |q| + |others| <= RING && |Staying(ts, others, here)| == |others| {
      assert Limited(q + Staying(ts, others, here)) == q + others;
    } else {
      assert |Limited(q + Staying(ts, others, here))| < |q + others|;
    }
  }

  lemma PickWinner(ts: Threads, s: Queues, cpu: nat)
    requires Shaped(ts, s) && s.queues[Clamp(cpu)] != []
    requires var list := s.queues[Clamp(cpu)]; forall k :: 0 <= k < |list| ==> list[k] < |ts|
    ensures var list := s.queues[Clamp(cpu)]; PickNext(ts, s, cpu).1 == Winner(ts, list[0], list[1..])
  {
    hide Shaped, PickNext;
    var c := Clamp(cpu);
    Picked(ts, s, cpu);
    if c < s.cpuCount {
      PickNumberedExact(ts, s, c);
    } else {
      PickUnnumberedExact(ts, s, c);
    }
  }

  // ----- Pre-emption -----

  /** The threads of a CPU all have one priority and may run there. */
  predicate Equal(ts: Threads, list: seq<nat>, cpu: nat) {
    && (forall k :: 0 <= k < |list| ==> list[k] < |ts|)
    && (forall k :: 0 <= k < |list| ==> ts[list[k]].priority == ts[list[0]].priority && Allowed(ts[list[k]], cpu))
  }

  /** Among equals picking takes the head and leaves the rest as it was. */
  lemma PickEqual(ts: Threads, s: Queues, c: nat)
    requires Shaped(ts, s) && c < s.cpuCount && s.queues[c] != [] && Equal(ts, s.queues[c], c)
    ensures var (t, w) := PickNext(ts, s, c);
            Shaped(ts, t) && w == s.queues[c][0] && t.queues[c] == s.queues[c][1..] && t.current[c] == w && t.cpuCount == s.cpuCount
  {
    var list := s.queues[c];
    PickNumberedExact(ts, s, c);
    EqualKeepsOrder(ts, list[0], list[1..]);
    StayingAll(ts, list[1..], c);
    PickShaped(ts, s, c);
  }

  lemma PickShaped(ts: Threads, s: Queues, c: nat)
    requires Shaped(ts, s) && c < s.cpuCount && s.queues[c] != []
    ensures Shaped(ts, PickNext(ts, s, c).0)
  {
    var (t, best) := PickLoop(ts, s, c, |s.queues[c]|, NOBODY);
    var u := PickNext(ts, s, c).0;
    assert u.queues == t.queues;
  }

  /** Among equals, and with room in the ring, pre-emption is a rotation: the queue with the current
      thread behind it moves on by one. */
  lemma PreemptRotates(ts: Threads, s: Queues, c: nat)
    requires Shaped(ts, s) && Numbered(s) && c < CPUS && s.current[c] >= 0 && |s.queues[c]| < RING
    requires Equal(ts, s.queues[c] + [s.current[c]], c)
    ensures var (t, w) := Preempt(ts, s, c); var line := s.queues[c] + [s.current[c] as nat];
            Shaped(ts, t) && t.cpuCount == s.cpuCount && t.current[c] == w == line[0] && t.queues[c] == line[1..]
  {
    var id: nat := s.current[c];
    var line := s.queues[c] + [id];
    assert line[|line| - 1] == id;
    var r := s.(ready := s.ready + {id});
    AddHere(ts, r, c, id);
    var u := Add(ts, r, c, id).0;
    assert u.queues[c] == line;
    PickEqual(ts, u, c);
  }

  /** With the ring full the current thread finds no place and is gone. */
  lemma PreemptFullLoses(ts: Threads, s: Queues, c: nat)
    requires Shaped(ts, s) && Numbered(s) && c < CPUS && s.current[c] >= 0 && |s.queues[c]| == RING
    requires Equal(ts, s.queues[c], c)
    ensures var (t, w) := Preempt(ts, s, c); t.current[c] == w == s.queues[c][0] && t.queues[c] == s.queues[c][1..]
  {
    var id: nat := s.current[c];
    var r := s.(ready := s.ready + {id});
    var u := Add(ts, r, c, id).0;
    assert u.queues[c] == s.queues[c];
    PickEqual(ts, u, c);
  }

  function Rotated(line: seq<nat>, k: nat): (r: seq<nat>)
    requires k <= |line|
    ensures |r| == |line|
  {
    line[k..] + line[..k]
  }

  function Preempts(ts: Threads, s: Queues, c: nat, k: nat): (t: Queues)
    requires Shaped(ts, s) && Numbered(s) && c < CPUS && s.current[c] >= 0 && |s.queues[c]| < RING
    requires Equal(ts, s.queues[c] + [s.current[c]], c)
    ensures Shaped(ts, t) && Numbered(t) && t.cpuCount == s.cpuCount && t.current[c] >= 0 && |t.queues[c]| == |s.queues[c]|
    ensures Equal(ts, t.queues[c] + [t.current[c]], c)
    decreases k
  {
    if k == 0 then s
    else
      var t := Preempts(ts, s, c, k - 1);
      PreemptRotates(ts, t, c);
      EqualRotates(ts, t.queues[c], t.current[c], c);
      NumberedKeeps(ts, t, c, t.current[c]);
      Preempt(ts, t, c).0
  }

  lemma EqualRotates(ts: Threads, list: seq<nat>, id: nat, cpu: nat)
    requires Equal(ts, list + [id], cpu)
    ensures var line := list + [id]; Equal(ts, line[1..] + [line[0]], cpu)
  {
    var line := list + [id];
    var next := line[1..] + [line[0]];
    forall k | 0 <= k < |next| ensures next[k] < |ts| && ts[next[k]].priority == ts[next[0]].priority && Allowed(ts[next[k]], cpu) {
      assert next[k] == if k + 1 < |line| then line[k + 1] else line[0];
      assert next[0] == if 1 < |line| then line[1] else line[0];
    }
  }

  /** After k pre-emptions, up to as many as there are threads, the line has rotated by k: the thread
      then running is the k-th of the line. So each of n equal threads runs once in every n. */
  lemma {:induction false} EachRunsOnce(ts: Threads, s: Queues, c: nat, k: nat)
    requires Shaped(ts, s) && Numbered(s) && c < CPUS && s.current[c] >= 0 && |s.queues[c]| < RING
    requires Equal(ts, s.queues[c] + [s.current[c]], c)
    requires k <= |s.queues[c]| + 1
    ensures var t := Preempts(ts, s, c, k); var line := s.queues[c] + [s.current[c] as nat];
            && t.queues[c] + [t.current[c] as nat] == Rotated(line, k)
            && (k > 0 ==> t.current[c] == line[k - 1])
    decreases k
  {
    hide Equal, Preempt, Shaped, Rotated;
    ShapedQueue(ts, s, c);
    var line := s.queues[c] + [s.current[c] as nat];
    RotatedStep(line, k);
    if k > 0 {
      EachRunsOnce(ts, s, c, k - 1);
      var t := Preempts(ts, s, c, k - 1);
      ShapedQueue(ts, t, c);
      PreemptRotates(ts, t, c);
      PreemptsOne(ts, s, c, k);
      ShapedQueue(ts, Preempts(ts, s, c, k), c);
    }
  }

  lemma PreemptsOne(ts: Threads, s: Queues, c: nat, k: nat)
    requires Shaped(ts, s) && Numbered(s) && c < CPUS && s.current[c] >= 0 && |s.queues[c]| < RING && k > 0
    requires Equal(ts, s.queues[c] + [s.current[c]], c)
    ensures Preempts(ts, s, c, k) == Preempt(ts, Preempts(ts, s, c, k - 1), c).0
  {
    hide Preempt;
  }

  lemma RotatedStep(line: seq<nat>, k: nat)
    requires k <= |line|
    ensures k == 0 ==> Rotated(line, k) == line
    ensures k > 0 ==> var b := Rotated(line, k - 1); b[0] == line[k - 1] && b[1..] + [b[0]] == Rotated(line, k)
  {
  }

  // ----- Adding -----

  predicate Runs(t: Thread, cpu: nat) {
    match t.affinity
    case Anywhere => true
    case Only(cpus) => cpu in cpus
  }

  /** The queue a thread belongs in: the one asked for, 0 for a number past 31, if the thread may run on
      the CPU of that queue; else the first configured CPU it may run on. */
  predicate Belongs(ts: Threads, s: Queues, cpu: nat, id: nat, q: nat)
    requires id < |ts|
  {
    var asked := if cpu < 32 then cpu else 0;
    if Runs(ts[id], if asked < s.cpuCount then asked else 0) then q == asked
    else q < s.cpuCount && Runs(ts[id], q) && forall k :: 0 <= k < q ==> !Runs(ts[id], k)
  }

  /** A thread is added exactly when it belongs in some queue and that has fewer than 64 threads; it goes
      to the end of that queue, and no other queue changes. */
  lemma AddExact(ts: Threads, s: Queues, cpu: nat, id: nat)
    requires Shaped(ts, s) && id < |ts|
    ensures forall q: nat, p: nat :: Belongs(ts, s, cpu, id, q) && Belongs(ts, s, cpu, id, p) ==> p == q < 32 == |s.queues|
    ensures var (t, added) := Add(ts, s, cpu, id);
            && (added <==> exists q: nat :: Belongs(ts, s, cpu, id, q) && |s.queues[q]| < 64)
            && (!added ==> t == s)
            && (added ==>
                  forall q: nat :: Belongs(ts, s, cpu, id, q) ==>
                    t == s.(queues := s.queues[q := s.queues[q] + [id]],
                            ready := s.ready + {id},
                            home := s.home[id := if q < s.cpuCount then q else 0]))
  {
    var q := TargetQueue(s, ts[id], Clamp(cpu));
    forall k: nat ensures Runs(ts[id], k) <==> Allowed(ts[id], k) {
    }
    if q < CPUS {
      assert Belongs(ts, s, cpu, id, q);
    }
  }

  /** A CPU with nothing queued gets its idle thread, and nothing changes. */
  lemma PickIdle(ts: Threads, s: Queues, cpu: nat)
    requires Shaped(ts, s)
    ensures var asked := if cpu < 32 then cpu else 0;
            |s.queues| == 32 == |s.idle|
            && (s.queues[asked] == [] ==> PickNext(ts, s, cpu) == (s, s.idle[if asked < s.cpuCount then asked else 0]))
  {
  }

  /** A thread that is where it belongs: it may run on the CPU, is marked ready and belongs to the CPU. */
  predicate Settled(ts: Threads, s: Queues, c: nat, id: nat) {
    id < |ts| && Runs(ts[id], c) && id in s.ready && id in s.home && s.home[id] == c
  }

  predicate AllSettled(ts: Threads, s: Queues, c: nat, list: seq<nat>) {
    forall k :: 0 <= k < |list| ==> Settled(ts, s, c, list[k])
  }

  lemma AddSettled(ts: Threads, s: Queues, c: nat, id: nat)
    requires Shaped(ts, s) && c < s.cpuCount && |s.queues[c]| < RING && Settled(ts, s, c, id)
    ensures Add(ts, s, c, id).0 == s.(queues := s.queues[c := s.queues[c] + [id]])
  {
    assert s.ready + {id} == s.ready;
    assert s.home[id := c] == s.home;
  }

  /** Where every thread is settled the picking loop touches its own queue alone. */
  lemma {:induction false} PickLoopSettled(ts: Threads, s: Queues, c: nat, n: nat, best: nat)
    requires Shaped(ts, s) && c < s.cpuCount && c < CPUS && n <= |s.queues[c]| < RING && best < |ts|
    requires AllSettled(ts, s, c, s.queues[c]) && Settled(ts, s, c, best)
    ensures var t := PickLoop(ts, s, c, n, best).0; |t.queues| == |s.queues| == CPUS && t == s.(queues := s.queues[c := t.queues[c]])
    decreases n
  {
    hide Shaped, Add;
    ShapedQueue(ts, s, c);
    if n > 0 {
      PopShaped(ts, s, c);
      var candidate := s.queues[c][0];
      var up := ts[candidate].priority > ts[best].priority;
      var back, next := if up then best else candidate, if up then candidate else best;
      var p := Pop(s, c);
      AddSettled(ts, p, c, back);
      var u := Add(ts, p, c, back).0;
      forall k | 0 <= k < |u.queues[c]| ensures Settled(ts, u, c, u.queues[c][k]) {
        assert u.queues[c][k] == if k < |s.queues[c]| - 1 then s.queues[c][k + 1] else back;
      }
      PickLoopSettled(ts, u, c, n - 1, next);
    }
  }

  lemma PickLoopStarts(ts: Threads, s: Queues, c: nat)
    requires Shaped(ts, s) && c < CPUS && |s.queues| == CPUS && s.queues[c] != [] && Shaped(ts, Pop(s, c)) && s.queues[c][0] < |ts|
    ensures PickLoop(ts, s, c, |s.queues[c]|, NOBODY) == PickLoop(ts, Pop(s, c), c, |s.queues[c]| - 1, s.queues[c][0])
  {
  }

  /** Then a pick changes one queue, makes the winner current there and takes it off the ready threads;
      every other thread stays queued. */
  lemma PickSettled(ts: Threads, s: Queues, c: nat)
    requires Shaped(ts, s) && c < s.cpuCount && c < CPUS && s.queues[c] != [] && AllSettled(ts, s, c, s.queues[c])
    ensures var (t, w) := PickNext(ts, s, c); var list := s.queues[c];
            && (exists k: nat :: EarliestBest(ts, list, k) && w == list[k])
            && |t.queues| == 32 == |s.queues| == |s.current|
            && multiset{w as nat} + multiset(t.queues[c]) == multiset(list)
            && t == s.(queues := s.queues[c := t.queues[c]], current := s.current[c := w], ready := s.ready - {w as nat})
  {
    hide Shaped, PickLoop, Add, EarliestBest;
    ShapedQueue(ts, s, c);
    PopShaped(ts, s, c);
    var list := s.queues[c];
    var p := Pop(s, c);
    PickLoopStarts(ts, s, c);
    PickLoopSettled(ts, p, c, |list| - 1, list[0]);
    PickNumberedExact(ts, s, c);
    WinnerAndLosers(ts, list[0], list[1..]);
    assert list == [list[0]] + list[1..];
    StayingAll(ts, Losers(ts, list[0], list[1..]), c);
    LosersAllowed(ts, list[0], list[1..], c);
  }

  lemma {:induction false} LosersAllowed(ts: Threads, best: nat, rest: seq<nat>, c: nat)
    requires best < |ts| && Runs(ts[best], c) && forall k :: 0 <= k < |rest| ==> rest[k] < |ts| && Runs(ts[rest[k]], c)
    ensures forall k :: 0 <= k < |rest| ==> Allowed(ts[Losers(ts, best, rest)[k]], c)
    decreases |rest|
  {
    if rest != [] {
      LosersAllowed(ts, if ts[rest[0]].priority > ts[best].priority then rest[0] else best, rest[1..], c);
    }
  }

  /** Pre-emption with room in the ring: the thread of the highest priority among those queued and the one
      that ran, the earliest of the queued before that, runs next; the others stay queued and ready, and no
      other queue changes. */
  lemma PreemptExact(ts: Threads, s: Queues, c: nat)
    requires Shaped(ts, s) && c < s.cpuCount && s.current[c] >= 0 && |s.queues[c]| < 64
    requires AllSettled(ts, s, c, s.queues[c]) && Runs(ts[s.current[c]], c)
    ensures var (t, w) := Preempt(ts, s, c); var ran: nat := s.current[c]; var line := s.queues[c] + [ran];
            && (forall k :: 0 <= k < |line| ==> line[k] < |ts|)
            && (exists k: nat :: EarliestBest(ts, line, k) && w == line[k])
            && |t.queues| == 32 == |s.queues| == |s.current|
            && multiset{w as nat} + multiset(t.queues[c]) == multiset(line)
            && t == s.(queues := s.queues[c := t.queues[c]], current := s.current[c := w],
                       ready := s.ready + {ran} - {w as nat}, home := s.home[ran := c])
  {
    hide PickNext, EarliestBest;
    var ran: nat := s.current[c];
    var r := s.(ready := s.ready + {ran});
    AddExact(ts, r, c, ran);
    assert Belongs(ts, r, c, ran, c);
    var u := Add(ts, r, c, ran).0;
    var line := s.queues[c] + [ran];
    assert u.queues[c] == line;
    assert r.ready + {ran} == r.ready;
    forall k | 0 <= k < |line| ensures Settled(ts, u, c, line[k]) {
      assert k < |s.queues[c]| ==> Settled(ts, s, c, s.queues[c][k]);
    }
    PickSettled(ts, u, c);
    assert s.queues[c := line][c := PickNext(ts, u, c).0.queues[c]] == s.queues[c := PickNext(ts, u, c).0.queues[c]];
  }

  /** With no thread running there is none to put back. */
  lemma PreemptNobody(ts: Threads, s: Queues, cpu: nat)
    requires Shaped(ts, s) && s.current[if cpu < 32 then cpu else 0] < 0
    ensures Preempt(ts, s, cpu) == PickNext(ts, s, cpu)
  {
    hide PickLoop;
  }
}
