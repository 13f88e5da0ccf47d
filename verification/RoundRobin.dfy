/** The run queues in memory: rings of 64 slots with a head, a tail and a count. */
module RoundRobin {
  import opened RunQueue

  function SlotOf(head: nat, i: nat): (s: nat)
    ensures s < RING
  {
    (head + i) % RING
  }

  /** Places less than a full ring apart are different slots. */
  lemma SlotsDiffer(head: nat, i: nat, j: nat)
    requires i < j < i + RING
    ensures SlotOf(head, i) != SlotOf(head, j)
  {
    var a, b := head + i, head + j;
    assert a == RING * (a / RING) + a % RING && b == RING * (b / RING) + b % RING;
  }

  lemma RemainderFirst(a: nat, b: nat)
    ensures (a % RING + b) % RING == (a + b) % RING
  {
    var q, r := a / RING, a % RING + b;
    assert a == RING * q + a % RING;
    assert r == RING * (r / RING) + r % RING;
    var x := a + b;
    assert x == RING * (x / RING) + x % RING;
    assert RING * (x / RING - q - r / RING) == r % RING - x % RING;
  }

  lemma SlotStep(head: nat, i: nat)
    ensures SlotOf(head, i + 1) == (SlotOf(head, i) + 1) % RING
    ensures SlotOf((head + 1) % RING, i) == SlotOf(head, i + 1)
  {
    RemainderFirst(head + i, 1);
    RemainderFirst(head + 1, i);
    assert head + i + 1 == head + 1 + i == head + (i + 1);
  }

  class Scheduler {
    const Table: Threads
    const CpuCount: nat
    const Ring: array2<int>
    const Head: array<nat>
    const Tail: array<nat>
    const Count: array<nat>
    const Current: array<int>
    const Idle: array<int>
    var Ready: set<nat>
    var Home: map<nat, nat>

    predicate Sized() {
      && 1 <= CpuCount <= CPUS && Ring.Length0 == CPUS && Ring.Length1 == RING
      && Head.Length == CPUS && Tail.Length == CPUS && Count.Length == CPUS && Current.Length == CPUS && Idle.Length == CPUS
      && Head != Tail && Head != Count && Tail != Count && Current != Idle
    }

    /** The tail is where the head and the count put it, and the slots between hold threads. */
    predicate RingOk(c: nat)
      requires Sized() && c < CPUS
      reads Ring, Head, Tail, Count
    {
      && Head[c] < RING && Count[c] <= RING && Tail[c] == SlotOf(Head[c], Count[c])
      && forall i :: 0 <= i < Count[c] ==> 0 <= Ring[c, SlotOf(Head[c], i)] < |Table|
    }

    predicate RingsOk()
      reads Ring, Head, Tail, Count
    {
      Sized() && forall c: nat {:trigger RingOk(c)} :: c < CPUS ==> RingOk(c)
    }

    predicate Valid()
      reads Ring, Head, Tail, Count, Current
    {
      && RingsOk()
      && (forall c :: 0 <= c < CPUS ==> Current[c] < |Table|)
      && forall c :: CpuCount <= c < CPUS ==> Current[c] < 0
    }

    /** The threads of one ring, from the head on. */
    function Contents(c: nat): (list: seq<nat>)
      requires Sized() && c < CPUS && RingOk(c)
      reads Ring, Head, Tail, Count
      ensures |list| == Count[c]
      ensures forall i :: 0 <= i < Count[c] ==> list[i] == Ring[c, SlotOf(Head[c], i)]
    {
      seq(Count[c], i requires 0 <= i < Count[c] && Sized() && c < CPUS && RingOk(c) reads Ring, Head, Tail, Count =>
        Ring[c, SlotOf(Head[c], i)])
    }

    function AllContents(): (lists: seq<seq<nat>>)
      requires RingsOk()
      reads Ring, Head, Tail, Count
      ensures |lists| == CPUS && forall c: nat :: c < CPUS ==> RingOk(c) && lists[c] == Contents(c)
    {
      seq(CPUS, c requires 0 <= c < CPUS && RingsOk() reads Ring, Head, Tail, Count => assert RingOk(c); Contents(c))
    }

    function View(): (s: Queues)
      requires Valid()
      reads this, Ring, Head, Tail, Count, Current, Idle
      ensures Shaped(Table, s) && Numbered(s)
    {
      Queues(CpuCount, AllContents(), Current[..], Idle[..], Ready, Home)
    }

    constructor (cpuCount: nat, table: Threads)
      ensures Valid() && Table == table && fresh(Ring) && fresh(Head) && fresh(Tail) && fresh(Count) && fresh(Current) && fresh(Idle)
      ensures View().cpuCount == (if cpuCount == 0 then 1 else if cpuCount > CPUS then CPUS else cpuCount)
      ensures forall c :: 0 <= c < CPUS ==> View().queues[c] == [] && View().current[c] == NOBODY && View().idle[c] == NOBODY
    {
      Table := table;
      CpuCount := if cpuCount == 0 then 1 else if cpuCount > CPUS then CPUS else cpuCount;
      Ring := new int[CPUS, RING]((_, _) => NOBODY);
      Head := new nat[CPUS](_ => 0);
      Tail := new nat[CPUS](_ => 0);
      Count := new nat[CPUS](_ => 0);
      Current := new int[CPUS](_ => NOBODY);
      Idle := new int[CPUS](_ => NOBODY);
      Ready, Home := {}, map[];
    }

    /** A thread goes into the slot at the tail. */
    method Push(c: nat, id: nat)
      requires Valid() && c < CPUS && Count[c] < RING && id < |Table|
      modifies Ring, Tail, Count
      ensures Valid() && View() == old(View()).(queues := old(View()).queues[c := old(View()).queues[c] + [id]])
    {
      ghost var s := View();
      assert RingOk(c);
      forall i: nat | i < Count[c] ensures SlotOf(Head[c], i) != Tail[c] {
        SlotsDiffer(Head[c], i, Count[c]);
      }
      SlotStep(Head[c], Count[c]);
      Ring[c, Tail[c]] := id;
      Tail[c] := (Tail[c] + 1) % RING;
      Count[c] := Count[c] + 1;
      forall k: nat | k < CPUS ensures RingOk(k) && Contents(k) == (if k == c then s.queues[c] + [id] else s.queues[k]) {
        assert k != c ==> old(RingOk(k));
      }
      assert AllContents() == s.queues[c := s.queues[c] + [id]];
    }

    /** The thread at the head leaves its slot empty. */
    method PopHead(c: nat) returns (id: nat)
      requires Valid() && c < CPUS && Count[c] > 0
      modifies Ring, Head, Count
      ensures Valid() && View() == Pop(old(View()), c) && id == old(View()).queues[c][0] && id < |Table|
    {
      ghost var s := View();
      assert RingOk(c);
      assert SlotOf(Head[c], 0) == Head[c];
      id := Ring[c, Head[c]];
      forall i: nat | 0 < i < Count[c] ensures SlotOf(Head[c], i) != Head[c] {
        SlotsDiffer(Head[c], 0, i);
      }
      ghost var second := (Head[c] + 1) % RING;
      forall i: nat | i < Count[c] ensures SlotOf(second, i) == SlotOf(Head[c], i + 1) {
        SlotStep(Head[c], i);
      }
      Ring[c, Head[c]] := NOBODY;
      Head[c] := (Head[c] + 1) % RING;
      Count[c] := Count[c] - 1;
      forall k: nat | k < CPUS ensures RingOk(k) && Contents(k) == (if k == c then s.queues[c][1..] else s.queues[k]) {
        assert k != c ==> old(RingOk(k));
      }
      assert AllContents() == s.queues[c := s.queues[c][1..]];
    }

    method AddRunnableThread(cpu: nat, id: nat) returns (ok: bool)
      requires Valid() && id < |Table|
      modifies this, Ring, Tail, Count
      ensures Valid() && (View(), ok) == Add(Table, old(View()), cpu, id)
    {
      hide RingOk, Contents, AllContents;
      var c := Clamp(cpu);
      if !Allowed(Table[id], CpuOf(View(), c)) {
        var target := 0;
        while target < CpuCount && !Allowed(Table[id], target)
          invariant target <= CpuCount
          invariant forall k :: 0 <= k < target ==> !Allowed(Table[id], k)
        {
          target := target + 1;
        }
        assert target == FirstAllowed(Table[id], 0, CpuCount);
        if target == CpuCount {
          return false;
        }
        c := target;
      }
      CountIs(c);
      if Count[c] >= RING {
        return false;
      }
      Push(c, id);
      Home := Home[id := CpuOf(View(), c)];
      Ready := Ready + {id};
      return true;
    }

    lemma CountIs(c: nat)
      requires Valid() && c < CPUS
      ensures RingOk(c) && |View().queues[c]| == Count[c] <= RING
    {
    }

    method PickNextThread(cpu: nat) returns (best: int)
      requires Valid()
      modifies this, Ring, Head, Tail, Count, Current
      ensures Valid() && (View(), best) == PickNext(Table, old(View()), cpu)
    {
      hide RingOk, Contents, AllContents, Add, Shaped;
      var c := Clamp(cpu);
      ghost var s := View();
      CountIs(c);
      var originalCount := Count[c];
      best := NOBODY;
      if originalCount == 0 {
        best := Idle[CpuOf(View(), c)];
        return;
      }
      var seen := 0;
      while seen < originalCount
        invariant Valid() && seen <= originalCount && originalCount - seen <= |View().queues[c]| && best < |Table|
        invariant CpuCount == s.cpuCount && View().cpuCount == s.cpuCount
        invariant PickLoop(Table, View(), c, originalCount - seen, best) == PickLoop(Table, s, c, originalCount, NOBODY)
      {
        CountIs(c);
        ghost var t := View();
        var candidate := PopHead(c);
        if best < 0 {
          best := candidate;
        } else if Table[candidate].priority > Table[best].priority {
          AddKeepsLength(Table, View(), CpuOf(View(), c), best, c);
          var added := AddRunnableThread(CpuOf(View(), c), best);
          best := candidate;
        } else {
          AddKeepsLength(Table, View(), CpuOf(View(), c), candidate, c);
          var added := AddRunnableThread(CpuOf(View(), c), candidate);
        }
        seen := seen + 1;
      }
      Current[CpuOf(View(), c)] := best;
      if best >= 0 {
        Ready := Ready - {best};
      }
    }

    static lemma AddKeepsLength(ts: Threads, s: Queues, cpu: nat, id: nat, c: nat)
      requires Shaped(ts, s) && id < |ts| && c < CPUS
      ensures |s.queues| == CPUS && |Add(ts, s, cpu, id).0.queues| == CPUS
      ensures |Add(ts, s, cpu, id).0.queues[c]| >= |s.queues[c]|
      ensures Add(ts, s, cpu, id).0.cpuCount == s.cpuCount
    {
    }

    method PreemptCurrent(cpu: nat) returns (next: int)
      requires Valid()
      modifies this, Ring, Head, Tail, Count, Current
      ensures Valid() && (View(), next) == Preempt(Table, old(View()), cpu)
    {
      hide RingOk, Contents, AllContents, Add, PickNext;
      var c := Clamp(cpu);
      if Current[c] >= 0 {
        Ready := Ready + {Current[c]};
        var added := AddRunnableThread(c, Current[c]);
      }
      next := PickNextThread(c);
    }

    method RegisterIdleThread(cpu: nat, id: nat)
      requires Valid() && id < |Table|
      modifies this, Idle
      ensures Valid() && View() == old(View()).(idle := old(View()).idle[Clamp(cpu) := id],
                                               ready := old(View()).ready - {id}, home := old(View()).home[id := Clamp(cpu)])
    {
      hide RingOk, Contents;
      Home := Home[id := Clamp(cpu)];
      Ready := Ready - {id};
      Idle[Clamp(cpu)] := id;
    }
  }
}
