/** The scheduler's timers: 128 nodes handed out once each, hung on a wheel of 64 lists by deadline,
    and taken off by the ticks. */
module TimerWheel {
  import opened Collections

  const SLOTS: nat := 64
  const TIMERS: nat := 128

  datatype Kind = Sleep | Callback
  datatype TimerState = Free | Queued | Expired
  datatype Timer = Timer(state: TimerState, kind: Kind, deadline: nat, thread: nat)

  const UNUSED: Timer := Timer(Free, Callback, 0, 0)

  datatype Wheel = Wheel(
    timers: seq<Timer>,
    lists: seq<seq<nat>>,
    now: nat,
    timerCount: nat,
    queuedTimers: nat,
    expiredTimers: nat,
    sleepQueueCount: nat,
    wakeCount: nat,
    rejected: nat,
    failed: nat,
    asleep: set<nat>)

  function Slot(tick: nat): (s: nat)
    ensures s < SLOTS
  {
    tick % SLOTS
  }

  // ----- Queueing -----

  function FirstFree(timers: seq<Timer>, from: nat): (i: nat)
    requires from <= |timers|
    ensures from <= i <= |timers|
    ensures i < |timers| ==> timers[i].state == Free
    ensures forall k :: from <= k < i ==> timers[k].state != Free
    decreases |timers| - from
  {
    if from == |timers| || timers[from].state == Free then from else FirstFree(timers, from + 1)
  }

  function Place(s: Wheel, kind: Kind, deadline: nat, thread: nat): (Wheel, bool)
    requires |s.lists| == SLOTS
  {
    var i := FirstFree(s.timers, 0);
    if i == |s.timers| then (s.(failed := s.failed + 1), false)
    else
      (s.(timers := s.timers[i := Timer(Queued, kind, deadline, thread)],
       lists := s.lists[Slot(deadline) := [i] + s.lists[Slot(deadline)]],
       timerCount := s.timerCount + 1, queuedTimers := s.queuedTimers + 1), true)
  }

  /** A thread sleeps until a tick that lies ahead. */
  function SleepUntil(s: Wheel, thread: nat, deadline: nat): (Wheel, bool)
    requires |s.lists| == SLOTS
  {
    if deadline <= s.now then (s.(rejected := s.rejected + 1), false)
    else
      var (t, ok) := Place(s, Sleep, deadline, thread);
      if ok then (t.(asleep := t.asleep + {thread}, sleepQueueCount := t.sleepQueueCount + 1), true) else (t, false)
  }

  function QueueTimer(s: Wheel, deadline: nat): (Wheel, bool)
    requires |s.lists| == SLOTS
  {
    if deadline <= s.now then (s, false) else Place(s, Callback, deadline, 0)
  }

  // ----- Ticks -----

  predicate IsDue(timers: seq<Timer>, i: nat, now: nat) {
    i < |timers| && timers[i].deadline <= now
  }

  function Due(timers: seq<Timer>, list: seq<nat>, now: nat): (r: seq<nat>)
    ensures forall i: nat :: i in r <==> i in list && IsDue(timers, i, now)
  {
    if list == [] then []
    else (if IsDue(timers, list[0], now) then [list[0]] else []) + Due(timers, list[1..], now)
  }

  function Kept(timers: seq<Timer>, list: seq<nat>, now: nat): (r: seq<nat>)
    ensures forall i: nat :: i in r <==> i in list && !IsDue(timers, i, now)
  {
    if list == [] then []
    else (if IsDue(timers, list[0], now) then [] else [list[0]]) + Kept(timers, list[1..], now)
  }

  function Minus(n: nat, k: nat): nat {
    if n < k then 0 else n - k
  }

  /** One node leaves the wheel: a sleeper's thread is woken. */
  function Expire(s: Wheel, i: nat): Wheel
    requires i < |s.timers|
  {
    var t := s.(timers := s.timers[i := s.timers[i].(state := Expired)],
             expiredTimers := s.expiredTimers + 1, queuedTimers := Minus(s.queuedTimers, 1));
    if s.timers[i].kind == Sleep
    then t.(asleep := t.asleep - {s.timers[i].thread}, sleepQueueCount := Minus(t.sleepQueueCount, 1), wakeCount := t.wakeCount + 1)
    else t
  }

  function ExpireAll(s: Wheel, due: seq<nat>): (t: Wheel)
    requires forall i :: i in due ==> i < |s.timers|
    ensures |t.timers| == |s.timers|
    decreases |due|
  {
    if due == [] then s
    else
      assert due[0] in due;
      assert forall i :: i in due[1..] ==> i in due;
      ExpireAll(Expire(s, due[0]), due[1..])
  }

  /** What a tick takes off the wheel: of the one list the tick falls on, what is due. */
  function TickDue(s: Wheel, now: nat): (r: seq<nat>)
    requires |s.lists| == SLOTS
    ensures forall i: nat :: i in r <==> i in s.lists[Slot(now)] && IsDue(s.timers, i, now)
  {
    Due(s.timers, s.lists[Slot(now)], now)
  }

  function Tick(s: Wheel, now: nat): Wheel
    requires |s.lists| == SLOTS
  {
    var t := s.(now := now, lists := s.lists[Slot(now) := Kept(s.timers, s.lists[Slot(now)], now)]);
    ExpireAll(t, TickDue(s, now))
  }

  // ----- Counting -----

  datatype Tally = Waiting | Done | Sleepers

  predicate Tallied(y: Tally, t: Timer) {
    match y
    case Waiting => t.state == Queued
    case Done => t.state == Expired
    case Sleepers => t.state == Queued && t.kind == Sleep
  }

  function Count(y: Tally, timers: seq<Timer>): (n: nat)
    ensures n <= |timers|
  {
    if timers == [] then 0 else Count(y, timers[..|timers| - 1]) + One(Tallied(y, timers[|timers| - 1]))
  }

  function One(b: bool): nat { if b then 1 else 0 }

  lemma {:induction false} CountUpdate(y: Tally, timers: seq<Timer>, i: nat, t: Timer)
    requires i < |timers|
    ensures Count(y, timers[i := t]) + One(Tallied(y, timers[i])) == Count(y, timers) + One(Tallied(y, t))
    decreases |timers|
  {
    var front := timers[..|timers| - 1];
    if i == |timers| - 1 {
      assert timers[i := t][..|timers| - 1] == front;
    } else {
      assert timers[i := t][..|timers| - 1] == front[i := t];
      CountUpdate(y, front, i, t);
    }
  }

  // ----- The invariant -----

  predicate Counted(s: Wheel) {
    && s.queuedTimers == Count(Waiting, s.timers)
    && s.expiredTimers == Count(Done, s.timers)
    && s.sleepQueueCount == Count(Sleepers, s.timers)
    && s.timerCount == s.queuedTimers + s.expiredTimers
  }

  /** Timers are used from the front and never freed. */
  predicate Used(s: Wheel) {
    |s.timers| == TIMERS && s.timerCount <= TIMERS
    && forall i :: 0 <= i < TIMERS ==> (s.timers[i].state != Free <==> i < s.timerCount)
  }

  predicate Hangs(s: Wheel, i: nat, slot: nat)
    requires slot < |s.lists|
  {
    i < |s.timers| && s.timers[i].state == Queued && Slot(s.timers[i].deadline) == slot
  }

  predicate ListOk(s: Wheel, slot: nat)
    requires slot < |s.lists|
  {
    NoDuplicates(s.lists[slot]) && forall i :: i in s.lists[slot] ==> Hangs(s, i, slot)
  }

  predicate IsHung(s: Wheel, i: nat)
    requires |s.lists| == SLOTS && i < |s.timers|
  {
    s.timers[i].state == Queued ==> i in s.lists[Slot(s.timers[i].deadline)]
  }

  /** Every queued timer hangs in the list of its deadline, once, and nothing else hangs anywhere. */
  predicate Hung(s: Wheel) {
    && |s.lists| == SLOTS
    && (forall slot: nat {:trigger ListOk(s, slot)} :: slot < SLOTS ==> ListOk(s, slot))
    && (forall i: nat {:trigger IsHung(s, i)} :: i < |s.timers| ==> IsHung(s, i))
  }

  predicate Sleeper(s: Wheel, i: nat, thread: nat) {
    i < |s.timers| && Tallied(Sleepers, s.timers[i]) && s.timers[i].thread == thread
  }

  predicate WillWake(s: Wheel, thread: nat) {
    exists i: nat :: i < |s.timers| && Sleeper(s, i, thread)
  }

  /** No sleeping thread is forgotten: a timer that will wake it is queued. */
  predicate Backed(s: Wheel) {
    forall thread :: thread in s.asleep ==> WillWake(s, thread)
  }

  predicate Inv(s: Wheel) {
    Counted(s) && Used(s) && Hung(s) && Backed(s)
  }

  /** No queued timer's time has come. */
  predicate Timely(s: Wheel) {
    forall i :: 0 <= i < |s.timers| && s.timers[i].state == Queued ==> s.timers[i].deadline > s.now
  }

  // ----- What queueing keeps -----

  lemma FirstFreeIsCount(s: Wheel)
    requires Used(s)
    ensures FirstFree(s.timers, 0) == s.timerCount
  {
    var i := FirstFree(s.timers, 0);
    if s.timerCount < TIMERS {
      assert s.timers[s.timerCount].state == Free;
    }
    if i < TIMERS {
      assert s.timers[i].state == Free;
    }
  }

  lemma PlaceCounted(s: Wheel, kind: Kind, deadline: nat, thread: nat)
    requires Inv(s) && s.timerCount < TIMERS
    ensures var t := Place(s, kind, deadline, thread).0;
            t.queuedTimers == Count(Waiting, t.timers) && t.expiredTimers == Count(Done, t.timers)
            && s.sleepQueueCount + One(kind == Sleep) == Count(Sleepers, t.timers)
  {
    hide Hung, Backed, Count;
    FirstFreeIsCount(s);
    var node := Timer(Queued, kind, deadline, thread);
    CountUpdate(Waiting, s.timers, s.timerCount, node);
    CountUpdate(Done, s.timers, s.timerCount, node);
    CountUpdate(Sleepers, s.timers, s.timerCount, node);
  }

  lemma PlaceHung(s: Wheel, kind: Kind, deadline: nat, thread: nat)
    requires Inv(s) && s.timerCount < TIMERS
    ensures Hung(Place(s, kind, deadline, thread).0)
  {
    hide Counted, Backed;
    FirstFreeIsCount(s);
    var t := Place(s, kind, deadline, thread).0;
    var at := s.timerCount;
    forall slot: nat | slot < SLOTS ensures ListOk(t, slot) {
      assert ListOk(s, slot);
      assert at !in s.lists[slot];
      forall i | i in t.lists[slot] ensures Hangs(t, i, slot) {
        if i != at {
          assert Hangs(s, i, slot);
        }
      }
    }
    forall i: nat | i < |t.timers| ensures IsHung(t, i) {
      assert IsHung(s, i);
    }
  }

  lemma PlaceUsed(s: Wheel, kind: Kind, deadline: nat, thread: nat)
    requires Inv(s) && s.timerCount < TIMERS
    ensures var (t, ok) := Place(s, kind, deadline, thread);
            && ok && Used(t) && t.timerCount == s.timerCount + 1 && t.queuedTimers == s.queuedTimers + 1
            && t.timers == s.timers[s.timerCount := Timer(Queued, kind, deadline, thread)]
            && t.expiredTimers == s.expiredTimers && t.sleepQueueCount == s.sleepQueueCount && t.asleep == s.asleep && t.now == s.now
  {
    hide Counted, Backed, Hung;
    FirstFreeIsCount(s);
  }

  lemma BackedGrows(s: Wheel, t: Wheel)
    requires Backed(s) && |t.timers| == |s.timers|
    requires forall i: nat :: i < |s.timers| && Tallied(Sleepers, s.timers[i]) ==> t.timers[i] == s.timers[i]
    requires forall thread :: thread in t.asleep ==> thread in s.asleep || WillWake(t, thread)
    ensures Backed(t)
  {
    forall thread | thread in t.asleep ensures WillWake(t, thread) {
      if thread in s.asleep {
        assert WillWake(s, thread);
        var i: nat :| i < |s.timers| && Sleeper(s, i, thread);
        assert Sleeper(t, i, thread);
      }
    }
  }

  lemma HungSame(s: Wheel, t: Wheel)
    requires Hung(s) && t.timers == s.timers && t.lists == s.lists
    ensures Hung(t)
  {
    forall slot: nat | slot < SLOTS ensures ListOk(t, slot) {
      assert ListOk(s, slot);
      forall i | i in t.lists[slot] ensures Hangs(t, i, slot) {
        assert Hangs(s, i, slot);
      }
    }
    forall i: nat | i < |t.timers| ensures IsHung(t, i) {
      assert IsHung(s, i);
    }
  }

  /** A sleep is taken exactly when its deadline lies ahead and one of the 128 timers is left. */
  lemma SleepUntilExact(s: Wheel, thread: nat, deadline: nat)
    requires Inv(s)
    ensures var (t, ok) := SleepUntil(s, thread, deadline);
            && Inv(t) && t.now == s.now && (Timely(s) ==> Timely(t))
            && (ok <==> deadline > s.now && s.timerCount < 128)
            && (ok ==> thread in t.asleep && Sleeper(t, s.timerCount, thread) && t.timers[s.timerCount].deadline == deadline
                       && t.timers == s.timers[s.timerCount := t.timers[s.timerCount]])
            && (!ok ==> t.timers == s.timers && t.lists == s.lists && t.asleep == s.asleep)
  {
    hide Counted, Used, Hung, Backed, Place, Count;
    InvLists(s);
    var (t, ok) := SleepUntil(s, thread, deadline);
    if deadline > s.now && s.timerCount < TIMERS {
      PlaceUsed(s, Sleep, deadline, thread);
      PlaceHung(s, Sleep, deadline, thread);
      PlaceCounted(s, Sleep, deadline, thread);
      var p := Place(s, Sleep, deadline, thread).0;
      HungSame(p, t);
      UsedSame(p, t);
      UsedSize(s);
      assert Sleeper(t, s.timerCount, thread);
      assert WillWake(t, thread);
      BackedGrows(s, t);
      CountedNow(s, t, 1);
    } else {
      UsedSize(s);
      if deadline > s.now {
        Refused(s, Sleep, deadline, thread);
      }
      SameInv(s, t);
    }
  }

  lemma UsedSize(s: Wheel)
    requires Used(s)
    ensures |s.timers| == TIMERS && s.timerCount <= TIMERS
    ensures forall i :: 0 <= i < TIMERS ==> (s.timers[i].state != Free <==> i < s.timerCount)
  {
  }

  lemma UsedSame(s: Wheel, t: Wheel)
    requires Used(s) && t.timers == s.timers && t.timerCount == s.timerCount
    ensures Used(t)
  {
  }

  lemma CountedNow(s: Wheel, t: Wheel, sleepers: nat)
    requires Counted(s)
    requires t.queuedTimers == Count(Waiting, t.timers) && t.expiredTimers == Count(Done, t.timers)
    requires t.sleepQueueCount == Count(Sleepers, t.timers)
    requires t.timerCount == s.timerCount + 1 && t.queuedTimers == s.queuedTimers + 1 && t.expiredTimers == s.expiredTimers
    ensures Counted(t)
  {
  }

  lemma Refused(s: Wheel, kind: Kind, deadline: nat, thread: nat)
    requires Inv(s) && s.timerCount == TIMERS
    ensures Place(s, kind, deadline, thread) == (s.(failed := s.failed + 1), false)
  {
    FirstFreeIsCount(s);
  }

  lemma SameInv(s: Wheel, t: Wheel)
    requires Inv(s) && t == s.(rejected := t.rejected, failed := t.failed)
    ensures Inv(t)
  {
    HungSame(s, t);
    BackedGrows(s, t);
  }

  lemma QueueTimerExact(s: Wheel, deadline: nat)
    requires Inv(s)
    ensures var (t, ok) := QueueTimer(s, deadline);
            && Inv(t) && t.now == s.now && (Timely(s) ==> Timely(t))
            && (ok <==> deadline > s.now && s.timerCount < 128)
            && (ok ==> |t.timers| == TIMERS && t.timers == s.timers[s.timerCount := Timer(Queued, Callback, deadline, 0)])
            && (!ok ==> t.timers == s.timers && t.lists == s.lists) && t.asleep == s.asleep
  {
    hide Counted, Used, Hung, Backed, Place, Count;
    InvLists(s);
    var (t, ok) := QueueTimer(s, deadline);
    UsedSize(s);
    if deadline > s.now && s.timerCount < TIMERS {
      PlaceUsed(s, Callback, deadline, 0);
      PlaceHung(s, Callback, deadline, 0);
      PlaceCounted(s, Callback, deadline, 0);
      BackedGrows(s, t);
      CountedNow(s, t, 0);
    } else if deadline > s.now {
      Refused(s, Callback, deadline, 0);
      SameInv(s, t);
    }
  }

  // ----- What a tick keeps -----

  predicate AllQueued(s: Wheel, due: seq<nat>) {
    NoDuplicates(due) && forall i :: i in due ==> i < |s.timers| && s.timers[i].state == Queued
  }

  /** No saturating subtraction clips: the node that leaves was counted. */
  lemma ExpireKeeps(s: Wheel, i: nat)
    requires Counted(s) && Used(s) && Backed(s) && i < |s.timers| && s.timers[i].state == Queued
    ensures var t := Expire(s, i);
            && Counted(t) && Used(t) && Backed(t)
            && t.timers == s.timers[i := s.timers[i].(state := Expired)] && t.lists == s.lists && t.now == s.now
            && t.queuedTimers == s.queuedTimers - 1 && t.wakeCount + t.sleepQueueCount == s.wakeCount + s.sleepQueueCount
            && (s.timers[i].kind == Sleep ==> t.sleepQueueCount == s.sleepQueueCount - 1 && s.timers[i].thread !in t.asleep)
  {
    hide Count, Backed;
    var t := Expire(s, i);
    var node := s.timers[i].(state := Expired);
    CountUpdate(Waiting, s.timers, i, node);
    CountUpdate(Done, s.timers, i, node);
    CountUpdate(Sleepers, s.timers, i, node);
    ExpireBacked(s, i);
  }

  lemma ExpireBacked(s: Wheel, i: nat)
    requires Backed(s) && i < |s.timers| && s.timers[i].state == Queued
    ensures Backed(Expire(s, i))
  {
    var t := Expire(s, i);
    forall thread | thread in t.asleep ensures WillWake(t, thread) {
      assert WillWake(s, thread);
      var k: nat :| k < |s.timers| && Sleeper(s, k, thread);
      assert k != i;
      assert Sleeper(t, k, thread);
    }
  }

  lemma {:induction false} ExpireAllKeeps(s: Wheel, due: seq<nat>)
    requires Counted(s) && Used(s) && Backed(s) && AllQueued(s, due)
    ensures var t := ExpireAll(s, due);
            && Counted(t) && Used(t) && Backed(t) && t.lists == s.lists && t.now == s.now
            && (forall i :: 0 <= i < |s.timers| ==> t.timers[i] == if i in due then s.timers[i].(state := Expired) else s.timers[i])
            && t.asleep <= s.asleep && t.wakeCount + t.sleepQueueCount == s.wakeCount + s.sleepQueueCount
            && (forall i :: i in due && s.timers[i].kind == Sleep ==> s.timers[i].thread !in t.asleep)
    decreases |due|
  {
    hide Counted, Used, Backed;
    if due != [] {
      assert due[0] in due;
      ExpireKeeps(s, due[0]);
      var u := Expire(s, due[0]);
      forall i | i in due[1..] ensures i < |u.timers| && u.timers[i].state == Queued {
        assert i in due && i != due[0];
      }
      ExpireAllKeeps(u, due[1..]);
      forall i | 0 <= i < |s.timers|
        ensures ExpireAll(s, due).timers[i] == if i in due then s.timers[i].(state := Expired) else s.timers[i]
      {
        assert i in due <==> i == due[0] || i in due[1..];
      }
    }
  }

  lemma {:induction false} FiltersDistinct(timers: seq<Timer>, list: seq<nat>, now: nat)
    requires NoDuplicates(list)
    ensures NoDuplicates(Due(timers, list, now)) && NoDuplicates(Kept(timers, list, now))
    decreases |list|
  {
    if list != [] {
      FiltersDistinct(timers, list[1..], now);
      assert list[0] !in list[1..];
    }
  }

  /** A tick expires, of the list it falls on, exactly what is due; everything else stays as it was;
      a thread whose sleep is over is awake, and counted as woken instead of as asleep. */
  lemma TickExact(s: Wheel, now: nat)
    requires Inv(s)
    ensures var t := Tick(s, now);
            && Inv(t) && t.now == now && NoDuplicates(TickDue(s, now)) && t.asleep <= s.asleep
            && t.wakeCount + t.sleepQueueCount == s.wakeCount + s.sleepQueueCount
            && (forall i :: i in TickDue(s, now) ==> i < |s.timers| && s.timers[i].state == Queued && s.timers[i].deadline <= now)
            && (forall i :: 0 <= i < TIMERS ==>
                  t.timers[i] == if i in TickDue(s, now) then s.timers[i].(state := Expired) else s.timers[i])
            && (forall i :: i in TickDue(s, now) && s.timers[i].kind == Sleep ==> s.timers[i].thread !in t.asleep)
  {
    hide Counted, Used, Backed;
    UsedSize(s);
    var slot := Slot(now);
    var u := s.(now := now, lists := s.lists[slot := Kept(s.timers, s.lists[slot], now)]);
    var due := TickDue(s, now);
    assert ListOk(s, slot);
    FiltersDistinct(s.timers, s.lists[slot], now);
    forall i | i in due ensures i < |s.timers| && s.timers[i].state == Queued {
      assert Hangs(s, i, slot);
    }
    SameBut(s, u);
    ExpireAllKeeps(u, due);
    TickHung(s, now, Tick(s, now));
  }

  lemma SameBut(s: Wheel, u: Wheel)
    requires Counted(s) && Used(s) && Backed(s) && u == s.(now := u.now, lists := u.lists)
    ensures Counted(u) && Used(u) && Backed(u)
  {
    BackedGrows(s, u);
  }

  lemma TickHung(s: Wheel, now: nat, t: Wheel)
    requires Hung(s) && |t.timers| == |s.timers|
    requires t.lists == s.lists[Slot(now) := Kept(s.timers, s.lists[Slot(now)], now)]
    requires forall i :: 0 <= i < |s.timers| ==>
      t.timers[i] == if i in TickDue(s, now) then s.timers[i].(state := Expired) else s.timers[i]
    ensures Hung(t)
  {
    var here := Slot(now);
    assert ListOk(s, here);
    FiltersDistinct(s.timers, s.lists[here], now);
    forall slot: nat | slot < SLOTS ensures ListOk(t, slot) {
      assert ListOk(s, slot);
      forall i | i in t.lists[slot] ensures Hangs(t, i, slot) {
        assert i in s.lists[slot];
        assert Hangs(s, i, slot);
        if slot != here {
          assert i in s.lists[here] ==> Hangs(s, i, here);
        }
      }
    }
    forall i: nat | i < |t.timers| ensures IsHung(t, i) {
      assert IsHung(s, i);
    }
  }

  // ----- Who is woken -----

  /** A sleep adds its thread to the sleepers and wakes nobody. */
  lemma SleepersGrow(s: Wheel, thread: nat, deadline: nat)
    requires |s.lists| == 64
    ensures var (t, ok) := SleepUntil(s, thread, deadline); t.asleep == if ok then s.asleep + {thread} else s.asleep
  {
  }

  /** The timers a tick expires, from the wheel alone: queued, due, and hung on the list of the tick, which is
      that of every 64th deadline. */
  predicate DueNow(s: Wheel, now: nat, i: nat) {
    i < |s.timers| && s.timers[i].state == Queued && s.timers[i].deadline <= now && s.timers[i].deadline % 64 == now % 64
  }

  lemma TickDueIs(s: Wheel, now: nat, i: nat)
    requires Inv(s)
    ensures i in TickDue(s, now) <==> DueNow(s, now, i)
  {
    hide Counted, Used, Backed;
    var slot := now % 64;
    assert ListOk(s, slot);
    if i in s.lists[slot] {
      assert Hangs(s, i, slot);
    }
    if i < |s.timers| {
      assert IsHung(s, i);
    }
  }

  /** A thread that slept on one of these timers. */
  ghost predicate SleptOn(timers: seq<Timer>, due: seq<nat>, thread: nat) {
    exists i: nat :: i in due && i < |timers| && timers[i].kind == Sleep && timers[i].thread == thread
  }

  lemma SleptOnStep(before: seq<Timer>, after: seq<Timer>, due: seq<nat>, thread: nat)
    requires due != [] && due[0] < |before| == |after|
    requires forall k: nat :: k < |before| ==> after[k].kind == before[k].kind && after[k].thread == before[k].thread
    ensures SleptOn(before, due, thread)
       <==> (before[due[0]].kind == Sleep && before[due[0]].thread == thread) || SleptOn(after, due[1..], thread)
  {
    if SleptOn(after, due[1..], thread) {
      var j: nat :| j in due[1..] && j < |after| && after[j].kind == Sleep && after[j].thread == thread;
      assert j in due && before[j].kind == Sleep;
    }
    assert due == [due[0]] + due[1..];
  }

  lemma {:induction false} ExpireAllAsleep(s: Wheel, due: seq<nat>)
    requires forall i :: i in due ==> i < |s.timers|
    ensures forall thread :: thread in ExpireAll(s, due).asleep <==> thread in s.asleep && !SleptOn(s.timers, due, thread)
    decreases |due|
  {
    hide SleptOn;
    if due == [] {
      forall thread ensures !SleptOn(s.timers, due, thread) {
        NobodySlept(s.timers, thread);
      }
    } else {
      assert due[0] in due && forall k :: k in due[1..] ==> k in due;
      var u := Expire(s, due[0]);
      ExpireAllAsleep(u, due[1..]);
      forall thread: nat
        ensures thread in ExpireAll(s, due).asleep <==> thread in s.asleep && !SleptOn(s.timers, due, thread)
      {
        SleptOnStep(s.timers, u.timers, due, thread);
      }
    }
  }

  lemma NobodySlept(timers: seq<Timer>, thread: nat)
    ensures !SleptOn(timers, [], thread)
  {
  }

  /** A tick expires exactly those timers, and exactly the threads that slept on one of them wake. */
  lemma TickIs(s: Wheel, now: nat)
    requires Inv(s)
    ensures var t := Tick(s, now);
            && t.now == now && |t.timers| == |s.timers|
            && (forall i: nat :: i < |s.timers| ==>
                                   t.timers[i] == if DueNow(s, now, i) then s.timers[i].(state := Expired) else s.timers[i])
            && (forall thread :: thread in t.asleep <==>
                                   thread in s.asleep
                                   && !exists i: nat :: DueNow(s, now, i) && s.timers[i].kind == Sleep && s.timers[i].thread == thread)
  {
    hide Counted, Used, Backed, Hung;
    TickExact(s, now);
    UsedSize(s);
    InvLists(s);
    var due := TickDue(s, now);
    forall i: nat ensures i in due <==> DueNow(s, now, i) {
      TickDueIs(s, now, i);
    }
    var u := s.(now := now, lists := s.lists[Slot(now) := Kept(s.timers, s.lists[Slot(now)], now)]);
    ExpireAllAsleep(u, due);
  }

  // ----- On time -----

  predicate OnTheTick(s: Wheel, now: nat, i: nat)
    requires i < |s.timers|
  {
    s.timers[i].state == Queued && s.timers[i].deadline <= now ==> Slot(s.timers[i].deadline) == Slot(now)
  }

  /** After a tick no queued timer is overdue exactly when everything overdue was hung on the list the
      tick fell on: a tick that skips over some ticks can leave timers late. */
  lemma TickTimelyExact(s: Wheel, now: nat)
    requires Inv(s)
    ensures Timely(Tick(s, now)) <==> forall i: nat {:trigger OnTheTick(s, now, i)} :: i < |s.timers| ==> OnTheTick(s, now, i)
  {
    TickExact(s, now);
    UsedSize(s);
    var t := Tick(s, now);
    UsedSize(t);
    var here := Slot(now);
    assert ListOk(s, here);
    forall i: nat | i < |s.timers|
      ensures OnTheTick(s, now, i) <==> !(t.timers[i].state == Queued && t.timers[i].deadline <= now)
    {
      assert IsHung(s, i);
      if i in s.lists[here] {
        assert Hangs(s, i, here);
      }
    }
  }

  /** When time moves by at most one, whatever a tick expires has its deadline at that very tick, and
      nothing is left overdue. */
  lemma UnitTick(s: Wheel, now: nat)
    requires Inv(s) && Timely(s) && s.now <= now <= s.now + 1
    ensures Timely(Tick(s, now))
    ensures forall i :: i in TickDue(s, now) ==> i < |s.timers| && s.timers[i].deadline == now
    ensures forall i: nat :: i < |s.timers| && s.timers[i].state == Queued && s.timers[i].deadline == now ==> i in TickDue(s, now)
  {
    hide Counted, Backed;
    TickExact(s, now);
    TickTimelyExact(s, now);
    forall i: nat | i < |s.timers| && s.timers[i].state == Queued && s.timers[i].deadline == now ensures i in TickDue(s, now) {
      assert IsHung(s, i);
    }
    forall i: nat | i < |s.timers| ensures OnTheTick(s, now, i) {
    }
  }

  // ----- Runs -----

  datatype Op = SleepOp(thread: nat, deadline: nat) | TimerOp(deadline: nat) | TickOp(now: nat)

  function Step(s: Wheel, op: Op): Wheel
    requires |s.lists| == SLOTS
  {
    match op
    case SleepOp(thread, deadline) => SleepUntil(s, thread, deadline).0
    case TimerOp(deadline) => QueueTimer(s, deadline).0
    case TickOp(now) => Tick(s, now)
  }

  /** An expiry: which timer, on which tick. */
  datatype Event = Event(timer: nat, tick: nat)

  function Events(due: seq<nat>, now: nat): (r: seq<Event>)
    ensures |r| == |due| && forall k :: 0 <= k < |due| ==> r[k] == Event(due[k], now)
  {
    seq(|due|, k requires 0 <= k < |due| => Event(due[k], now))
  }

  function StepLog(s: Wheel, op: Op): seq<Event>
    requires |s.lists| == SLOTS
  {
    if op.TickOp? then Events(TickDue(s, op.now), op.now) else []
  }

  /** Each expired timer is in the log once, others never; and none of them expired early. */
  predicate Logged(s: Wheel, log: seq<Event>) {
    && (forall a :: 0 <= a < |log| ==>
          log[a].timer < |s.timers| && s.timers[log[a].timer].state == Expired && s.timers[log[a].timer].deadline <= log[a].tick)
    && (forall a, b :: 0 <= a < b < |log| ==> log[a].timer != log[b].timer)
    && (forall i: nat :: i < |s.timers| && s.timers[i].state == Expired ==> InLog(log, i))
  }

  predicate InLog(log: seq<Event>, i: nat) {
    exists a :: 0 <= a < |log| && log[a].timer == i
  }

  predicate OnTime(s: Wheel, log: seq<Event>) {
    forall a :: 0 <= a < |log| ==> log[a].timer < |s.timers| && s.timers[log[a].timer].deadline == log[a].tick
  }

  predicate UnitStep(s: Wheel, op: Op) {
    op.TickOp? ==> s.now <= op.now <= s.now + 1
  }

  lemma InvLists(s: Wheel)
    requires Inv(s)
    ensures |s.lists| == SLOTS && |s.timers| == TIMERS
  {
  }

  lemma StepInv(s: Wheel, op: Op)
    requires Inv(s) && |s.lists| == SLOTS
    ensures Inv(Step(s, op)) && (Timely(s) && UnitStep(s, op) ==> Timely(Step(s, op)))
  {
    hide Inv, Timely, SleepUntil, QueueTimer, Tick;
    match op
    case SleepOp(thread, deadline) => SleepUntilExact(s, thread, deadline);
    case TimerOp(deadline) => QueueTimerExact(s, deadline);
    case TickOp(now) =>
      TickExact(s, now);
      if Timely(s) && UnitStep(s, op) {
        UnitTick(s, now);
      }
  }

  /** Queueing changes one free timer. */
  lemma QueueingSpares(s: Wheel, op: Op)
    requires Inv(s) && |s.lists| == SLOTS && !op.TickOp?
    ensures var t := Step(s, op);
            |t.timers| == |s.timers| && forall i :: 0 <= i < |s.timers| && s.timers[i].state != Free ==> t.timers[i] == s.timers[i]
    ensures forall i :: 0 <= i < |s.timers| && Step(s, op).timers[i].state == Expired ==> s.timers[i].state == Expired
  {
    hide Counted, Hung, Backed, Timely, SleepUntil, QueueTimer;
    UsedSize(s);
    match op
    case SleepOp(thread, deadline) => SleepUntilExact(s, thread, deadline);
    case TimerOp(deadline) => QueueTimerExact(s, deadline);
  }

  lemma StepLogged(s: Wheel, log: seq<Event>, op: Op)
    requires Inv(s) && |s.lists| == SLOTS && Logged(s, log)
    ensures Logged(Step(s, op), log + StepLog(s, op))
    ensures OnTime(s, log) && Timely(s) && UnitStep(s, op) ==> OnTime(Step(s, op), log + StepLog(s, op))
  {
    hide Counted, Used, Hung, Backed, Step, Tick;
    InvLists(s);
    var t := Step(s, op);
    var more := log + StepLog(s, op);
    StepInv(s, op);
    InvLists(t);
    if op.TickOp? {
      StepIsTick(s, op);
      TickExact(s, op.now);
      if Timely(s) && UnitStep(s, op) {
        UnitTick(s, op.now);
      }
      TickLogged(s, log, op.now, t);
    } else {
      assert more == log;
      QueueingSpares(s, op);
    }
  }

  lemma StepIsTick(s: Wheel, op: Op)
    requires |s.lists| == SLOTS && op.TickOp?
    ensures Step(s, op) == Tick(s, op.now)
  {
  }

  lemma TickLogged(s: Wheel, log: seq<Event>, now: nat, t: Wheel)
    requires |s.lists| == SLOTS && |s.timers| == |t.timers| == TIMERS && Logged(s, log)
    requires var due := TickDue(s, now);
             && NoDuplicates(due)
             && (forall i :: i in due ==> i < |s.timers| && s.timers[i].state == Queued && s.timers[i].deadline <= now)
             && (forall i :: 0 <= i < TIMERS ==> t.timers[i] == if i in due then s.timers[i].(state := Expired) else s.timers[i])
    ensures var more := log + Events(TickDue(s, now), now);
            Logged(t, more)
            && (OnTime(s, log) && (forall i :: i in TickDue(s, now) ==> i < |s.timers| && s.timers[i].deadline == now) ==> OnTime(t, more))
  {
    var due := TickDue(s, now);
    var more := log + Events(due, now);
    forall i: nat | i < |t.timers| && t.timers[i].state == Expired ensures InLog(more, i) {
      if i in due {
        var k: nat :| k < |due| && due[k] == i;
        assert more[|log| + k].timer == i;
      } else {
        assert InLog(log, i);
        var a :| 0 <= a < |log| && log[a].timer == i;
        assert more[a].timer == i;
      }
    }
    forall a | 0 <= a < |more|
      ensures more[a].timer < |t.timers| && t.timers[more[a].timer].state == Expired && t.timers[more[a].timer].deadline <= more[a].tick
    {
      if a < |log| {
        assert more[a] == log[a];
      } else {
        assert more[a] == Event(due[a - |log|], now) && due[a - |log|] in due;
      }
    }
    forall a, b | 0 <= a < b < |more| ensures more[a].timer != more[b].timer {
      if b >= |log| {
        assert more[b].timer == due[b - |log|];
        if a < |log| {
          assert more[a] == log[a];
        }
      }
    }
  }

  function Run(s: Wheel, ops: seq<Op>): Wheel
    requires Inv(s)
    decreases |ops|
  {
    if ops == [] then s
    else
      InvLists(s);
      StepInv(s, ops[0]);
      Run(Step(s, ops[0]), ops[1..])
  }

  function RunLog(s: Wheel, ops: seq<Op>): seq<Event>
    requires Inv(s)
    decreases |ops|
  {
    if ops == [] then []
    else
      InvLists(s);
      StepInv(s, ops[0]);
      StepLog(s, ops[0]) + RunLog(Step(s, ops[0]), ops[1..])
  }

  predicate UnitRun(s: Wheel, ops: seq<Op>)
    requires Inv(s)
    decreases |ops|
  {
    if ops == [] then true
    else
      InvLists(s);
      StepInv(s, ops[0]);
      UnitStep(s, ops[0]) && UnitRun(Step(s, ops[0]), ops[1..])
  }

  lemma {:induction false} RunKeeps(s: Wheel, log: seq<Event>, ops: seq<Op>)
    requires Inv(s) && Logged(s, log)
    ensures var t := Run(s, ops); var all := log + RunLog(s, ops);
            && Inv(t) && Logged(t, all)
            && (Timely(s) && OnTime(s, log) && UnitRun(s, ops) ==> Timely(t) && OnTime(t, all))
    decreases |ops|
  {
    hide Inv, Logged, Timely, OnTime, Step, StepLog, UnitStep;
    if ops == [] {
      assert log + RunLog(s, ops) == log;
    } else {
      InvLists(s);
      StepInv(s, ops[0]);
      StepLogged(s, log, ops[0]);
      RunKeeps(Step(s, ops[0]), log + StepLog(s, ops[0]), ops[1..]);
      assert log + RunLog(s, ops) == log + StepLog(s, ops[0]) + RunLog(Step(s, ops[0]), ops[1..]);
    }
  }

  /** The wheel after initialisation. */
  predicate IsInitial(s: Wheel) {
    && |s.timers| == TIMERS && (forall i :: 0 <= i < TIMERS ==> s.timers[i] == UNUSED)
    && |s.lists| == SLOTS && (forall i :: 0 <= i < SLOTS ==> s.lists[i] == [])
    && s.now == 0 && s.timerCount == 0 && s.queuedTimers == 0 && s.expiredTimers == 0
    && s.sleepQueueCount == 0 && s.asleep == {}
  }

  lemma {:induction false} NoneCounted(y: Tally, timers: seq<Timer>)
    requires forall i :: 0 <= i < |timers| ==> timers[i] == UNUSED
    ensures Count(y, timers) == 0
    decreases |timers|
  {
    if timers != [] {
      NoneCounted(y, timers[..|timers| - 1]);
    }
  }

  lemma InitialInv(s: Wheel)
    requires IsInitial(s)
    ensures Inv(s) && Timely(s) && Logged(s, [])
  {
    hide Count;
    NoneCounted(Waiting, s.timers);
    NoneCounted(Done, s.timers);
    NoneCounted(Sleepers, s.timers);
    forall slot: nat | slot < SLOTS ensures ListOk(s, slot) {
    }
    forall i: nat | i < TIMERS ensures IsHung(s, i) {
    }
  }

  lemma InvSums(s: Wheel)
    ensures Inv(s) ==> s.queuedTimers + s.expiredTimers == s.timerCount <= TIMERS
  {
  }

  /** In every run from the start a timer expires at most once, never before its deadline, and the
      expired timers are exactly those the log holds; no sleeper is forgotten. If time never moves by
      more than one, each expires on the very tick of its deadline, and none is ever overdue. */
  lemma EveryTimerRun(s: Wheel, ops: seq<Op>)
    requires IsInitial(s)
    ensures Inv(s)
    ensures var t := Run(s, ops); var log := RunLog(s, ops);
            && Inv(t) && Logged(t, log) && t.queuedTimers + t.expiredTimers == t.timerCount <= 128
            && (UnitRun(s, ops) ==> Timely(t) && OnTime(t, log))
  {
    hide Inv, Timely, Run, RunLog, UnitRun, IsInitial;
    InitialInv(s);
    InvSums(Run(s, ops));
    RunKeeps(s, [], ops);
    assert [] + RunLog(s, ops) == RunLog(s, ops);
  }
}
