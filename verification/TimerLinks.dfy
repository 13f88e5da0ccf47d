/** The wheel in memory: every node holds the index of the next one in its list, and a tick unlinks
    what is due while it walks. */
module TimerLinks {
  import opened Collections
  import opened TimerWheel

  const NONE: int := -1

  function First(list: seq<nat>): int {
    if list == [] then NONE else list[0]
  }

  predicate Follows(next: seq<int>, list: seq<nat>, k: nat)
    requires k < |list|
  {
    list[k] < |next| && next[list[k]] == if k + 1 < |list| then list[k + 1] else NONE
  }

  /** The list that starts at a head and runs along the links. */
  predicate Chain(next: seq<int>, head: int, list: seq<nat>) {
    head == First(list) && forall k: nat {:trigger Follows(next, list, k)} :: k < |list| ==> Follows(next, list, k)
  }

  lemma ChainFrame(next: seq<int>, other: seq<int>, head: int, list: seq<nat>)
    requires Chain(next, head, list) && |other| == |next|
    requires forall i: nat :: i in list && i < |next| ==> other[i] == next[i]
    ensures Chain(other, head, list)
  {
    forall k: nat | k < |list| ensures Follows(other, list, k) {
      assert Follows(next, list, k);
    }
  }

  lemma ChainPush(next: seq<int>, head: int, list: seq<nat>, i: nat)
    requires Chain(next, head, list) && i < |next| && i !in list
    ensures Chain(next[i := head], i, [i] + list)
  {
    var longer, other := [i] + list, next[i := head];
    forall k: nat | k < |longer| ensures Follows(other, longer, k) {
      if k > 0 {
        assert Follows(next, list, k - 1);
      }
    }
  }

  lemma ChainAt(next: seq<int>, head: int, list: seq<nat>, k: nat)
    requires Chain(next, head, list) && k < |list|
    ensures list[k] < |next| && next[list[k]] == if k + 1 < |list| then list[k + 1] else NONE
  {
    assert Follows(next, list, k);
  }

  /** The first node leaves. */
  lemma ChainDropFirst(next: seq<int>, head: int, list: seq<nat>)
    requires Chain(next, head, list) && list != []
    ensures list[0] < |next| && Chain(next, next[list[0]], list[1..])
  {
    ChainAt(next, head, list, 0);
    var rest := list[1..];
    forall k: nat | k < |rest| ensures Follows(next, rest, k) {
      assert Follows(next, list, k + 1);
    }
  }

  /** A later node leaves: the one before it takes over its link. */
  lemma ChainDropLater(next: seq<int>, head: int, list: seq<nat>, at: nat)
    requires Chain(next, head, list) && NoDuplicates(list) && 0 < at < |list|
    ensures list[at] < |next| && list[at - 1] < |next|
    ensures Chain(next[list[at - 1] := next[list[at]]], head, list[..at] + list[at + 1..])
  {
    ChainAt(next, head, list, at);
    ChainAt(next, head, list, at - 1);
    var other := next[list[at - 1] := next[list[at]]];
    var rest := list[..at] + list[at + 1..];
    forall k: nat | k < |rest| ensures Follows(other, rest, k) {
      if k < at {
        assert Follows(next, list, k);
      } else {
        assert Follows(next, list, k + 1);
      }
    }
  }

  // ----- One more node of the walk -----

  lemma {:induction false} DueSnoc(timers: seq<Timer>, list: seq<nat>, i: nat, now: nat)
    ensures Due(timers, list + [i], now) == Due(timers, list, now) + if IsDue(timers, i, now) then [i] else []
    decreases |list|
  {
    hide IsDue;
    if list != [] {
      assert (list + [i])[0] == list[0] && (list + [i])[1..] == list[1..] + [i];
      DueSnoc(timers, list[1..], i, now);
    } else {
      assert (list + [i])[0] == i && (list + [i])[1..] == [];
      assert Due(timers, [], now) == [];
    }
  }

  lemma {:induction false} KeptSnoc(timers: seq<Timer>, list: seq<nat>, i: nat, now: nat)
    ensures Kept(timers, list + [i], now) == Kept(timers, list, now) + if IsDue(timers, i, now) then [] else [i]
    decreases |list|
  {
    hide IsDue;
    if list != [] {
      assert (list + [i])[0] == list[0] && (list + [i])[1..] == list[1..] + [i];
      KeptSnoc(timers, list[1..], i, now);
    } else {
      assert (list + [i])[0] == i && (list + [i])[1..] == [];
      assert Kept(timers, [], now) == [];
    }
  }

  lemma {:induction false} ExpireSnoc(s: Wheel, due: seq<nat>, i: nat)
    requires forall k :: k in due + [i] ==> k < |s.timers|
    ensures i in due + [i] && forall k :: k in due ==> k in due + [i]
    ensures ExpireAll(s, due + [i]) == Expire(ExpireAll(s, due), i)
    decreases |due|
  {
    assert (due + [i])[|due|] == i;
    if due != [] {
      assert due[0] in due + [i];
      assert (due + [i])[1..] == due[1..] + [i];
      assert forall k :: k in due[1..] + [i] ==> k in due + [i];
      ExpireSnoc(Expire(s, due[0]), due[1..], i);
    } else {
      assert (due + [i])[1..] == [];
    }
  }

  /** Expiring never looks at the lists. */
  lemma {:induction false} ExpireLists(s: Wheel, lists: seq<seq<nat>>, due: seq<nat>)
    requires forall k :: k in due ==> k < |s.timers|
    ensures ExpireAll(s.(lists := lists), due) == ExpireAll(s, due).(lists := lists)
    decreases |due|
  {
    if due != [] {
      assert due[0] in due;
      assert forall i :: i in due[1..] ==> i in due;
      ExpireLists(Expire(s, due[0]), lists, due[1..]);
    }
  }

  lemma {:induction false} ExpireDeadlines(s: Wheel, due: seq<nat>, i: nat)
    requires (forall k :: k in due ==> k < |s.timers|) && i < |s.timers|
    ensures ExpireAll(s, due).timers[i].deadline == s.timers[i].deadline
    decreases |due|
  {
    if due != [] {
      assert due[0] in due;
      assert forall k :: k in due[1..] ==> k in due;
      ExpireDeadlines(Expire(s, due[0]), due[1..], i);
    }
  }

  predicate Shares(lists: seq<seq<nat>>, a: nat, b: nat)
    requires a < |lists| && b < |lists|
  {
    exists i :: i in lists[a] && i in lists[b]
  }

  /** No node is twice in a list or in two lists. */
  predicate Apart(lists: seq<seq<nat>>) {
    && (forall a: nat :: a < |lists| ==> NoDuplicates(lists[a]))
    && (forall a: nat, b: nat {:trigger Shares(lists, a, b)} :: a < |lists| && b < |lists| && a != b ==> !Shares(lists, a, b))
  }

  lemma HungApart(s: Wheel)
    requires Hung(s)
    ensures Apart(s.lists)
  {
    forall a: nat | a < SLOTS ensures NoDuplicates(s.lists[a]) {
      assert ListOk(s, a);
    }
    forall a: nat, b: nat | a < SLOTS && b < SLOTS && a != b ensures !Shares(s.lists, a, b) {
      assert ListOk(s, a) && ListOk(s, b);
      forall i | i in s.lists[a] ensures i !in s.lists[b] {
        assert Hangs(s, i, a);
        assert i in s.lists[b] ==> Hangs(s, i, b);
      }
    }
  }

  function Without(list: seq<nat>, at: nat): seq<nat>
    requires at < |list|
  {
    list[..at] + list[at + 1..]
  }

  lemma WithoutDistinct(list: seq<nat>, at: nat)
    requires NoDuplicates(list) && at < |list|
    ensures NoDuplicates(Without(list, at)) && list[at] !in Without(list, at)
    ensures forall i :: i in Without(list, at) ==> i in list
  {
  }

  lemma WithoutApart(lists: seq<seq<nat>>, slot: nat, at: nat)
    requires Apart(lists) && slot < |lists| && at < |lists[slot]|
    ensures var less := lists[slot := Without(lists[slot], at)];
            Apart(less) && forall k: nat :: k < |less| ==> lists[slot][at] !in less[k]
  {
    var x := lists[slot][at];
    var less := lists[slot := Without(lists[slot], at)];
    WithoutDistinct(lists[slot], at);
    forall a: nat, b: nat | a < |less| && b < |less| && a != b ensures !Shares(less, a, b) {
      assert !Shares(lists, a, b);
      assert forall i :: i in less[a] ==> i in lists[a];
      assert forall i :: i in less[b] ==> i in lists[b];
    }
    forall k: nat | k < |less| ensures x !in less[k] {
      if k != slot {
        assert !Shares(lists, slot, k);
      }
    }
  }

  class Scheduler {
    const Timers: array<Timer>
    const Next: array<int>
    const Heads: array<int>
    ghost var Lists: seq<seq<nat>>
    var CurrentTick: nat
    var TimerCount: nat
    var QueuedTimers: nat
    var ExpiredTimers: nat
    var SleepQueueCount: nat
    var WakeCount: nat
    var BusyWaitSleepRejected: nat
    var FailedTimerAllocations: nat
    var Asleep: set<nat>

    ghost predicate Sized()
      reads this
    {
      && Timers.Length == TIMERS && Next.Length == TIMERS && Heads.Length == SLOTS && Next != Heads
      && |Lists| == SLOTS
    }

    ghost function State(): Wheel
      reads this, Timers
    {
      Wheel(Timers[..], Lists, CurrentTick, TimerCount, QueuedTimers, ExpiredTimers, SleepQueueCount, WakeCount,
            BusyWaitSleepRejected, FailedTimerAllocations, Asleep)
    }

    /** The links hold the lists. */
    ghost predicate Linked()
      requires Sized()
      reads this, Next, Heads
    {
      forall slot: nat {:trigger Chain(Next[..], Heads[slot], Lists[slot])} :: slot < SLOTS ==>
        Chain(Next[..], Heads[slot], Lists[slot])
    }

    ghost predicate Valid()
      reads this, Timers, Next, Heads
    {
      Sized() && Linked() && Inv(State())
    }

    constructor ()
      ensures Valid() && fresh(Timers) && fresh(Next) && fresh(Heads) && IsInitial(State())
    {
      Timers := new Timer[TIMERS](_ => UNUSED);
      Next := new int[TIMERS](_ => NONE);
      Heads := new int[SLOTS](_ => NONE);
      Lists := seq(SLOTS, _ => []);
      CurrentTick, TimerCount, QueuedTimers, ExpiredTimers, SleepQueueCount, WakeCount := 0, 0, 0, 0, 0, 0;
      BusyWaitSleepRejected, FailedTimerAllocations, Asleep := 0, 0, {};
      new;
      InitialInv(State());
    }

    /** A free node goes to the front of its deadline's list. */
    method PlaceNode(kind: Kind, deadline: nat, thread: nat) returns (ok: bool)
      requires Valid()
      modifies this, Timers, Next, Heads
      ensures Sized() && Linked()
      ensures (State(), ok) == Place(old(State()), kind, deadline, thread)
    {
      hide Inv, Place, Chain;
      InvLists(State());
      ghost var s := State();
      var i := 0;
      while i < TIMERS && Timers[i].state != Free
        invariant i <= TIMERS
        invariant forall k :: 0 <= k < i ==> Timers[k].state != Free
      {
        i := i + 1;
      }
      FirstIs(Timers[..], i);
      PlaceIs(s, kind, deadline, thread, i);
      if i == TIMERS {
        FailedTimerAllocations := FailedTimerAllocations + 1;
        return false;
      }
      var slot := Slot(deadline);
      NotListed(s, i);
      ghost var next := Next[..];
      ghost var lists := Lists;
      ChainPush(next, Heads[slot], Lists[slot], i);
      TimerCount := TimerCount + 1;
      Timers[i] := Timer(Queued, kind, deadline, thread);
      Next[i] := Heads[slot];
      Heads[slot] := i;
      Lists := Lists[slot := [i] + Lists[slot]];
      QueuedTimers := QueuedTimers + 1;
      assert Next[..] == next[i := old(Heads[slot])];
      forall k: nat | k < SLOTS ensures Chain(Next[..], Heads[k], Lists[k]) {
        if k != slot {
          assert Chain(next, old(Heads[k]), lists[k]);
          ChainFrame(next, Next[..], Heads[k], Lists[k]);
        }
      }
      return true;
    }

    static lemma FirstIs(timers: seq<Timer>, i: nat)
      requires i <= |timers| && (forall k :: 0 <= k < i ==> timers[k].state != Free)
      requires i < |timers| ==> timers[i].state == Free
      ensures FirstFree(timers, 0) == i
    {
    }

    static lemma PlaceIs(s: Wheel, kind: Kind, deadline: nat, thread: nat, i: nat)
      requires |s.lists| == SLOTS && |s.timers| == TIMERS && FirstFree(s.timers, 0) == i
      ensures Place(s, kind, deadline, thread)
           == if i == TIMERS then (s.(failed := s.failed + 1), false)
              else (s.(timers := s.timers[i := Timer(Queued, kind, deadline, thread)],
                    lists := s.lists[Slot(deadline) := [i] + s.lists[Slot(deadline)]],
                    timerCount := s.timerCount + 1, queuedTimers := s.queuedTimers + 1), true)
    {
    }

    /** A free node hangs nowhere. */
    static lemma NotListed(s: Wheel, i: nat)
      requires Inv(s) && i < |s.timers| && s.timers[i].state == Free
      ensures |s.lists| == SLOTS && forall slot: nat :: slot < SLOTS ==> i !in s.lists[slot]
    {
      forall slot: nat | slot < SLOTS ensures i !in s.lists[slot] {
        assert ListOk(s, slot);
        assert i in s.lists[slot] ==> Hangs(s, i, slot);
      }
    }

    method SleepUntilTick(thread: nat, deadline: nat) returns (ok: bool)
      requires Valid()
      modifies this, Timers, Next, Heads
      ensures Valid() && (State(), ok) == SleepUntil(old(State()), thread, deadline)
    {
      hide Inv, Place, Chain;
      InvLists(State());
      SleepUntilExact(State(), thread, deadline);
      if deadline <= CurrentTick {
        BusyWaitSleepRejected := BusyWaitSleepRejected + 1;
        return false;
      }
      ok := PlaceNode(Sleep, deadline, thread);
      if ok {
        Asleep := Asleep + {thread};
        SleepQueueCount := SleepQueueCount + 1;
      }
    }

    method QueueCallback(deadline: nat) returns (ok: bool)
      requires Valid()
      modifies this, Timers, Next, Heads
      ensures Valid() && (State(), ok) == QueueTimer(old(State()), deadline)
    {
      hide Inv, Place, Chain;
      InvLists(State());
      QueueTimerExact(State(), deadline);
      if deadline <= CurrentTick {
        return false;
      }
      ok := PlaceNode(Callback, deadline, 0);
    }

    /** The node at a place of a list is taken out: by the head if it is first, else by the one before. */
    method Unlink(slot: nat, previous: int, next: int, ghost at: nat)
      requires Sized() && Linked() && Apart(Lists) && slot < SLOTS && at < |Lists[slot]|
      requires previous == (if at == 0 then NONE else Lists[slot][at - 1])
      requires Lists[slot][at] < TIMERS && next == Next[Lists[slot][at]]
      modifies this`Lists, Next, Heads
      ensures Sized() && Linked() && Apart(Lists) && Lists == old(Lists)[slot := Without(old(Lists)[slot], at)]
      ensures forall k: nat :: k < SLOTS ==> old(Lists)[slot][at] !in Lists[k]
    {
      hide Chain, Apart;
      ghost var before, lists, list, x := Next[..], Lists, Lists[slot], Lists[slot][at];
      ghost var heads := Heads[..];
      assert Chain(before, heads[slot], list);
      WithoutApart(lists, slot, at);
      ApartDistinct(lists, slot);
      if previous == NONE {
        PreviousIsFirst(before, heads[slot], list, at);
        ChainDropFirst(before, heads[slot], list);
        assert list[1..] == Without(list, 0);
        Heads[slot] := next;
      } else {
        ChainDropLater(before, heads[slot], list, at);
        Next[previous] := next;
      }
      Lists := Lists[slot := Without(list, at)];
      forall k: nat | k < SLOTS ensures Chain(Next[..], Heads[k], Lists[k]) {
        if k != slot {
          assert Chain(before, heads[k], lists[k]);
          ApartElsewhere(lists, slot, k, at);
          ChainFrame(before, Next[..], heads[k], lists[k]);
        }
      }
    }

    static lemma PreviousIsFirst(next: seq<int>, head: int, list: seq<nat>, at: nat)
      requires at < |list| && (at > 0 ==> list[at - 1] != NONE)
      ensures at == 0 || list[at - 1] != NONE
    {
    }

    static lemma ApartDistinct(lists: seq<seq<nat>>, slot: nat)
      requires Apart(lists) && slot < |lists|
      ensures NoDuplicates(lists[slot])
    {
    }

    /** The nodes of one list are in no other. */
    static lemma ApartElsewhere(lists: seq<seq<nat>>, slot: nat, k: nat, at: nat)
      requires Apart(lists) && slot < |lists| && k < |lists| && k != slot && at < |lists[slot]|
      ensures lists[slot][at] !in lists[k] && (at > 0 ==> lists[slot][at - 1] !in lists[k])
    {
      assert !Shares(lists, slot, k);
    }

    method ExpireNode(i: nat)
      requires Sized() && Linked() && i < TIMERS && forall k: nat :: k < SLOTS ==> i !in Lists[k]
      modifies this, Timers, Next
      ensures Sized() && Linked() && Lists == old(Lists) && State() == Expire(old(State()), i)
    {
      hide Chain;
      ghost var before := Next[..];
      Timers[i] := Timers[i].(state := Expired);
      Next[i] := NONE;
      forall k: nat | k < SLOTS ensures Chain(Next[..], Heads[k], Lists[k]) {
        assert Chain(before, Heads[k], Lists[k]);
        ChainFrame(before, Next[..], Heads[k], Lists[k]);
      }
      ExpiredTimers := ExpiredTimers + 1;
      if QueuedTimers > 0 {
        QueuedTimers := QueuedTimers - 1;
      }
      if Timers[i].kind == Sleep {
        Asleep := Asleep - {Timers[i].thread};
        if SleepQueueCount > 0 {
          SleepQueueCount := SleepQueueCount - 1;
        }
        WakeCount := WakeCount + 1;
      }
    }

    /** A due node leaves its list and expires. */
    method TakeOff(slot: nat, current: nat, previous: int, next: int, ghost at: nat)
      requires Sized() && Linked() && Apart(Lists) && slot < SLOTS && at < |Lists[slot]|
      requires previous == (if at == 0 then NONE else Lists[slot][at - 1])
      requires current == Lists[slot][at] && current < TIMERS && next == Next[current]
      modifies this, Timers, Next, Heads
      ensures Sized() && Linked() && Apart(Lists) && Lists == old(Lists)[slot := Without(old(Lists)[slot], at)]
      ensures State() == Expire(old(State()).(lists := Lists), current)
    {
      hide Chain, Apart, Expire, Without;
      Unlink(slot, previous, next, at);
      ExpireNode(current);
    }

    static lemma Walking(s: Wheel, slot: nat)
      requires Inv(s) && slot < SLOTS
      ensures |s.lists| == SLOTS && |s.timers| == TIMERS && Apart(s.lists)
      ensures forall i :: i in s.lists[slot] ==> i < TIMERS
    {
      HungApart(s);
      assert ListOk(s, slot);
      forall i | i in s.lists[slot] ensures i < TIMERS {
        assert Hangs(s, i, slot);
      }
    }

    /** Where the walk over one list stands: what of the nodes passed stays, and what left. */
    static predicate Walked(s: Wheel, list: seq<nat>, now: nat, p: nat, kept: seq<nat>, due: seq<nat>) {
      && p <= |list| && |s.timers| == TIMERS && (forall i :: i in list ==> i < TIMERS) && (forall i :: i in due ==> i < TIMERS)
      && kept == Kept(s.timers, list[..p], now) && due == Due(s.timers, list[..p], now)
    }

    static lemma WalkStarts(s: Wheel, list: seq<nat>, now: nat)
      requires |s.timers| == TIMERS && forall i :: i in list ==> i < TIMERS
      ensures Walked(s, list, now, 0, [], []) && ExpireAll(s, []) == s
    {
      assert list[..0] == [];
    }

    /** One node further, for a node that is due and for one that is not. */
    static lemma WalkOn(s: Wheel, list: seq<nat>, now: nat, p: nat, kept: seq<nat>, due: seq<nat>)
      requires Walked(s, list, now, p, kept, due) && p < |list|
      ensures list[p] < TIMERS && list[p] in list && |ExpireAll(s, due).timers| == TIMERS
      ensures ExpireAll(s, due).timers[list[p]].deadline == s.timers[list[p]].deadline
      ensures s.timers[list[p]].deadline <= now ==> Walked(s, list, now, p + 1, kept, due + [list[p]])
      ensures s.timers[list[p]].deadline > now ==> Walked(s, list, now, p + 1, kept + [list[p]], due)
    {
      hide Due, Kept, Expire, ExpireAll;
      var x := list[p];
      assert x in list;
      assert list[..p + 1] == list[..p] + [x];
      DueSnoc(s.timers, list[..p], x, now);
      KeptSnoc(s.timers, list[..p], x, now);
      ExpireDeadlines(s, due, x);
    }

    static lemma WalkEnds(s: Wheel, list: seq<nat>, now: nat, p: nat, kept: seq<nat>, due: seq<nat>)
      requires Walked(s, list, now, p, kept, due) && p == |list|
      ensures kept == Kept(s.timers, list, now) && due == Due(s.timers, list, now)
    {
      assert list[..p] == list;
    }

    /** A list while it is walked: the nodes kept so far, then those ahead. */
    static function Ahead(list: seq<nat>, p: nat, kept: seq<nat>): seq<nat>
      requires p <= |list|
    {
      kept + list[p..]
    }

    static function Upcoming(list: seq<nat>, p: nat): int {
      if p < |list| then list[p] else NONE
    }

    static function LastOf(kept: seq<nat>): int {
      if kept == [] then NONE else kept[|kept| - 1]
    }

    static lemma AheadStarts(next: seq<int>, head: int, list: seq<nat>)
      requires Chain(next, head, list)
      ensures Ahead(list, 0, []) == list && head == Upcoming(list, 0) && LastOf([]) == NONE
    {
    }

    static lemma AheadOn(next: seq<int>, head: int, list: seq<nat>, p: nat, kept: seq<nat>)
      requires p < |list| && Chain(next, head, Ahead(list, p, kept))
      ensures var whole := Ahead(list, p, kept); var k := |kept|;
              && k < |whole| && whole[k] == list[p] && LastOf(kept) == (if k == 0 then NONE else whole[k - 1])
              && list[p] < |next| && next[list[p]] == Upcoming(list, p + 1)
              && Without(whole, k) == Ahead(list, p + 1, kept)
              && whole == Ahead(list, p + 1, kept + [list[p]]) && LastOf(kept + [list[p]]) == list[p]
    {
      ChainAt(next, head, Ahead(list, p, kept), |kept|);
    }

    static lemma AheadEnds(list: seq<nat>, kept: seq<nat>)
      ensures Ahead(list, |list|, kept) == kept
    {
    }

    /** The walk over one list: what is due is unlinked and expired on the way. */
    method WalkSlot(slot: nat, nowTick: nat)
      requires Sized() && Linked() && Apart(Lists) && slot < SLOTS && forall i :: i in Lists[slot] ==> i < TIMERS
      modifies this, Timers, Next, Heads
      ensures Sized() && Linked()
      ensures var list := old(Lists)[slot];
              Lists == old(Lists)[slot := Kept(old(Timers[..]), list, nowTick)]
              && WalkedState(old(State()), Due(old(Timers[..]), list, nowTick), State())
    {
      hide Chain, ExpireAll, Due, Kept, Expire, Apart, Walked, Without, WalkedState, Ahead, LastOf, First;
      ghost var s, lists, list := State(), Lists, Lists[slot];
      ghost var p: nat := 0;
      ghost var kept: seq<nat>, due: seq<nat> := [], [];
      var previous, current := NONE, Heads[slot];
      WalkStarts(s, list, nowTick);
      WalkedNone(s, State());
      AheadStarts(Next[..], Heads[slot], list);
      while current != NONE
        invariant Sized() && Linked() && Apart(Lists) && p <= |list|
        invariant Walked(s, list, nowTick, p, kept, due) && WalkedState(s, due, State())
        invariant Lists == lists[slot := Ahead(list, p, kept)]
        invariant current == Upcoming(list, p) && previous == LastOf(kept)
        decreases |list| - p
      {
        WalkOn(s, list, nowTick, p, kept, due);
        assert Chain(Next[..], Heads[slot], Lists[slot]);
        AheadOn(Next[..], Heads[slot], list, p, kept);
        WalkedTimers(s, due, State());
        var next := Next[current];
        if Timers[current].deadline <= nowTick {
          ghost var u := State();
          TakeOff(slot, current, previous, next, |kept|);
          WalkedExpires(s, due, u, Lists, list[p], State());
          due := due + [list[p]];
        } else {
          kept := kept + [list[p]];
          previous := current;
        }
        p := p + 1;
        current := next;
      }
      WalkEnds(s, list, nowTick, p, kept, due);
      AheadEnds(list, kept);
    }

    method RunTick(nowTick: nat)
      requires Valid()
      modifies this, Timers, Next, Heads
      ensures Valid() && State() == Tick(old(State()), nowTick)
    {
      hide Inv, Chain, ExpireAll, Due, Kept, Expire, Apart, WalkedState;
      ghost var s := State();
      TickExact(s, nowTick);
      CurrentTick := nowTick;
      ghost var t := State();
      var slot := Slot(nowTick);
      Walking(s, slot);
      WalkSlot(slot, nowTick);
      WalkedAll(s, t, nowTick, TickDue(s, nowTick), State());
    }

    /** Apart from the lists, the state is what expiring the due nodes so far makes of it. */
    static predicate WalkedState(t: Wheel, due: seq<nat>, u: Wheel) {
      (forall i :: i in due ==> i < |t.timers|) && u == ExpireAll(t, due).(lists := u.lists)
    }

    static lemma WalkedNone(t: Wheel, u: Wheel)
      requires u == t
      ensures WalkedState(t, [], u)
    {
    }

    static lemma WalkedTimers(t: Wheel, due: seq<nat>, u: Wheel)
      requires WalkedState(t, due, u)
      ensures (forall i :: i in due ==> i < |t.timers|) && u.timers == ExpireAll(t, due).timers
    {
      hide ExpireAll;
    }

    static lemma WalkedExpires(t: Wheel, due: seq<nat>, u: Wheel, lists: seq<seq<nat>>, x: nat, v: Wheel)
      requires WalkedState(t, due, u) && x < |t.timers| && |u.timers| == |t.timers| && v == Expire(u.(lists := lists), x)
      ensures WalkedState(t, due + [x], v)
    {
      hide ExpireAll;
      forall i | i in due + [x] ensures i < |t.timers| {
        assert i in due || i == x;
      }
      ExpireSnoc(t, due, x);
    }

    static lemma WalkedAll(s: Wheel, t: Wheel, now: nat, due: seq<nat>, u: Wheel)
      requires |s.lists| == SLOTS && t == s.(now := now) && WalkedState(t, due, u) && due == TickDue(s, now)
      requires u.lists == s.lists[Slot(now) := Kept(s.timers, s.lists[Slot(now)], now)]
      ensures u == Tick(s, now)
    {
      hide ExpireAll, Due, Kept;
      ExpireLists(t, u.lists, due);
    }
  }
}
