/** The scheduler's wait slots: threads blocked on a channel, and woken by it. */
module WaitQueue {

  const SLOTS: nat := 64
  const ANY: nat := 0

  datatype Slot = Open | Waiting(thread: nat, channel: nat)

  datatype Waits = Waits(slots: seq<Slot>, count: nat, wakes: nat, blocked: set<nat>)

  predicate Matches(x: Slot, channel: nat) {
    x.Waiting? && (channel == ANY || x.channel == channel)
  }

  function FirstOpen(slots: seq<Slot>, from: nat): (i: nat)
    requires from <= |slots|
    ensures from <= i <= |slots|
    ensures i < |slots| ==> slots[i].Open?
    ensures forall k :: from <= k < i ==> slots[k].Waiting?
    decreases |slots| - from
  {
    if from == |slots| || slots[from].Open? then from else FirstOpen(slots, from + 1)
  }

  function FirstMatch(slots: seq<Slot>, channel: nat, from: nat): (i: nat)
    requires from <= |slots|
    ensures from <= i <= |slots|
    ensures i < |slots| ==> Matches(slots[i], channel)
    ensures forall k :: from <= k < i ==> !Matches(slots[k], channel)
    decreases |slots| - from
  {
    if from == |slots| || Matches(slots[from], channel) then from else FirstMatch(slots, channel, from + 1)
  }

  /** A thread blocks on a channel in the first open slot. */
  function Wait(s: Waits, thread: nat, channel: nat): (Waits, bool) {
    var i := FirstOpen(s.slots, 0);
    if channel == ANY || i == |s.slots| then (s, false)
    else (Waits(s.slots[i := Waiting(thread, channel)], s.count + 1, s.wakes, s.blocked + {thread}), true)
  }

  function Release(s: Waits, i: nat): Waits
    requires i < |s.slots| && s.slots[i].Waiting?
  {
    Waits(s.slots[i := Open], if s.count > 0 then s.count - 1 else 0, s.wakes + 1, s.blocked - {s.slots[i].thread})
  }

  /** Wakes from a slot on: one waiter, or all. */
  function Wake(s: Waits, channel: nat, all: bool, from: nat): (r: (Waits, nat))
    requires from <= |s.slots|
    ensures |r.0.slots| == |s.slots|
    decreases |s.slots| - from
  {
    var i := FirstMatch(s.slots, channel, from);
    if i == |s.slots| then (s, 0)
    else if !all then (Release(s, i), 1)
    else
      var (t, n) := Wake(Release(s, i), channel, all, i + 1);
      (t, n + 1)
  }

  // ----- The invariant -----

  function Used(slots: seq<Slot>): (n: nat)
    ensures n <= |slots|
  {
    if slots == [] then 0 else Used(slots[..|slots| - 1]) + if slots[|slots| - 1].Waiting? then 1 else 0
  }

  lemma {:induction false} UsedUpdate(slots: seq<Slot>, i: nat, x: Slot)
    requires i < |slots|
    ensures Used(slots[i := x]) + (if slots[i].Waiting? then 1 else 0) == Used(slots) + if x.Waiting? then 1 else 0
    decreases |slots|
  {
    var front := slots[..|slots| - 1];
    if i == |slots| - 1 {
      assert slots[i := x][..|slots| - 1] == front;
    } else {
      assert slots[i := x][..|slots| - 1] == front[i := x];
      UsedUpdate(front, i, x);
    }
  }

  predicate InSlot(s: Waits, i: nat, thread: nat) {
    i < |s.slots| && s.slots[i].Waiting? && s.slots[i].thread == thread
  }

  predicate HasSlot(s: Waits, thread: nat) {
    exists i: nat :: i < |s.slots| && InSlot(s, i, thread)
  }

  /** The count is the number of slots in use, and every blocked thread holds one. */
  predicate Inv(s: Waits) {
    |s.slots| == SLOTS && s.count == Used(s.slots) && forall thread :: thread in s.blocked ==> HasSlot(s, thread)
  }

  /** A thread can wait exactly when the channel is a real one and a slot is open. */
  lemma WaitExact(s: Waits, thread: nat, channel: nat)
    requires Inv(s)
    ensures var (t, ok) := Wait(s, thread, channel);
            && Inv(t) && (ok <==> channel != 0 && s.count < 64) && (ok ==> thread in t.blocked) && (!ok ==> t == s)
  {
    var (t, ok) := Wait(s, thread, channel);
    var i := FirstOpen(s.slots, 0);
    if ok {
      UsedUpdate(s.slots, i, Waiting(thread, channel));
      forall w | w in t.blocked ensures HasSlot(t, w) {
        if w == thread {
          assert InSlot(t, i, w);
        } else {
          assert HasSlot(s, w);
          var k: nat :| k < |s.slots| && InSlot(s, k, w);
          assert InSlot(t, k, w);
        }
      }
    }
    OpenMeansRoom(s.slots);
  }

  /** It takes the first open slot, with the channel, and blocks; no other slot and no other thread changes. */
  lemma WaitIs(s: Waits, thread: nat, channel: nat)
    ensures var (t, ok) := Wait(s, thread, channel);
            && (!ok ==> t == s)
            && (ok ==> exists i: nat :: i < |s.slots| && s.slots[i].Open? && (forall k :: 0 <= k < i ==> s.slots[k].Waiting?)
                                        && t.slots == s.slots[i := Waiting(thread, channel)])
            && (ok ==> t.blocked == s.blocked + {thread} && t.count == s.count + 1 && t.wakes == s.wakes)
  {
    var i := FirstOpen(s.slots, 0);
    if i < |s.slots| {
      assert s.slots[i].Open? && forall k :: 0 <= k < i ==> s.slots[k].Waiting?;
    }
  }

  lemma {:induction false} OpenMeansRoom(slots: seq<Slot>)
    ensures Used(slots) < |slots| <==> exists k :: 0 <= k < |slots| && slots[k].Open?
    decreases |slots|
  {
    if slots != [] {
      var front := slots[..|slots| - 1];
      OpenMeansRoom(front);
      if k :| 0 <= k < |front| && front[k].Open? {
        assert slots[k].Open?;
      } else if slots[|slots| - 1].Open? {
      } else {
        assert forall k :: 0 <= k < |front| ==> front[k] == slots[k];
      }
    }
  }

  /** A release never clips the count. */
  lemma ReleaseKeeps(s: Waits, i: nat)
    requires Inv(s) && i < |s.slots| && s.slots[i].Waiting?
    ensures var t := Release(s, i); Inv(t) && t.count + 1 == s.count && t.slots == s.slots[i := Open] && s.slots[i].thread !in t.blocked
  {
    UsedUpdate(s.slots, i, Open);
    var t := Release(s, i);
    forall w | w in t.blocked ensures HasSlot(t, w) {
      assert HasSlot(s, w);
      var k: nat :| k < |s.slots| && InSlot(s, k, w);
      assert k != i;
      assert InSlot(t, k, w);
    }
  }

  predicate Cleared(s: Waits, t: Waits, channel: nat, from: nat, k: nat)
    requires |t.slots| == |s.slots| && k < |s.slots|
  {
    t.slots[k] == if k >= from && Matches(s.slots[k], channel) then Open else s.slots[k]
  }

  /** Waking all clears exactly the slots of the channel, wakes their threads, and counts them. */
  lemma {:induction false} WakeAllExact(s: Waits, channel: nat, from: nat)
    requires Inv(s) && from <= SLOTS
    ensures var (t, n) := Wake(s, channel, true, from);
            && Inv(t) && t.count + n == s.count && t.blocked <= s.blocked
            && (forall k: nat {:trigger Cleared(s, t, channel, from, k)} :: k < SLOTS ==> Cleared(s, t, channel, from, k))
            && (forall k :: from <= k < SLOTS && Matches(s.slots[k], channel) ==> s.slots[k].thread !in t.blocked)
    decreases SLOTS - from
  {
    hide Used, HasSlot;
    var i := FirstMatch(s.slots, channel, from);
    if i < SLOTS {
      ReleaseKeeps(s, i);
      var u := Release(s, i);
      WakeAllExact(u, channel, i + 1);
      var t := Wake(u, channel, true, i + 1).0;
      forall k: nat | k < SLOTS ensures Cleared(s, t, channel, from, k) {
        assert Cleared(u, t, channel, i + 1, k);
      }
      forall k | from <= k < SLOTS && Matches(s.slots[k], channel) ensures s.slots[k].thread !in t.blocked {
        if k != i {
          assert u.slots[k] == s.slots[k] && k > i;
        }
      }
    }
  }

  /** Waking one releases the first waiter of the channel and nobody else; none if there is none. */
  lemma WakeOneExact(s: Waits, channel: nat)
    requires Inv(s)
    ensures var (t, n) := Wake(s, channel, false, 0); var i := FirstMatch(s.slots, channel, 0);
            && Inv(t) && t.count + n == s.count
            && (n == 0 <==> forall k :: 0 <= k < SLOTS ==> !Matches(s.slots[k], channel))
            && (n == 0 ==> t == s)
            && (n > 0 ==> n == 1 && i < SLOTS && t.slots == s.slots[i := Open] && s.slots[i].thread !in t.blocked)
  {
    hide Used, HasSlot;
    var i := FirstMatch(s.slots, channel, 0);
    if i < SLOTS {
      ReleaseKeeps(s, i);
      assert Matches(s.slots[i], channel);
    }
  }

  /** A thread waits in some slot from a number on, on the channel; channel 0 stands for any. */
  predicate WaitsOn(s: Waits, channel: nat, from: nat, thread: nat) {
    exists k :: from <= k < |s.slots| && s.slots[k].Waiting? && s.slots[k].thread == thread
                && (channel == 0 || s.slots[k].channel == channel)
  }

  /** Waking all unblocks exactly the threads that wait on the channel. */
  lemma {:induction false} WakeAllBlocked(s: Waits, channel: nat, from: nat)
    requires from <= |s.slots|
    ensures forall thread :: thread in Wake(s, channel, true, from).0.blocked <==>
                               thread in s.blocked && !WaitsOn(s, channel, from, thread)
    decreases |s.slots| - from
  {
    hide WaitsOn;
    var i := FirstMatch(s.slots, channel, from);
    if i < |s.slots| {
      var u := Release(s, i);
      WakeAllBlocked(u, channel, i + 1);
      forall thread ensures WaitsOn(s, channel, from, thread) <==> thread == s.slots[i].thread || WaitsOn(u, channel, i + 1, thread) {
        WaitsOnStep(s, channel, from, i, thread);
      }
    } else {
      forall thread ensures !WaitsOn(s, channel, from, thread) {
        NobodyWaits(s, channel, from, thread);
      }
    }
  }

  lemma NobodyWaits(s: Waits, channel: nat, from: nat, thread: nat)
    requires from <= |s.slots| && FirstMatch(s.slots, channel, from) == |s.slots|
    ensures !WaitsOn(s, channel, from, thread)
  {
    assert forall k :: from <= k < |s.slots| ==> !Matches(s.slots[k], channel);
  }

  lemma WaitsOnStep(s: Waits, channel: nat, from: nat, i: nat, thread: nat)
    requires from <= i < |s.slots| && i == FirstMatch(s.slots, channel, from)
    ensures WaitsOn(s, channel, from, thread) <==> thread == s.slots[i].thread || WaitsOn(Release(s, i), channel, i + 1, thread)
  {
    var u := Release(s, i);
    if k :| from <= k < |s.slots| && s.slots[k].Waiting? && s.slots[k].thread == thread && (channel == 0 || s.slots[k].channel == channel) {
      assert Matches(s.slots[k], channel);
      assert k > i ==> u.slots[k] == s.slots[k];
    }
    if k :| i + 1 <= k < |u.slots| && u.slots[k].Waiting? && u.slots[k].thread == thread && (channel == 0 || u.slots[k].channel == channel) {
      assert s.slots[k] == u.slots[k];
    }
    assert Matches(s.slots[i], channel);
  }

  /** Waking one empties the first slot of the channel, or the first in use for channel 0, and unblocks its
      thread alone. */
  lemma WakeOneIs(s: Waits, channel: nat, i: nat)
    requires i < |s.slots| && s.slots[i].Waiting? && (channel == 0 || s.slots[i].channel == channel)
    requires forall k :: 0 <= k < i ==> !(s.slots[k].Waiting? && (channel == 0 || s.slots[k].channel == channel))
    ensures var (t, n) := Wake(s, channel, false, 0);
            n == 1 && t.slots == s.slots[i := Open] && t.blocked == s.blocked - {s.slots[i].thread} && t.wakes == s.wakes + 1
  {
    assert Matches(s.slots[i], channel);
    assert forall k :: 0 <= k < i ==> !Matches(s.slots[k], channel);
  }

  // ----- In memory -----

  class Queue {
    const Slots: array<Slot>
    var Count: nat
    var Wakes: nat
    var Blocked: set<nat>

    function View(): Waits
      reads this, Slots
    {
      Waits(Slots[..], Count, Wakes, Blocked)
    }

    constructor ()
      ensures fresh(Slots) && Inv(View()) && View().blocked == {} && View().count == 0
    {
      Slots := new Slot[SLOTS](_ => Open);
      Count, Wakes, Blocked := 0, 0, {};
      new;
      NoneUsed(Slots[..]);
    }

    static lemma {:induction false} NoneUsed(slots: seq<Slot>)
      requires forall k :: 0 <= k < |slots| ==> slots[k].Open?
      ensures Used(slots) == 0
      decreases |slots|
    {
      if slots != [] {
        NoneUsed(slots[..|slots| - 1]);
      }
    }

    method WaitOn(thread: nat, channel: nat) returns (ok: bool)
      modifies this, Slots
      ensures (View(), ok) == Wait(old(View()), thread, channel)
    {
      if channel == ANY {
        return false;
      }
      var i := 0;
      while i < Slots.Length && Slots[i].Waiting?
        invariant i <= Slots.Length && forall k :: 0 <= k < i ==> Slots[k].Waiting?
      {
        i := i + 1;
      }
      assert i == FirstOpen(Slots[..], 0);
      if i == Slots.Length {
        return false;
      }
      Slots[i] := Waiting(thread, channel);
      Blocked := Blocked + {thread};
      Count := Count + 1;
      return true;
    }

    method WakeMatchingWaiter(channel: nat, all: bool) returns (woken: nat)
      modifies this, Slots
      ensures (View(), woken) == Wake(old(View()), channel, all, 0)
    {
      hide Wake, Release;
      woken := 0;
      var i := 0;
      while i < Slots.Length
        invariant i <= Slots.Length
        invariant all || woken == 0
        invariant Wake(old(View()), channel, all, 0) == (Wake(View(), channel, all, i).0, woken + Wake(View(), channel, all, i).1)
      {
        ghost var s := View();
        WakeFrom(s, channel, all, i);
        if Matches(Slots[i], channel) {
          var thread := Slots[i].thread;
          Slots[i] := Open;
          Blocked := Blocked - {thread};
          if Count > 0 {
            Count := Count - 1;
          }
          Wakes := Wakes + 1;
          woken := woken + 1;
          ReleaseIs(s, i);
          assert View() == Release(s, i);
          if !all {
            return;
          }
        }
        i := i + 1;
      }
      WakeEnd(View(), channel, all);
    }

    static lemma WakeEnd(s: Waits, channel: nat, all: bool)
      ensures Wake(s, channel, all, |s.slots|) == (s, 0)
    {
    }

    static lemma ReleaseIs(s: Waits, i: nat)
      requires i < |s.slots| && s.slots[i].Waiting?
      ensures Release(s, i)
           == Waits(s.slots[i := Open], if s.count > 0 then s.count - 1 else 0, s.wakes + 1, s.blocked - {s.slots[i].thread})
    {
    }

    /** One slot of the walk. */
    static lemma WakeFrom(s: Waits, channel: nat, all: bool, i: nat)
      requires i < |s.slots|
      ensures !Matches(s.slots[i], channel) ==> Wake(s, channel, all, i) == Wake(s, channel, all, i + 1)
      ensures Matches(s.slots[i], channel) ==>
                Wake(s, channel, all, i)
                == if !all then (Release(s, i), 1)
                   else (Wake(Release(s, i), channel, all, i + 1).0, Wake(Release(s, i), channel, all, i + 1).1 + 1)
    {
    }
  }
}
