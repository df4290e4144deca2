/** The software timer daemon (timers.c): timers on two lists, one for the wrap of
    the tick counter in which time was last sampled and one for the wrap after it. */
module Timers {
  import opened SortedOrder
  import opened TimerArithmetic

  type TimerHandle = nat

  datatype Timer = Timer(period: nat, autoReload: bool, active: bool)

  /** A timer's list item: its expiry as a tick count, and the timer it belongs to. */
  datatype Item = Item(value: nat, owner: TimerHandle)

  /** What is remembered of a timer for the proofs: the true time from which its
      expiries are counted, and the true time of each callback made since. */
  datatype Run = Run(start: nat, calls: seq<nat>)

  /** Commands sent to the daemon; a start or reset carries the tick count at which it was issued. */
  datatype Command =
    | Start(issued: nat)
    | Reset(issued: nat)
    | Stop
    | ChangePeriod(newPeriod: nat)
    | Delete

  /** What one round of the daemon did before it looked for commands. */
  datatype Outcome = Switched | Processed | Blocked(ticks: nat, indefinitely: bool)

  function Expiries(l: seq<Item>): (vs: seq<nat>)
    ensures |vs| == |l| && forall i :: 0 <= i < |l| ==> vs[i] == l[i].value
  {
    seq(|l|, i requires 0 <= i < |l| => l[i].value)
  }

  function Owners(l: seq<Item>): (os: seq<TimerHandle>)
    ensures |os| == |l| && forall i :: 0 <= i < |l| ==> os[i] == l[i].owner
  {
    seq(|l|, i requires 0 <= i < |l| => l[i].owner)
  }

  /** vListInsert on a list of timers. */
  function Put(l: seq<Item>, x: Item): (r: seq<Item>) {
    InsertAt(l, InsertPosition(Expiries(l), x.value), x)
  }

  /** A list that has gained at most one item, of timer `x` and with a value beyond `now`. */
  ghost predicate MayGain(l: seq<Item>, r: seq<Item>, x: TimerHandle, now: nat, w: nat) {
    r == l || exists v :: now < v < w && r == Put(l, Item(v, x))
  }

  /** How many items of a list are not beyond `now`. */
  ghost function Overdue(l: seq<Item>, now: nat): nat {
    InsertPosition(Expiries(l), now)
  }

  lemma OverdueAfterGain(l: seq<Item>, r: seq<Item>, x: TimerHandle, now: nat, w: nat)
    requires Sorted(Expiries(l)) && MayGain(l, r, x, now, w)
    ensures Overdue(r, now) == Overdue(l, now)
    ensures now == w - 1 ==> r == l
  {
    if r != l {
      var v :| now < v < w && r == Put(l, Item(v, x));
      var p := InsertPosition(Expiries(l), v);
      InsertItem(l, p, Item(v, x));
      InsertKeepsSorted(Expiries(l), v);
      InsertKeepsSorted(Expiries(l), now);
      InsertPositionIsUnique(Expiries(r), now, Overdue(l, now));
    }
  }

  /** Taking off an overdue head and putting back an item that is not overdue
      leaves one fewer overdue. */
  lemma OverdueShrinks(l: seq<Item>, r: seq<Item>, x: TimerHandle, now: nat, w: nat)
    requires l != [] && l[0].value <= now && Sorted(Expiries(l))
    requires MayGain(RemoveAt(l, 0), r, x, now, w)
    ensures Overdue(r, now) == Overdue(l, now) - 1
    ensures now == w - 1 ==> |r| == |l| - 1
  {
    RemoveKeepsSorted(Expiries(l), 0);
    RemoveItem(l, 0);
    InsertPositionIsUnique(Expiries(RemoveAt(l, 0)), now, Overdue(l, now) - 1);
    OverdueAfterGain(RemoveAt(l, 0), r, x, now, w);
  }

  /** No callback was made before the expiry it stands for, nor is one yet to come. */
  ghost predicate InPast(t: Timer, r: Run, clock: nat) {
    forall k {:trigger r.calls[k]} :: 0 <= k < |r.calls| ==>
      Expiry(r.start, t.period, k + 1) <= r.calls[k] <= clock
  }

  lemma NoCallsYet(t: Timer, r: Run, clock: nat)
    requires r.calls == []
    ensures InPast(t, r, clock)
  {
  }

  /** Exactly the expiries before `due` were called back, and all of them by `clock`. */
  ghost predicate InStep(t: Timer, r: Run, due: nat, clock: nat) {
    due == Expiry(r.start, t.period, |r.calls| + 1) && Expiry(r.start, t.period, |r.calls|) <= clock
  }

  /** The callback of a one-shot timer ends its run. */
  ghost predicate OneShot(t: Timer, r: Run) {
    t.active && !t.autoReload ==> r.calls == []
  }

  ghost predicate InOrder(w: nat, l: seq<Item>) {
    Sorted(Expiries(l)) && forall i {:trigger l[i]} :: 0 <= i < |l| ==> l[i].value < w
  }

  /** Both lists are in order and no timer is on them twice. */
  ghost predicate ListsOK(w: nat, current: seq<Item>, overflow: seq<Item>) {
    InOrder(w, current) && InOrder(w, overflow) && Distinct(Owners(current + overflow))
  }

  lemma InsertItem(l: seq<Item>, p: nat, x: Item)
    requires p <= |l|
    ensures Owners(InsertAt(l, p, x)) == InsertAt(Owners(l), p, x.owner)
    ensures Expiries(InsertAt(l, p, x)) == InsertAt(Expiries(l), p, x.value)
  {
  }

  lemma RemoveItem(l: seq<Item>, k: nat)
    requires k < |l|
    ensures Owners(RemoveAt(l, k)) == RemoveAt(Owners(l), k)
    ensures Expiries(RemoveAt(l, k)) == RemoveAt(Expiries(l), k)
  {
  }

  lemma PutInOrder(w: nat, l: seq<Item>, x: Item)
    requires InOrder(w, l) && x.value < w
    ensures InOrder(w, Put(l, x))
  {
    hide Sorted;
    InsertKeepsSorted(Expiries(l), x.value);
    InsertItem(l, InsertPosition(Expiries(l), x.value), x);
  }

  lemma TakeInOrder(w: nat, l: seq<Item>, k: nat)
    requires InOrder(w, l) && k < |l|
    ensures InOrder(w, RemoveAt(l, k))
  {
    hide Sorted;
    RemoveKeepsSorted(Expiries(l), k);
    RemoveItem(l, k);
  }

  lemma OwnersAfterInsert(l: seq<Item>, p: nat, x: Item)
    requires Distinct(Owners(l)) && x.owner !in Owners(l) && p <= |l|
    ensures Distinct(Owners(InsertAt(l, p, x)))
    ensures forall o :: o in Owners(InsertAt(l, p, x)) <==> o in Owners(l) || o == x.owner
  {
    hide Distinct;
    InsertItem(l, p, x);
    InsertKeepsDistinct(Owners(l), p, x.owner);
    InsertMembers(Owners(l), p, x.owner);
  }

  lemma OwnersAfterRemove(l: seq<Item>, k: nat)
    requires Distinct(Owners(l)) && k < |l|
    ensures Distinct(Owners(RemoveAt(l, k)))
    ensures forall o :: o in Owners(RemoveAt(l, k)) <==> o in Owners(l) && o != l[k].owner
  {
    hide Distinct;
    RemoveItem(l, k);
    RemoveKeepsDistinct(Owners(l), k);
    RemoveMembers(Owners(l), k);
  }

  ghost predicate On(current: seq<Item>, overflow: seq<Item>, x: TimerHandle) {
    x in Owners(current + overflow)
  }

  lemma PutOnCurrent(w: nat, current: seq<Item>, overflow: seq<Item>, x: Item)
    requires ListsOK(w, current, overflow) && !On(current, overflow, x.owner) && x.value < w
    ensures ListsOK(w, Put(current, x), overflow)
    ensures forall o :: On(Put(current, x), overflow, o) <==> On(current, overflow, o) || o == x.owner
    ensures forall y :: y in Put(current, x) <==> y in current || y == x
  {
    hide Distinct, InOrder, InsertAt, Owners;
    var p := InsertPosition(Expiries(current), x.value);
    PutInOrder(w, current, x);
    InsertInJoined(current, overflow, p, x);
    OwnersAfterInsert(current + overflow, p, x);
    InsertMembers(current, p, x);
  }

  lemma PutOnOverflow(w: nat, current: seq<Item>, overflow: seq<Item>, x: Item)
    requires ListsOK(w, current, overflow) && !On(current, overflow, x.owner) && x.value < w
    ensures ListsOK(w, current, Put(overflow, x))
    ensures forall o :: On(current, Put(overflow, x), o) <==> On(current, overflow, o) || o == x.owner
    ensures forall y :: y in Put(overflow, x) <==> y in overflow || y == x
  {
    hide Distinct, InOrder, InsertAt, Owners;
    var p := InsertPosition(Expiries(overflow), x.value);
    PutInOrder(w, overflow, x);
    InsertInJoined(current, overflow, p, x);
    OwnersAfterInsert(current + overflow, |current| + p, x);
    InsertMembers(overflow, p, x);
  }

  lemma TakeFromCurrent(w: nat, current: seq<Item>, overflow: seq<Item>, k: nat)
    requires ListsOK(w, current, overflow) && k < |current|
    ensures ListsOK(w, RemoveAt(current, k), overflow)
    ensures forall o :: On(RemoveAt(current, k), overflow, o) <==> On(current, overflow, o) && o != current[k].owner
    ensures forall y :: y in RemoveAt(current, k) ==> y in current
  {
    hide Distinct, InOrder, Owners;
    TakeInOrder(w, current, k);
    RemoveInJoined(current, overflow, k);
    OwnersAfterRemove(current + overflow, k);
  }

  lemma TakeFromOverflow(w: nat, current: seq<Item>, overflow: seq<Item>, k: nat)
    requires ListsOK(w, current, overflow) && k < |overflow|
    ensures ListsOK(w, current, RemoveAt(overflow, k))
    ensures forall o :: On(current, RemoveAt(overflow, k), o) <==> On(current, overflow, o) && o != overflow[k].owner
    ensures forall y :: y in RemoveAt(overflow, k) ==> y in overflow
  {
    hide Distinct, InOrder, Owners;
    TakeInOrder(w, overflow, k);
    RemoveInJoined(current, overflow, k);
    OwnersAfterRemove(current + overflow, |current| + k);
  }

  /** Everything the invariant speaks of. `clock` is the true time last sampled
      and `wrap` the wrap for which the current list stands. */
  datatype Snapshot = Snapshot(
    w: nat, current: seq<Item>, overflow: seq<Item>,
    timers: map<TimerHandle, Timer>, runs: map<TimerHandle, Run>, clock: nat, wrap: nat)

  /** An item on a list that stands for the given wrap is in step, unless its timer is exempt. */
  ghost predicate ItemOK(s: Snapshot, y: Item, wrap: nat, exempt: set<TimerHandle>) {
    && y.owner in s.timers && y.owner in s.runs && s.timers[y.owner].active
    && (y.owner !in exempt ==> InStep(s.timers[y.owner], s.runs[y.owner], wrap * s.w + y.value, s.clock))
  }

  ghost predicate TimerOK(s: Snapshot, x: TimerHandle, exempt: set<TimerHandle>)
    requires x in s.timers && x in s.runs
  {
    && 0 < s.timers[x].period < s.w && InPast(s.timers[x], s.runs[x], s.clock)
    && (x !in exempt ==> (s.timers[x].active <==> On(s.current, s.overflow, x)) && OneShot(s.timers[x], s.runs[x]))
  }

  /** The state between two steps of the daemon, but for the timers it is working on. */
  ghost predicate Consistent(s: Snapshot, exempt: set<TimerHandle>) {
    && 0 < s.w && ListsOK(s.w, s.current, s.overflow)
    && s.runs.Keys == s.timers.Keys
    && (forall y :: y in s.current ==> ItemOK(s, y, s.wrap, exempt))
    && (forall y :: y in s.overflow ==> ItemOK(s, y, s.wrap + 1, exempt))
    && (forall x {:trigger TimerOK(s, x, exempt)} :: x in s.timers ==> TimerOK(s, x, exempt))
  }

  /** The list item of `x` says it is due at the given true time. */
  ghost predicate DueAt(w: nat, wrap: nat, current: seq<Item>, overflow: seq<Item>, x: TimerHandle, due: nat) {
    && (forall y :: y in current && y.owner == x ==> due == wrap * w + y.value)
    && (forall y :: y in overflow && y.owner == x ==> due == (wrap + 1) * w + y.value)
  }

  /** A timer keeps its settings and its run only gains callbacks. An inactive one
      stays as it is, an auto-reload one stays active, a one-shot one ends with its callback. */
  ghost predicate EvolvedTimer(t0: Timer, r0: Run, t1: Timer, r1: Run) {
    && t1.period == t0.period && t1.autoReload == t0.autoReload
    && r1.start == r0.start && r0.calls <= r1.calls
    && (!t0.active ==> !t1.active && r1 == r0)
    && (t0.active && t0.autoReload ==> t1.active)
    && (t0.active && !t0.autoReload ==> if t1.active then r1 == r0 else |r1.calls| == |r0.calls| + 1)
  }

  ghost predicate Evolved(t0: map<TimerHandle, Timer>, r0: map<TimerHandle, Run>,
                          t1: map<TimerHandle, Timer>, r1: map<TimerHandle, Run>) {
    && t1.Keys == t0.Keys && r1.Keys == r0.Keys && r0.Keys == t0.Keys
    && forall x {:trigger t1[x]} {:trigger r1[x]} :: x in t0 ==> EvolvedTimer(t0[x], r0[x], t1[x], r1[x])
  }

  lemma HeadIsInStep(s: Snapshot, e: set<TimerHandle>)
    requires Consistent(s, e) && s.current != [] && s.current[0].owner !in e
    ensures var y := s.current[0];
            && y.owner in s.timers && y.owner in s.runs && s.timers[y.owner].active && y.value < s.w
            && InStep(s.timers[y.owner], s.runs[y.owner], s.wrap * s.w + y.value, s.clock)
            && On(s.current, s.overflow, y.owner)
    ensures Sorted(Expiries(s.current)) && s.runs.Keys == s.timers.Keys
  {
    assert s.current[0] in s.current;
    OwnerIsOn(s.current, s.overflow, s.current[0]);
  }

  lemma ConsistentBasics(s: Snapshot, e: set<TimerHandle>)
    requires Consistent(s, e)
    ensures 0 < s.w && s.runs.Keys == s.timers.Keys
  {
  }

  /** The head of the current list is not one of the timers that are off the lists. */
  lemma HeadIsOn(s: Snapshot, e: set<TimerHandle>)
    requires Consistent(s, e) && s.current != [] && (forall z <- e :: !On(s.current, s.overflow, z))
    ensures s.current[0].owner !in e && s.current[0].value <= s.w - 1
    ensures Sorted(Expiries(s.current))
  {
    assert s.current[0] in s.current;
    OwnerIsOn(s.current, s.overflow, s.current[0]);
  }

  lemma TimerIsOK(s: Snapshot, x: TimerHandle, e: set<TimerHandle>)
    requires Consistent(s, e) && x in s.timers
    ensures x in s.runs && 0 < s.timers[x].period < s.w && InPast(s.timers[x], s.runs[x], s.clock)
    ensures x !in e ==> OneShot(s.timers[x], s.runs[x])
  {
    assert TimerOK(s, x, e);
  }

  lemma ExemptingOneMore(s: Snapshot, x: TimerHandle)
    requires Consistent(s, {})
    ensures Consistent(s, {x})
  {
    forall y | y in s.current
      ensures ItemOK(s, y, s.wrap, {x})
    {
      assert ItemOK(s, y, s.wrap, {});
    }
    forall y | y in s.overflow
      ensures ItemOK(s, y, s.wrap + 1, {x})
    {
      assert ItemOK(s, y, s.wrap + 1, {});
    }
    forall z | z in s.timers
      ensures TimerOK(s, z, {x})
    {
      assert TimerOK(s, z, {});
    }
  }

  // Steps of the daemon on snapshots: each keeps the rest consistent.

  lemma AfterPutOnCurrent(s: Snapshot, x: Item, due: nat, e: set<TimerHandle>)
    requires due == s.wrap * s.w + x.value
    requires Consistent(s, e) && x.owner in e && x.owner in s.timers && s.timers[x.owner].active
    requires !On(s.current, s.overflow, x.owner) && x.value < s.w
    ensures var t := s.(current := Put(s.current, x));
            && Consistent(t, e) && On(t.current, t.overflow, x.owner)
            && DueAt(t.w, t.wrap, t.current, t.overflow, x.owner, due)
            && forall z :: z != x.owner ==> (On(t.current, t.overflow, z) <==> On(s.current, s.overflow, z))
  {
    hide On, Put, ListsOK, InStep, InPast;
    var t := s.(current := Put(s.current, x));
    PutOnCurrent(s.w, s.current, s.overflow, x);
    forall y | y in t.current
      ensures ItemOK(t, y, t.wrap, e) && (y.owner == x.owner ==> y == x)
    {
      if y != x {
        assert ItemOK(s, y, s.wrap, e);
        OwnerIsOn(s.current, s.overflow, y);
      }
    }
    forall y | y in t.overflow
      ensures ItemOK(t, y, t.wrap + 1, e) && y.owner != x.owner
    {
      assert ItemOK(s, y, s.wrap + 1, e);
      OwnerIsOn(s.current, s.overflow, y);
    }
    forall z | z in t.timers
      ensures TimerOK(t, z, e)
    {
      assert TimerOK(s, z, e);
    }
  }

  lemma AfterPutOnOverflow(s: Snapshot, x: Item, due: nat, e: set<TimerHandle>)
    requires due == (s.wrap + 1) * s.w + x.value
    requires Consistent(s, e) && x.owner in e && x.owner in s.timers && s.timers[x.owner].active
    requires !On(s.current, s.overflow, x.owner) && x.value < s.w
    ensures var t := s.(overflow := Put(s.overflow, x));
            && Consistent(t, e) && On(t.current, t.overflow, x.owner)
            && DueAt(t.w, t.wrap, t.current, t.overflow, x.owner, due)
            && forall z :: z != x.owner ==> (On(t.current, t.overflow, z) <==> On(s.current, s.overflow, z))
  {
    hide On, Put, ListsOK, InStep, InPast;
    var t := s.(overflow := Put(s.overflow, x));
    PutOnOverflow(s.w, s.current, s.overflow, x);
    forall y | y in t.overflow
      ensures ItemOK(t, y, t.wrap + 1, e) && (y.owner == x.owner ==> y == x)
    {
      if y != x {
        assert ItemOK(s, y, s.wrap + 1, e);
        OwnerIsOn(s.current, s.overflow, y);
      }
    }
    forall y | y in t.current
      ensures ItemOK(t, y, t.wrap, e) && y.owner != x.owner
    {
      assert ItemOK(s, y, s.wrap, e);
      OwnerIsOn(s.current, s.overflow, y);
    }
    forall z | z in t.timers
      ensures TimerOK(t, z, e)
    {
      assert TimerOK(s, z, e);
    }
  }

  lemma OwnerIsOn(current: seq<Item>, overflow: seq<Item>, y: Item)
    requires y in current || y in overflow
    ensures On(current, overflow, y.owner)
  {
    assert y in current + overflow;
    var i :| 0 <= i < |current + overflow| && (current + overflow)[i] == y;
    assert Owners(current + overflow)[i] == y.owner;
  }

  /** uxListRemove of the item at `k`, of the current list or of the overflow list. */
  lemma AfterTake(s: Snapshot, fromCurrent: bool, k: nat, e: set<TimerHandle>)
    requires Consistent(s, e) && k < |if fromCurrent then s.current else s.overflow|
    ensures var x := (if fromCurrent then s.current else s.overflow)[k].owner;
            var t := if fromCurrent then s.(current := RemoveAt(s.current, k))
                     else s.(overflow := RemoveAt(s.overflow, k));
            && Consistent(t, e + {x}) && !On(t.current, t.overflow, x)
            && forall z :: z != x ==> (On(t.current, t.overflow, z) <==> On(s.current, s.overflow, z))
  {
    hide On, ListsOK, InStep, InPast;
    var x := (if fromCurrent then s.current else s.overflow)[k].owner;
    var t := if fromCurrent then s.(current := RemoveAt(s.current, k))
             else s.(overflow := RemoveAt(s.overflow, k));
    if fromCurrent {
      TakeFromCurrent(s.w, s.current, s.overflow, k);
    } else {
      TakeFromOverflow(s.w, s.current, s.overflow, k);
    }
    forall y | y in t.current
      ensures ItemOK(t, y, t.wrap, e + {x})
    {
      assert ItemOK(s, y, s.wrap, e);
    }
    forall y | y in t.overflow
      ensures ItemOK(t, y, t.wrap + 1, e + {x})
    {
      assert ItemOK(s, y, s.wrap + 1, e);
    }
    forall z | z in t.timers
      ensures TimerOK(t, z, e + {x})
    {
      assert TimerOK(s, z, e);
    }
  }

  /** The daemon may change what it likes about a timer it is working on. */
  lemma AfterChange(s: Snapshot, x: TimerHandle, timer: Timer, run: Run, e: set<TimerHandle>)
    requires Consistent(s, e) && x in e && x in s.timers
    requires 0 < timer.period < s.w && InPast(timer, run, s.clock)
    requires On(s.current, s.overflow, x) ==> timer.active
    ensures Consistent(s.(timers := s.timers[x := timer], runs := s.runs[x := run]), e)
  {
    var t := s.(timers := s.timers[x := timer], runs := s.runs[x := run]);
    forall y | y in t.current
      ensures ItemOK(t, y, t.wrap, e)
    {
      assert ItemOK(s, y, s.wrap, e);
      OwnerIsOn(s.current, s.overflow, y);
    }
    forall y | y in t.overflow
      ensures ItemOK(t, y, t.wrap + 1, e)
    {
      assert ItemOK(s, y, s.wrap + 1, e);
      OwnerIsOn(s.current, s.overflow, y);
    }
    forall z | z in t.timers
      ensures TimerOK(t, z, e)
    {
      assert z != x ==> TimerOK(s, z, e);
    }
  }

  /** The daemon is done with a timer: it is inactive and on no list, or in step. */
  lemma AfterSettling(s: Snapshot, x: TimerHandle, due: nat, e: set<TimerHandle>)
    requires Consistent(s, e + {x}) && x in s.timers
    requires x in s.runs && OneShot(s.timers[x], s.runs[x])
    requires s.timers[x].active <==> On(s.current, s.overflow, x)
    requires s.timers[x].active ==>
               DueAt(s.w, s.wrap, s.current, s.overflow, x, due) && InStep(s.timers[x], s.runs[x], due, s.clock)
    ensures Consistent(s, e)
  {
    forall y | y in s.current
      ensures ItemOK(s, y, s.wrap, e)
    {
      assert ItemOK(s, y, s.wrap, e + {x});
    }
    forall y | y in s.overflow
      ensures ItemOK(s, y, s.wrap + 1, e)
    {
      assert ItemOK(s, y, s.wrap + 1, e + {x});
    }
    forall z | z in s.timers
      ensures TimerOK(s, z, e)
    {
      assert TimerOK(s, z, e + {x});
    }
  }

  lemma AfterTimePasses(s: Snapshot, clock: nat, e: set<TimerHandle>)
    requires Consistent(s, e) && s.clock <= clock
    ensures Consistent(s.(clock := clock), e)
  {
    var t := s.(clock := clock);
    forall y | y in t.current
      ensures ItemOK(t, y, t.wrap, e)
    {
      assert ItemOK(s, y, s.wrap, e);
    }
    forall y | y in t.overflow
      ensures ItemOK(t, y, t.wrap + 1, e)
    {
      assert ItemOK(s, y, s.wrap + 1, e);
    }
    forall z | z in t.timers
      ensures TimerOK(t, z, e)
    {
      assert TimerOK(s, z, e);
    }
  }

  /** With nothing on the lists any amount of time may pass. */
  lemma AfterIdling(s: Snapshot, clock: nat, wrap: nat, e: set<TimerHandle>)
    requires Consistent(s, e) && s.current == s.overflow == [] && s.clock <= clock
    ensures Consistent(s.(clock := clock, wrap := wrap), e)
  {
    var t := s.(clock := clock, wrap := wrap);
    forall z | z in t.timers
      ensures TimerOK(t, z, e)
    {
      assert TimerOK(s, z, e);
    }
  }

  lemma SomeoneIsActive(s: Snapshot)
    requires Consistent(s, {})
    ensures s.current == s.overflow == [] || exists x :: x in s.timers && s.timers[x].active
  {
    hide ListsOK, InStep;
    if s.current != [] {
      assert s.current[0] in s.current && ItemOK(s, s.current[0], s.wrap, {});
    } else if s.overflow != [] {
      assert s.overflow[0] in s.overflow && ItemOK(s, s.overflow[0], s.wrap + 1, {});
    }
  }

  /** Once the current list has run empty the lists change places. */
  lemma AfterSwap(s: Snapshot, e: set<TimerHandle>)
    requires Consistent(s, e) && s.current == []
    ensures Consistent(s.(current := s.overflow, overflow := [], wrap := s.wrap + 1), e)
    ensures forall z :: On(s.overflow, [], z) <==> On([], s.overflow, z)
  {
    var t := s.(current := s.overflow, overflow := [], wrap := s.wrap + 1);
    assert s.overflow + [] == s.overflow == [] + s.overflow;
    forall y | y in t.current
      ensures ItemOK(t, y, t.wrap, e)
    {
      assert ItemOK(s, y, s.wrap + 1, e);
    }
    forall z | z in t.timers
      ensures TimerOK(t, z, e)
    {
      assert TimerOK(s, z, e);
    }
  }

  /** Nothing on the current list has expired. */
  ghost predicate CaughtUp(s: Snapshot) {
    forall y :: y in s.current ==> s.clock < s.wrap * s.w + y.value
  }

  /** As many callbacks were made as whole periods have passed since the start. */
  ghost predicate FullyServed(t: Timer, r: Run, now: nat) {
    0 < t.period && r.start <= now && |r.calls| == (now - r.start) / t.period
  }

  lemma ServedByNow(t: Timer, r: Run, now: nat)
    requires 0 < t.period && Expiry(r.start, t.period, |r.calls|) <= now < Expiry(r.start, t.period, |r.calls| + 1)
    ensures FullyServed(t, r, now)
  {
    CountIsFloor(r.start, t.period, |r.calls|, now);
  }

  lemma ActiveIsAhead(s: Snapshot, x: TimerHandle) returns (due: nat)
    requires Consistent(s, {}) && s.wrap == WrapOf(s.w, s.clock) && CaughtUp(s)
    requires x in s.timers && s.timers[x].active
    ensures InStep(s.timers[x], s.runs[x], due, s.clock) && s.clock < due
  {
    hide InStep, ListsOK, Sorted, WrapOf, InPast;
    assert TimerOK(s, x, {});
    assert x in Owners(s.current + s.overflow);
    var i :| 0 <= i < |s.current + s.overflow| && Owners(s.current + s.overflow)[i] == x;
    var y := (s.current + s.overflow)[i];
    assert y in s.current || y in s.overflow;
    if y in s.current {
      assert ItemOK(s, y, s.wrap, {});
      due := s.wrap * s.w + y.value;
    } else {
      assert ItemOK(s, y, s.wrap + 1, {});
      TimeFromTick(s.w, s.clock);
      due := (s.wrap + 1) * s.w + y.value;
    }
  }

  /** Once the daemon has caught up, the callback of every active timer was made
      once for each whole period since its start, and never ahead of time. */
  lemma CaughtUpCounts(s: Snapshot, x: TimerHandle)
    requires Consistent(s, {}) && s.wrap == WrapOf(s.w, s.clock) && CaughtUp(s)
    requires x in s.timers && s.timers[x].active
    ensures x in s.runs && FullyServed(s.timers[x], s.runs[x], s.clock)
    ensures InPast(s.timers[x], s.runs[x], s.clock)
  {
    hide Consistent, Expiry, CaughtUp, WrapOf, InPast;
    var due := ActiveIsAhead(s, x);
    TimerIsOK(s, x, {});
    CountIsFloor(s.runs[x].start, s.timers[x].period, |s.runs[x].calls|, s.clock);
  }

  /** The first item of the current list has the earliest expiry of all items. */
  lemma HeadIsFirst(s: Snapshot, e: set<TimerHandle>)
    requires Consistent(s, e)
    ensures s.current != [] ==> forall y :: y in s.current ==> s.current[0].value <= y.value
    ensures forall y :: y in s.current || y in s.overflow ==> y.value < s.w
  {
    forall y | y in s.current
      ensures s.current[0].value <= y.value && y.value < s.w
    {
      var i :| 0 <= i < |s.current| && s.current[i] == y;
      assert Expiries(s.current)[0] <= Expiries(s.current)[i];
    }
    forall y | y in s.overflow
      ensures y.value < s.w
    {
      var i :| 0 <= i < |s.overflow| && s.overflow[i] == y;
    }
  }

  /** Blocking for `ticks` from the sampled time ends by the first expiry. */
  ghost predicate WakesInTime(s: Snapshot, ticks: nat) {
    && (forall y :: y in s.current ==> s.clock + ticks <= s.wrap * s.w + y.value)
    && (forall y :: y in s.overflow ==> s.clock + ticks <= (s.wrap + 1) * s.w + y.value)
  }

  /** It ends exactly at the first expiry of the current list, or with the wrap; at
      the start of a wrap with an empty list the computed time is 0. */
  ghost predicate WakesExactly(s: Snapshot, tick: nat, ticks: nat) {
    if s.current != [] then s.clock + ticks == s.wrap * s.w + s.current[0].value
    else if tick == 0 then ticks == 0
    else s.clock + ticks == (s.wrap + 1) * s.w
  }

  lemma WakesExactlyMeans(s: Snapshot, tick: nat, ticks: nat)
    requires WakesExactly(s, tick, ticks)
    ensures s.current != [] ==> s.clock + ticks == s.wrap * s.w + s.current[0].value
    ensures s.current == [] ==> if tick == 0 then ticks == 0 else s.clock + ticks == (s.wrap + 1) * s.w
  {
  }

  lemma BlockTime(s: Snapshot, ticks: nat)
    requires Consistent(s, {}) && s.wrap == WrapOf(s.w, s.clock)
    requires s.current != [] ==> Tick(s.w, s.clock) < s.current[0].value
    requires ticks == ((if s.current == [] then 0 else s.current[0].value) - Tick(s.w, s.clock)) % s.w
    ensures CaughtUp(s) && WakesInTime(s, ticks)
    ensures s.current != [] ==> s.clock + ticks == s.wrap * s.w + s.current[0].value
    ensures s.current == [] ==>
              if Tick(s.w, s.clock) == 0 then ticks == 0 else s.clock + ticks == (s.wrap + 1) * s.w
  {
    HeadIsFirst(s, {});
    var now := Tick(s.w, s.clock);
    assert s.clock == s.wrap * s.w + now;
    assert (s.wrap + 1) * s.w == s.wrap * s.w + s.w;
    if s.current != [] {
      DivModUnique(s.w, s.current[0].value - now, 0, s.current[0].value - now);
    } else if now != 0 {
      WrapNegative(s.w, (0 as int) - now);
    } else {
      DivModUnique(s.w, 0, 0, 0);
    }
  }

  /** A start or reset command carries the tick count of the time at which it was
      issued, less than one wrap ago; a new period is less than one wrap. */
  ghost predicate WellIssued(w: nat, command: Command, issued: nat, now: nat) {
    && 0 < w
    && (command.Start? || command.Reset? ==> command.issued == Tick(w, issued) && issued <= now < issued + w)
    && (command.ChangePeriod? ==> 0 < command.newPeriod < w)
  }

  /** What a command leaves of its timer and its run, at true time `now`. */
  ghost predicate CarriedOut(command: Command, issued: nat, now: nat, t0: Timer, r0: Run, t1: Timer, r1: Run) {
    match command
    case Start(_) => Restarted(issued, now, t0, t1, r1)
    case Reset(_) => Restarted(issued, now, t0, t1, r1)
    case ChangePeriod(newPeriod) => t1 == t0.(period := newPeriod, active := true) && r1 == Run(now, [])
    case _ => t1 == t0.(active := false) && r1 == r0
  }

  /** The timer runs from the time of the command, and what has been due since
      then was called back; a one-shot timer that was due is over. */
  ghost predicate Restarted(issued: nat, now: nat, t0: Timer, t1: Timer, r1: Run) {
    && t1.period == t0.period && t1.autoReload == t0.autoReload && r1.start == issued
    && (t1.active <==> t1.autoReload || now < issued + t1.period)
    && (if t1.active then FullyServed(t1, r1, now) else |r1.calls| == 1)
  }

  /** All timers but one have evolved. */
  ghost predicate OthersEvolved(t0: map<TimerHandle, Timer>, r0: map<TimerHandle, Run>,
                                t1: map<TimerHandle, Timer>, r1: map<TimerHandle, Run>, x: TimerHandle) {
    && t1.Keys == t0.Keys && r1.Keys == r0.Keys && r0.Keys == t0.Keys
    && forall z {:trigger t1[z]} {:trigger r1[z]} :: z in t0 && z != x ==> EvolvedTimer(t0[z], r0[z], t1[z], r1[z])
  }

  lemma EvolvedKeys(t0: map<TimerHandle, Timer>, r0: map<TimerHandle, Run>,
                    t1: map<TimerHandle, Timer>, r1: map<TimerHandle, Run>)
    requires Evolved(t0, r0, t1, r1)
    ensures t1.Keys == t0.Keys == r0.Keys == r1.Keys
  {
  }

  lemma OthersEvolve(t0: map<TimerHandle, Timer>, r0: map<TimerHandle, Run>,
                     t1: map<TimerHandle, Timer>, r1: map<TimerHandle, Run>,
                     t2: map<TimerHandle, Timer>, r2: map<TimerHandle, Run>, x: TimerHandle)
    requires Evolved(t0, r0, t1, r1) && x in t1 && x in t2 && x in r2
    requires t2 == t1[x := t2[x]] && r2 == r1[x := r2[x]]
    ensures OthersEvolved(t0, r0, t2, r2, x)
  {
  }

  lemma EvolvedTwice(t0: map<TimerHandle, Timer>, r0: map<TimerHandle, Run>,
                     t1: map<TimerHandle, Timer>, r1: map<TimerHandle, Run>,
                     t2: map<TimerHandle, Timer>, r2: map<TimerHandle, Run>)
    requires Evolved(t0, r0, t1, r1) && Evolved(t1, r1, t2, r2)
    ensures Evolved(t0, r0, t2, r2)
  {
  }

  lemma NothingEvolved(t: map<TimerHandle, Timer>, r: map<TimerHandle, Run>)
    requires r.Keys == t.Keys
    ensures Evolved(t, r, t, r)
  {
  }

  /** A timer that gets no command: an inactive one stays so, an auto-reload one
      was called back once for each whole period, and a one-shot one was called
      back once if its period is over and not at all otherwise; each callback
      was made between the expiry it stands for and now. */
  ghost predicate LeftAlone(t0: Timer, r0: Run, t1: Timer, r1: Run, now: nat) {
    && t1.period == t0.period > 0 && t1.autoReload == t0.autoReload && r1.start == r0.start && r0.calls <= r1.calls
    && InPast(t1, r1, now)
    && (if !t0.active then t1 == t0 && r1 == r0
        else if t0.autoReload then t1.active && |r1.calls| == (now - r1.start) / t1.period
        else (t1.active <==> now < r1.start + t1.period) && |r1.calls| == if t1.active then 0 else 1)
  }

  lemma ServedWhenLeftAlone(t0: Timer, r0: Run, t1: Timer, r1: Run, now: nat)
    requires EvolvedTimer(t0, r0, t1, r1) && InPast(t1, r1, now) && t0.period > 0 && OneShot(t0, r0)
    requires t1.active ==> FullyServed(t1, r1, now)
    ensures LeftAlone(t0, r0, t1, r1, now)
  {
    if t0.active && !t0.autoReload {
      if t1.active {
        CountBelowOne(now - r1.start, t1.period);
      } else {
        assert Expiry(r1.start, t1.period, 1) <= r1.calls[0] <= now;
      }
    }
  }

  lemma CountBelowOne(elapsed: nat, period: nat)
    requires 0 < period && elapsed / period == 0
    ensures elapsed < period
  {
  }

  lemma BootIsConsistent(w: nat)
    requires 0 < w
    ensures Consistent(Snapshot(w, [], [], map[], map[], 0, 0), {}) && Tick(w, 0) == 0 && WrapOf(w, 0) == 0
  {
    DivModUnique(w, 0, 0, 0);
  }

  // What the steps of the daemon mean for each timer by itself.

  /** At true time `now`: one round, rounds until the daemon blocks, or a command
      about timer `x`, which if it is a start or reset was issued at true time `issued`.
      Only after rounds until it blocks can the daemon sleep for more than one wrap.
      In between a task may create a timer. */
  datatype Step =
    | Round(now: nat)
    | CatchUp(now: nat)
    | Obey(now: nat, x: TimerHandle, command: Command, issued: nat)
    | Create(x: TimerHandle, period: nat, autoReload: bool)

  datatype Activity = Stopped | Running(start: nat) | Over(start: nat)

  /** What a timer should be doing, without lists, rounds and other timers. */
  datatype Plan = Absent | Plan(period: nat, autoReload: bool, activity: Activity)

  function PlanOf(t: Timer, r: Run): Plan {
    Plan(t.period, t.autoReload, if t.active then Running(r.start) else Stopped)
  }

  function PlanIn(t: map<TimerHandle, Timer>, r: map<TimerHandle, Run>, x: TimerHandle): Plan {
    if x in t && x in r then PlanOf(t[x], r[x]) else Absent
  }

  predicate Busy(p: Plan) {
    p.Plan? && p.activity.Running?
  }

  /** A one-shot timer is over at its expiry. */
  function Settled(p: Plan, now: nat): Plan {
    if Busy(p) && !p.autoReload && p.activity.start + p.period <= now then p.(activity := Over(p.activity.start))
    else p
  }

  function Commanded(p: Plan, command: Command, issued: nat, now: nat): Plan
    requires p.Plan?
  {
    match command
    case ChangePeriod(newPeriod) => p.(period := newPeriod, activity := Running(now))
    case Stop => p.(activity := Stopped)
    case Delete => p.(activity := Stopped)
    case _ => Settled(p.(activity := Running(issued)), now)
  }

  /** The plan of timer `x` after one more step, and after many. */
  function NextPlan(p: Plan, step: Step, x: TimerHandle): Plan {
    match step
    case Round(_) => p
    case CatchUp(now) => Settled(p, now)
    case Obey(now, y, command, issued) => if y == x && p.Plan? then Commanded(p, command, issued, now) else p
    case Create(y, period, autoReload) => if y == x && p.Absent? then Plan(period, autoReload, Stopped) else p
  }

  function Planned(p: Plan, steps: seq<Step>, x: TimerHandle): Plan {
    var last := |steps| - 1;
    if steps == [] then p else NextPlan(Planned(p, steps[..last], x), steps[last], x)
  }

  /** What timer `x` should be doing after some steps. */
  function PlanAfter(steps: seq<Step>, t0: map<TimerHandle, Timer>, r0: map<TimerHandle, Run>, x: TimerHandle): Plan {
    Planned(PlanIn(t0, r0, x), steps, x)
  }

  /** A timer has done what its plan says, or is late with an expiry. */
  ghost predicate Follows(p: Plan, t: Timer, r: Run) {
    && p.Plan? && t.period == p.period && t.autoReload == p.autoReload
    && match p.activity
       case Stopped => !t.active
       case Running(start) =>
         && r.start == start
         && (if t.autoReload then t.active else if t.active then r.calls == [] else |r.calls| == 1)
       case Over(start) => r.start == start && !t.active && |r.calls| == 1
  }

  /** A timer has done exactly what its plan says by `now`. */
  ghost predicate Meets(p: Plan, t: Timer, r: Run, now: nat) {
    && p.Plan? && t.period == p.period && t.autoReload == p.autoReload && InPast(t, r, now)
    && match p.activity
       case Stopped => !t.active
       case Running(start) => t.active && r.start == start && FullyServed(t, r, now)
       case Over(start) => !t.active && r.start == start && |r.calls| == 1
  }

  lemma FollowsAtFirst(t: Timer, r: Run)
    requires OneShot(t, r)
    ensures Follows(PlanOf(t, r), t, r)
  {
  }

  lemma FollowsWhenEvolved(p: Plan, t0: Timer, r0: Run, t1: Timer, r1: Run)
    requires Follows(p, t0, r0) && EvolvedTimer(t0, r0, t1, r1)
    ensures Follows(p, t1, r1)
  {
  }

  lemma FollowsCommand(p: Plan, t0: Timer, r0: Run, t1: Timer, r1: Run, command: Command, issued: nat, now: nat)
    requires Follows(p, t0, r0) && CarriedOut(command, issued, now, t0, r0, t1, r1) && t1.period > 0
    ensures Follows(Commanded(p, command, issued, now), t1, r1)
  {
    if (command.Start? || command.Reset?) && t1.active && !t1.autoReload {
      NoneBeforeOne(issued, t1.period, now);
    }
  }

  lemma NoneBeforeOne(start: nat, period: nat, now: nat)
    requires 0 < period && start <= now < start + period
    ensures (now - start) / period == 0
  {
    DivModUnique(period, now - start, 0, now - start);
  }

  /** Once the daemon has caught up, a timer does exactly what its plan says. */
  lemma MeetsWhenServed(p: Plan, t: Timer, r: Run, now: nat)
    requires Follows(p, t, r) && InPast(t, r, now) && t.period > 0 && (t.active ==> FullyServed(t, r, now))
    ensures Meets(Settled(p, now), t, r, now) && Follows(Settled(p, now), t, r)
  {
    if Busy(p) && !t.autoReload {
      if t.active {
        CountBelowOne(now - r.start, t.period);
      } else {
        assert Expiry(r.start, t.period, 1) <= r.calls[0] <= now;
      }
    }
  }

  /** Every timer follows its plan, and there are no others. */
  ghost predicate AllFollow(steps: seq<Step>, t0: map<TimerHandle, Timer>, r0: map<TimerHandle, Run>,
                            t: map<TimerHandle, Timer>, r: map<TimerHandle, Run>) {
    t.Keys == r.Keys && forall x {:trigger FollowsAt(steps, t0, r0, t, r, x)} :: FollowsAt(steps, t0, r0, t, r, x)
  }

  ghost predicate FollowsAt(steps: seq<Step>, t0: map<TimerHandle, Timer>, r0: map<TimerHandle, Run>,
                            t: map<TimerHandle, Timer>, r: map<TimerHandle, Run>, x: TimerHandle) {
    var p := PlanAfter(steps, t0, r0, x);
    if p.Absent? then x !in t else x in t && x in r && Follows(p, t[x], r[x])
  }

  /** Every timer has done what its plan says, and there are no others. */
  ghost predicate AllMeet(steps: seq<Step>, t0: map<TimerHandle, Timer>, r0: map<TimerHandle, Run>,
                          t: map<TimerHandle, Timer>, r: map<TimerHandle, Run>, now: nat) {
    t.Keys == r.Keys && forall x {:trigger MeetsAt(steps, t0, r0, t, r, now, x)} :: MeetsAt(steps, t0, r0, t, r, now, x)
  }

  ghost predicate MeetsAt(steps: seq<Step>, t0: map<TimerHandle, Timer>, r0: map<TimerHandle, Run>,
                          t: map<TimerHandle, Timer>, r: map<TimerHandle, Run>, now: nat, x: TimerHandle) {
    var p := PlanAfter(steps, t0, r0, x);
    if p.Absent? then x !in t else x in t && x in r && Meets(p, t[x], r[x], now)
  }

  predicate Unnamed(steps: seq<Step>, x: TimerHandle) {
    forall step <- steps :: step.Obey? ==> step.x != x
  }

  /** The timers that no command is about have evolved. */
  ghost predicate UnnamedEvolved(steps: seq<Step>, t0: map<TimerHandle, Timer>, r0: map<TimerHandle, Run>,
                                 t: map<TimerHandle, Timer>, r: map<TimerHandle, Run>) {
    && r.Keys == t.Keys && r0.Keys == t0.Keys
    && forall x :: x in t0 && Unnamed(steps, x) ==> x in t && EvolvedTimer(t0[x], r0[x], t[x], r[x])
  }

  /** No timer is planned to be active. */
  ghost predicate NothingPlanned(steps: seq<Step>, t0: map<TimerHandle, Timer>, r0: map<TimerHandle, Run>) {
    forall x :: !Busy(PlanAfter(steps, t0, r0, x))
  }

  /** The true time of the last sample after so many steps. */
  function TimeAfter(clock: nat, steps: seq<Step>): nat {
    var last := |steps| - 1;
    if steps == [] then clock
    else if steps[last].Create? then TimeAfter(clock, steps[..last])
    else steps[last].now
  }

  /** Each sample follows the one before within less than one wrap, unless no timer
      is planned to be active, and what a step asks for can be asked for. */
  ghost predicate StepOK(w: nat, clock: nat, before: seq<Step>, step: Step,
                         t0: map<TimerHandle, Timer>, r0: map<TimerHandle, Run>) {
    var last := TimeAfter(clock, before);
    if step.Create? then
      PlanAfter(before, t0, r0, step.x).Absent? && 0 < step.period < w
    else
      && last <= step.now && (step.now < last + w || NothingPlanned(before, t0, r0))
      && (step.Obey? ==> PlanAfter(before, t0, r0, step.x).Plan? && WellIssued(w, step.command, step.issued, step.now))
  }

  ghost predicate StepsOK(w: nat, clock: nat, steps: seq<Step>, t0: map<TimerHandle, Timer>, r0: map<TimerHandle, Run>) {
    forall i {:trigger steps[i]} :: 0 <= i < |steps| ==> StepOK(w, clock, steps[..i], steps[i], t0, r0)
  }

  lemma TimeOneMore(clock: nat, steps: seq<Step>, i: nat)
    requires i < |steps|
    ensures TimeAfter(clock, steps[..i+1]) == if steps[i].Create? then TimeAfter(clock, steps[..i]) else steps[i].now
  {
    assert steps[..i+1][..i] == steps[..i];
  }

  lemma OneMoreStep(steps: seq<Step>, i: nat, p: Plan, x: TimerHandle)
    requires i < |steps|
    ensures Planned(p, steps[..i+1], x) == NextPlan(Planned(p, steps[..i], x), steps[i], x)
    ensures Unnamed(steps[..i+1], x) <==> Unnamed(steps[..i], x) && (steps[i].Obey? ==> steps[i].x != x)
  {
    assert steps[..i+1][..i] == steps[..i];
    assert forall step :: step in steps[..i+1] <==> step in steps[..i] || step == steps[i];
  }

  /** What one step does to the timers. */
  ghost predicate StepDone(step: Step, t0: map<TimerHandle, Timer>, r0: map<TimerHandle, Run>,
                           t1: map<TimerHandle, Timer>, r1: map<TimerHandle, Run>) {
    match step
    case Round(_) => Evolved(t0, r0, t1, r1)
    case CatchUp(now) => Evolved(t0, r0, t1, r1) && Served(t1, r1, now)
    case Obey(now, x, command, issued) =>
      && OthersEvolved(t0, r0, t1, r1, x) && x in t0 && x in r0 && x in t1 && x in r1
      && CarriedOut(command, issued, now, t0[x], r0[x], t1[x], r1[x])
    case Create(x, period, autoReload) =>
      && t0.Keys == r0.Keys && x !in t0
      && t1 == t0[x := Timer(period, autoReload, false)] && r1 == r0[x := Run(0, [])]
  }

  /** Every active timer was called back once for each whole period. */
  ghost predicate Served(t: map<TimerHandle, Timer>, r: map<TimerHandle, Run>, now: nat) {
    t.Keys == r.Keys && forall x :: x in t && t[x].active ==> FullyServed(t[x], r[x], now)
  }

  /** After a step every timer follows its plan again, and meets it if the daemon has caught up. */
  lemma AfterStep(s: Snapshot, steps: seq<Step>, i: nat, t0: map<TimerHandle, Timer>, r0: map<TimerHandle, Run>,
                  t1: map<TimerHandle, Timer>, r1: map<TimerHandle, Run>)
    requires Consistent(s, {}) && i < |steps| && (steps[i].CatchUp? ==> s.clock == steps[i].now)
    requires AllFollow(steps[..i], t0, r0, t1, r1) && UnnamedEvolved(steps[..i], t0, r0, t1, r1)
    requires StepDone(steps[i], t1, r1, s.timers, s.runs)
    ensures AllFollow(steps[..i+1], t0, r0, s.timers, s.runs) && UnnamedEvolved(steps[..i+1], t0, r0, s.timers, s.runs)
    ensures steps[i].CatchUp? ==> AllMeet(steps[..i+1], t0, r0, s.timers, s.runs, s.clock)
  {
    hide Consistent, StepDone, FollowsAt, MeetsAt, EvolvedTimer, Unnamed;
    ConsistentBasics(s, {});
    var next := steps[..i+1];
    forall x
      ensures FollowsAt(next, t0, r0, s.timers, s.runs, x)
      ensures steps[i].CatchUp? ==> MeetsAt(next, t0, r0, s.timers, s.runs, s.clock, x)
    {
      assert FollowsAt(steps[..i], t0, r0, t1, r1, x);
      AfterStepAt(s, steps, i, t0, r0, t1, r1, x);
    }
    forall x | x in t0 && Unnamed(next, x)
      ensures x in s.timers && EvolvedTimer(t0[x], r0[x], s.timers[x], s.runs[x])
    {
      OneMoreStep(steps, i, Absent, x);
      OneStepEvolves(steps[i], t1, r1, s.timers, s.runs, x);
      TimerEvolvedTwice(t0[x], r0[x], t1[x], r1[x], s.timers[x], s.runs[x]);
    }
  }

  /** A timer that a step does not name evolves. */
  lemma OneStepEvolves(step: Step, t0: map<TimerHandle, Timer>, r0: map<TimerHandle, Run>,
                       t1: map<TimerHandle, Timer>, r1: map<TimerHandle, Run>, x: TimerHandle)
    requires StepDone(step, t0, r0, t1, r1)
    ensures t0.Keys == r0.Keys && t1.Keys == r1.Keys
    ensures x in t0 ==> x in t1 && ((step.Obey? ==> step.x != x) ==> EvolvedTimer(t0[x], r0[x], t1[x], r1[x]))
    ensures x !in t0 ==> (x in t1 <==> step.Create? && step.x == x)
  {
    hide CarriedOut, Served, FullyServed;
  }

  /** What a step does to one timer is what its plan says. */
  lemma AfterStepAt(s: Snapshot, steps: seq<Step>, i: nat, t0: map<TimerHandle, Timer>, r0: map<TimerHandle, Run>,
                    t1: map<TimerHandle, Timer>, r1: map<TimerHandle, Run>, x: TimerHandle)
    requires Consistent(s, {}) && i < |steps| && (steps[i].CatchUp? ==> s.clock == steps[i].now)
    requires FollowsAt(steps[..i], t0, r0, t1, r1, x) && StepDone(steps[i], t1, r1, s.timers, s.runs)
    ensures FollowsAt(steps[..i+1], t0, r0, s.timers, s.runs, x)
    ensures steps[i].CatchUp? ==> MeetsAt(steps[..i+1], t0, r0, s.timers, s.runs, s.clock, x)
  {
    hide Consistent, InPast, Follows, Meets, CarriedOut, FullyServed, Planned, PlanIn, Unnamed, Commanded,
         EvolvedTimer, OneShot, Evolved, OthersEvolved;
    var p := PlanAfter(steps[..i], t0, r0, x);
    OneMoreStep(steps, i, PlanIn(t0, r0, x), x);
    OneStepEvolves(steps[i], t1, r1, s.timers, s.runs, x);
    if x in s.timers {
      TimerIsOK(s, x, {});
      if x !in t1 {
        NewTimerFollows(steps[i].period, steps[i].autoReload);
      } else if steps[i].Obey? && steps[i].x == x {
        assert Follows(p, t1[x], r1[x]);
        FollowsCommand(p, t1[x], r1[x], s.timers[x], s.runs[x], steps[i].command, steps[i].issued, steps[i].now)
          by { FollowsMeans(p, t1[x], r1[x]); }
      } else {
        FollowsWhenEvolved(p, t1[x], r1[x], s.timers[x], s.runs[x]);
      }
      if steps[i].CatchUp? {
        MeetsWhenServed(p, s.timers[x], s.runs[x], s.clock);
      }
    }
  }

  lemma FollowsMeans(p: Plan, t: Timer, r: Run)
    requires Follows(p, t, r)
    ensures p.Plan?
  {
  }

  lemma NewTimerFollows(period: nat, autoReload: bool)
    ensures Follows(Plan(period, autoReload, Stopped), Timer(period, autoReload, false), Run(0, []))
  {
  }

  lemma TimerEvolvedTwice(t0: Timer, r0: Run, t1: Timer, r1: Run, t2: Timer, r2: Run)
    requires EvolvedTimer(t0, r0, t1, r1) && EvolvedTimer(t1, r1, t2, r2)
    ensures EvolvedTimer(t0, r0, t2, r2)
  {
  }

  lemma FollowAtFirst(s: Snapshot)
    requires Consistent(s, {})
    ensures AllFollow([], s.timers, s.runs, s.timers, s.runs) && UnnamedEvolved([], s.timers, s.runs, s.timers, s.runs)
  {
    hide Consistent, InPast, ListsOK;
    ConsistentBasics(s, {});
    var none: seq<Step> := [];
    forall x
      ensures FollowsAt(none, s.timers, s.runs, s.timers, s.runs, x)
    {
      if x in s.timers {
        TimerIsOK(s, x, {});
        FollowsAtFirst(s.timers[x], s.runs[x]);
      }
    }
  }

  lemma NothingListed(s: Snapshot, steps: seq<Step>, t0: map<TimerHandle, Timer>, r0: map<TimerHandle, Run>)
    requires Consistent(s, {}) && AllFollow(steps, t0, r0, s.timers, s.runs) && NothingPlanned(steps, t0, r0)
    ensures s.current == s.overflow == []
  {
    hide Consistent, PlanAfter;
    SomeoneIsActive(s);
    forall x | x in s.timers
      ensures !s.timers[x].active
    {
      assert FollowsAt(steps, t0, r0, s.timers, s.runs, x) && !Busy(PlanAfter(steps, t0, r0, x));
    }
  }

  /** A step that is planned in time is in time, and its timer is there or not yet there. */
  lemma StepIsInTime(s: Snapshot, clock: nat, steps: seq<Step>, i: nat, t0: map<TimerHandle, Timer>, r0: map<TimerHandle, Run>)
    requires i < |steps| && Consistent(s, {}) && AllFollow(steps[..i], t0, r0, s.timers, s.runs)
    requires StepsOK(s.w, clock, steps, t0, r0) && s.clock == TimeAfter(clock, steps[..i])
    ensures !steps[i].Create? ==>
              && s.clock <= steps[i].now && (steps[i].now < s.clock + s.w || s.current == s.overflow == [])
              && TimeAfter(clock, steps[..i+1]) == steps[i].now
    ensures steps[i].Obey? ==> steps[i].x in s.timers && WellIssued(s.w, steps[i].command, steps[i].issued, steps[i].now)
    ensures steps[i].Create? ==>
              steps[i].x !in s.timers && 0 < steps[i].period < s.w && TimeAfter(clock, steps[..i+1]) == s.clock
  {
    hide Consistent, Follows, WellIssued, PlanAfter, NothingPlanned, TimeAfter;
    TimeOneMore(clock, steps, i);
    assert StepOK(s.w, clock, steps[..i], steps[i], t0, r0);
    if NothingPlanned(steps[..i], t0, r0) {
      NothingListed(s, steps[..i], t0, r0);
    }
    if steps[i].Obey? || steps[i].Create? {
      assert FollowsAt(steps[..i], t0, r0, s.timers, s.runs, steps[i].x);
    }
  }

  lemma LeftAloneUnnamed(s0: Snapshot, s: Snapshot, steps: seq<Step>, x: TimerHandle)
    requires Consistent(s0, {}) && Consistent(s, {}) && x in s0.timers && Unnamed(steps, x)
    requires UnnamedEvolved(steps, s0.timers, s0.runs, s.timers, s.runs)
    requires AllMeet(steps, s0.timers, s0.runs, s.timers, s.runs, s.clock)
    ensures x in s.timers && x in s.runs && x in s0.runs
    ensures LeftAlone(s0.timers[x], s0.runs[x], s.timers[x], s.runs[x], s.clock)
  {
    hide Consistent, InPast, PlanAfter, FullyServed;
    TimerIsOK(s, x, {});
    TimerIsOK(s0, x, {});
    assert MeetsAt(steps, s0.timers, s0.runs, s.timers, s.runs, s.clock, x);
    ServedWhenLeftAlone(s0.timers[x], s0.runs[x], s.timers[x], s.runs[x], s.clock);
  }

  class TimerDaemon {
    /** The number of tick counts: one more than tmrMAX_TIME_BEFORE_OVERFLOW. */
    const w: nat
    var current: seq<Item>
    var overflow: seq<Item>
    var lastTime: nat
    var timers: map<TimerHandle, Timer>

    ghost var runs: map<TimerHandle, Run>
    ghost var clock: nat
    ghost var wrap: nat

    ghost function View(): Snapshot
      reads this
    {
      Snapshot(w, current, overflow, timers, runs, clock, wrap)
    }

    ghost predicate Valid()
      reads this
    {
      Consistent(View(), {}) && lastTime == Tick(w, clock) && wrap == WrapOf(w, clock)
    }

    /** prvCheckForValidListAndQueue, at the boot of the tick counter. */
    constructor (w: nat)
      requires 0 < w
      ensures Valid() && this.w == w && timers == map[] && clock == 0
    {
      hide Consistent, Tick, WrapOf;
      BootIsConsistent(w);
      this.w, current, overflow, lastTime, timers := w, [], [], 0, map[];
      runs, clock, wrap := map[], 0, 0;
    }

    /** prvInsertTimerInActiveList. `c` and `n` are the true times of the tick
        counts `command` and `now`, `e` the timers being worked on. */
    method InsertTimerInActiveList(x: TimerHandle, next: nat, now: nat, command: nat,
                                   ghost c: nat, ghost n: nat, ghost e: set<TimerHandle>)
      returns (processNow: bool)
      requires Consistent(View(), e) && x in e && x in timers && timers[x].active
      requires !On(current, overflow, x)
      requires c <= n < c + w && WrapOf(w, n) == wrap
      requires next == Tick(w, c + timers[x].period) && now == Tick(w, n) && command == Tick(w, c)
      modifies this`current, this`overflow
      ensures Consistent(View(), e)
      ensures processNow <==> c + timers[x].period <= n
      ensures processNow ==> current == old(current) && overflow == old(overflow)
      ensures !processNow ==> On(current, overflow, x) && DueAt(w, wrap, current, overflow, x, c + timers[x].period)
      ensures forall z :: z != x ==> (On(current, overflow, z) <==> On(old(current), old(overflow), z))
      ensures MayGain(old(current), current, x, now, w)
    {
      hide On, Put, Consistent, DueAt, Tick, WrapOf;
      ghost var s := View();
      ConsistentBasics(s, e);
      TimerIsOK(s, x, e);
      PlacementIsExact(w, timers[x].period, c, n);
      ghost var due := c + timers[x].period;
      TimeFromTick(w, due);
      TicksAreSmall(w, due, n, c);
      processNow := false;
      if next <= now {
        if (now - command) % w >= timers[x].period {
          processNow := true;
        } else {
          AfterPutOnOverflow(s, Item(next, x), due, e);
          overflow := Put(overflow, Item(next, x));
        }
      } else if now < command && next >= command {
        processNow := true;
      } else {
        AfterPutOnCurrent(s, Item(next, x), due, e);
        current := Put(current, Item(next, x));
      }
    }

    /** prvReloadTimer: `expired` is the tick count of the expiry at true time `at`,
        whose callback the caller makes. */
    method ReloadTimer(x: TimerHandle, expired: nat, now: nat, ghost at: nat, ghost n: nat, ghost e: set<TimerHandle>)
      requires Consistent(View(), e) && x in e && x in timers && timers[x].active
      requires !On(current, overflow, x)
      requires at == Expiry(runs[x].start, timers[x].period, |runs[x].calls| + 1)
      requires at <= n < at + w && WrapOf(w, n) == wrap && n <= clock
      requires expired == Tick(w, at) && now == Tick(w, n)
      modifies this`current, this`overflow, this`runs
      ensures Consistent(View(), e) && On(current, overflow, x)
      ensures runs == old(runs)[x := runs[x]] && runs[x].start == old(runs)[x].start
      ensures old(runs)[x].calls <= runs[x].calls
      ensures var k := |runs[x].calls|;
              && DueAt(w, wrap, current, overflow, x, Expiry(runs[x].start, timers[x].period, k + 2))
              && Expiry(runs[x].start, timers[x].period, k + 1) <= n < Expiry(runs[x].start, timers[x].period, k + 2)
      ensures forall z :: z != x ==> (On(current, overflow, z) <==> On(old(current), old(overflow), z))
      ensures MayGain(old(current), current, x, now, w)
    {
      hide On, DueAt, Consistent, Expiry, MayGain, InPast, Tick, WrapOf;
      var expiredTime := expired;
      ghost var a := at;
      TimerIsOK(View(), x, e);
      AddModulo(w, a, timers[x].period);
      ExpiryStep(runs[x].start, timers[x].period, |runs[x].calls| + 1);
      var again := InsertTimerInActiveList(x, Tick(w, expiredTime + timers[x].period), now, expiredTime, a, n, e);
      while again
        invariant Consistent(View(), e)
        invariant x in runs && runs == old(runs)[x := runs[x]] && runs[x].start == old(runs)[x].start
        invariant old(runs)[x].calls <= runs[x].calls
        invariant a == Expiry(runs[x].start, timers[x].period, |runs[x].calls| + 1)
        invariant at <= a <= n && expiredTime == Tick(w, a)
        invariant again <==> a + timers[x].period <= n
        invariant again ==> current == old(current) && overflow == old(overflow)
        invariant !again ==> On(current, overflow, x) && DueAt(w, wrap, current, overflow, x, a + timers[x].period)
        invariant forall z :: z != x ==> (On(current, overflow, z) <==> On(old(current), old(overflow), z))
        invariant MayGain(old(current), current, x, now, w)
        decreases n - a
      {
        AddModulo(w, a, timers[x].period);
        expiredTime := Tick(w, expiredTime + timers[x].period);
        a := a + timers[x].period;
        MakeCallback(x, e);
        AddModulo(w, a, timers[x].period);
        ExpiryStep(runs[x].start, timers[x].period, |runs[x].calls|);
        again := InsertTimerInActiveList(x, Tick(w, expiredTime + timers[x].period), now, expiredTime, a, n, e);
      }
      ExpiryStep(runs[x].start, timers[x].period, |runs[x].calls| + 1);
    }

    /** Changes the settings of a timer the daemon is working on, or starts a new run of it. */
    method SetTimer(x: TimerHandle, timer: Timer, ghost run: Run, ghost e: set<TimerHandle>)
      requires Consistent(View(), e) && x in e && x in timers
      requires 0 < timer.period < w && InPast(timer, run, clock)
      requires On(current, overflow, x) ==> timer.active
      modifies this`timers, this`runs
      ensures Consistent(View(), e)
      ensures timers == old(timers)[x := timer] && runs == old(runs)[x := run]
    {
      hide On, Consistent, InPast;
      AfterChange(View(), x, timer, run, e);
      timers := timers[x := timer];
      runs := runs[x := run];
    }

    /** The user's callback, of which only the time is recorded. */
    ghost method MakeCallback(x: TimerHandle, e: set<TimerHandle>)
      requires Consistent(View(), e) && x in e && x in timers
      requires On(current, overflow, x) ==> timers[x].active
      requires Expiry(runs[x].start, timers[x].period, |runs[x].calls| + 1) <= clock
      modifies this`runs
      ensures Consistent(View(), e)
      ensures runs == old(runs)[x := Run(old(runs)[x].start, old(runs)[x].calls + [clock])]
    {
      hide On, Consistent;
      TimerIsOK(View(), x, e);
      var run := Run(runs[x].start, runs[x].calls + [clock]);
      AfterChange(View(), x, timers[x], run, e);
      assert timers[x := timers[x]] == timers;
      runs := runs[x := run];
    }

    /** prvProcessExpiredTimer: the head of the current list has expired by `n`. */
    method ProcessExpiredTimer(next: nat, now: nat, ghost n: nat, ghost e: set<TimerHandle>)
      requires Consistent(View(), e) && current != [] && current[0].owner !in e
      requires next == current[0].value && next <= now && now == Tick(w, n) && WrapOf(w, n) == wrap && n <= clock
      modifies this`current, this`overflow, this`timers, this`runs
      ensures Consistent(View(), e)
      ensures Evolved(old(timers), old(runs), timers, runs)
      ensures var x := old(current)[0].owner;
              && x in timers && x in runs && timers == old(timers)[x := timers[x]] && runs == old(runs)[x := runs[x]]
              && MayGain(RemoveAt(old(current), 0), current, x, now, w)
              && |old(runs)[x].calls| < |runs[x].calls|
              && (if timers[x].autoReload then
                    timers[x].active && Expiry(runs[x].start, timers[x].period, |runs[x].calls|) <= n
                                        < Expiry(runs[x].start, timers[x].period, |runs[x].calls| + 1)
                  else
                    !timers[x].active && |runs[x].calls| == |old(runs)[x].calls| + 1)
      ensures forall z <- e :: On(current, overflow, z) <==> On(old(current), old(overflow), z)
    {
      hide On, DueAt, Consistent, Expiry, InPast, ListsOK, Tick, WrapOf;
      ghost var s := View();
      var x := current[0].owner;
      HeadIsInStep(s, e);
      ConsistentBasics(s, e);
      ghost var at := wrap * w + next;
      EarlierInWrap(w, wrap, next, n);
      AfterTake(s, true, 0, e);
      current := RemoveAt(current, 0);
      ghost var k := |runs[x].calls|;
      if timers[x].autoReload {
        ReloadTimer(x, next, now, at, n, e + {x});
      } else {
        TimerIsOK(View(), x, e + {x});
        AfterChange(View(), x, timers[x].(active := false), runs[x], e + {x});
        assert runs[x := runs[x]] == runs;
        timers := timers[x := timers[x].(active := false)];
      }
      MakeCallback(x, e + {x});
      AfterSettling(View(), x, Expiry(runs[x].start, timers[x].period, |runs[x].calls| + 1), e);
    }

    /** prvSwitchTimerLists: everything still on the current list has expired by
        the last tick of the wrap that is over. */
    method SwitchTimerLists(ghost e: set<TimerHandle>)
      requires Consistent(View(), e) && WrapOf(w, clock) == wrap + 1
      requires forall z <- e :: !On(current, overflow, z)
      modifies this`current, this`overflow, this`timers, this`runs, this`wrap
      ensures Consistent(View(), e) && wrap == old(wrap) + 1 && overflow == []
      ensures Evolved(old(timers), old(runs), timers, runs)
      ensures forall z <- e :: !On(current, overflow, z)
      ensures forall z <- e :: z in timers ==> timers[z] == old(timers)[z] && runs[z] == old(runs)[z]
    {
      hide On, Consistent, InPast, Expiry, Tick, MayGain, Evolved;
      ghost var n := wrap * w + w - 1;
      assert WrapOf(w, n) == wrap && Tick(w, n) == w - 1 && n <= clock by {
        ConsistentBasics(View(), e);
        LastOfWrap(w, wrap, clock);
      }
      ConsistentBasics(View(), e);
      NothingEvolved(timers, runs);
      while current != []
        invariant Consistent(View(), e) && wrap == old(wrap)
        invariant Evolved(old(timers), old(runs), timers, runs)
        invariant timers.Keys == old(timers).Keys == old(runs).Keys == runs.Keys
        invariant forall z <- e :: !On(current, overflow, z)
        invariant forall z <- e :: z in timers ==> timers[z] == old(timers)[z] && runs[z] == old(runs)[z]
        decreases |current|
      {
        ghost var l, x, t1, r1 := current, current[0].owner, timers, runs;
        HeadIsOn(View(), e);
        ProcessExpiredTimer(current[0].value, w - 1, n, e);
        OverdueShrinks(l, current, x, w - 1, w);
        EvolvedTwice(old(timers), old(runs), t1, r1, timers, runs);
        EvolvedKeys(t1, r1, timers, runs);
      }
      AfterSwap(View(), e);
      current, overflow := overflow, current;
      wrap := wrap + 1;
    }

    /** A sample comes less than one wrap after the last one, or no timer is listed. */
    ghost predicate InTime(now: nat)
      reads this
    {
      clock <= now && (now < clock + w || current == overflow == [])
    }

    /** prvSampleTimeNow: `tick` is the tick count at true time `now`. */
    method SampleTimeNow(tick: nat, ghost now: nat, ghost e: set<TimerHandle>) returns (switched: bool)
      requires Consistent(View(), e) && lastTime == Tick(w, clock) && wrap == WrapOf(w, clock)
      requires tick == Tick(w, now) && InTime(now)
      requires forall z <- e :: !On(current, overflow, z)
      modifies this
      ensures Consistent(View(), e) && lastTime == Tick(w, clock) && wrap == WrapOf(w, clock)
      ensures clock == now && (switched <==> tick < old(lastTime))
      ensures now < old(clock) + w ==> (switched <==> wrap != old(wrap))
      ensures Evolved(old(timers), old(runs), timers, runs)
      ensures !switched ==> current == old(current) && overflow == old(overflow)
      ensures !switched ==> timers == old(timers) && runs == old(runs)
      ensures forall z <- e :: !On(current, overflow, z)
      ensures forall z <- e :: z in timers ==> timers[z] == old(timers)[z] && runs[z] == old(runs)[z]
    {
      hide On, Consistent, InPast, Expiry, Tick, WrapOf;
      ConsistentBasics(View(), e);
      switched := tick < lastTime;
      if now < clock + w {
        SmallerCountMeansWrapped(w, clock, now);
        AfterTimePasses(View(), now, e);
      } else {
        ghost var before := WrapOf(w, now) - if switched then 1 else 0;
        assert before >= 0 by { SomeWrapsLater(w, clock, now); }
        AfterIdling(View(), now, before, e);
        wrap := before;
      }
      clock := now;
      if switched {
        SwitchTimerLists(e);
      }
      lastTime := tick;
    }

    /** prvGetNextExpireTime */
    method GetNextExpireTime() returns (next: nat, listWasEmpty: bool)
      ensures listWasEmpty <==> current == []
      ensures next == if current == [] then 0 else current[0].value
    {
      listWasEmpty := current == [];
      next := if listWasEmpty then 0 else current[0].value;
    }

    /** prvProcessTimerOrBlockTask, together with the look at the list that precedes it. */
    method ProcessTimerOrBlock(tick: nat, ghost now: nat) returns (outcome: Outcome)
      requires Valid() && tick == Tick(w, now) && InTime(now)
      modifies this
      ensures Valid() && clock == now
      ensures Evolved(old(timers), old(runs), timers, runs)
      ensures outcome.Switched? <==> tick < old(lastTime)
      ensures now < old(clock) + w ==> (outcome.Switched? <==> wrap != old(wrap))
      ensures outcome.Processed? ==> Overdue(current, tick) < Overdue(old(current), tick)
      ensures outcome.Processed? <==> tick >= old(lastTime) && old(current) != [] && old(current)[0].value <= tick
      ensures outcome.Blocked? ==> current == old(current) && timers == old(timers) && runs == old(runs)
      ensures outcome.Blocked? ==> CaughtUp(View())
      ensures outcome.Blocked? ==> (outcome.indefinitely <==> current == [] && overflow == [])
      ensures outcome.Blocked? ==> WakesInTime(View(), outcome.ticks)
      ensures outcome.Blocked? ==> WakesExactly(View(), tick, outcome.ticks)
      ensures outcome.Blocked? && current != [] ==> clock + outcome.ticks == wrap * w + current[0].value
      ensures outcome.Blocked? && current == [] ==>
                if tick == 0 then outcome.ticks == 0 else clock + outcome.ticks == (wrap + 1) * w
    {
      hide On, Consistent, Evolved, Expiry, Tick, WrapOf, MayGain, CaughtUp, WakesInTime;
      var next, listWasEmpty := GetNextExpireTime();
      var switched := SampleTimeNow(tick, now, {});
      if switched {
        return Switched;
      }
      ConsistentBasics(View(), {});
      if !listWasEmpty && next <= tick {
        ghost var l, before, runsBefore := current, timers, runs;
        HeadIsOn(View(), {});
        ProcessExpiredTimer(next, tick, now, {});
        OverdueShrinks(l, current, l[0].owner, tick, w);
        return Processed;
      }
      var ticks := (next - tick) % w;
      BlockTime(View(), ticks);
      return Blocked(ticks, listWasEmpty && overflow == []);
    }

    /** Rounds of the daemon at one tick: they end, and then every active timer's
        callback was made exactly as often as whole periods have passed. */
    method CatchUp(tick: nat, ghost now: nat) returns (ticks: nat, indefinitely: bool)
      requires Valid() && tick == Tick(w, now) && InTime(now)
      modifies this
      ensures Valid() && clock == now && CaughtUp(View()) && WakesInTime(View(), ticks)
      ensures current != [] ==> clock + ticks == wrap * w + current[0].value
      ensures current == [] ==> if tick == 0 then ticks == 0 else clock + ticks == (wrap + 1) * w
      ensures indefinitely <==> current == [] && overflow == []
      ensures Evolved(old(timers), old(runs), timers, runs)
      ensures Served(timers, runs, now)
    {
      hide On, Consistent, Expiry, Tick, WrapOf, CaughtUp, WakesInTime, WakesExactly, Overdue, InPast, FullyServed;
      ConsistentBasics(View(), {});
      var outcome := ProcessTimerOrBlock(tick, now);
      while !outcome.Blocked?
        invariant Valid() && clock == now
        invariant Evolved(old(timers), old(runs), timers, runs)
        invariant outcome.Blocked? ==> CaughtUp(View()) && WakesInTime(View(), outcome.ticks)
        invariant outcome.Blocked? ==> WakesExactly(View(), tick, outcome.ticks)
        invariant outcome.Blocked? ==> (outcome.indefinitely <==> current == [] && overflow == [])
        decreases Overdue(current, tick), !outcome.Blocked?
      {
        outcome := ProcessTimerOrBlock(tick, now);
        ConsistentBasics(View(), {});
      }
      forall x | x in timers && timers[x].active
        ensures x in runs && FullyServed(timers[x], runs[x], now)
      {
        CaughtUpCounts(View(), x);
      }
      ticks, indefinitely := outcome.ticks, outcome.indefinitely;
      WakesExactlyMeans(View(), tick, ticks);
    }

    /** A round after a bounded block, at the time at which that ends and without a
        command between: it serves a timer, or switches the lists. */
    method WakeUp(ticks: nat, tick: nat)
      returns (outcome: Outcome)
      requires Valid() && CaughtUp(View()) && 0 < ticks < w && tick == Tick(w, clock + ticks)
      requires current != [] ==> clock + ticks == wrap * w + current[0].value
      requires current == [] ==> clock + ticks == (wrap + 1) * w
      modifies this
      ensures Valid() && clock == old(clock) + ticks
      ensures if old(current) == [] then outcome.Switched? else outcome.Processed?
      ensures Evolved(old(timers), old(runs), timers, runs)
    {
      hide On, Consistent, Evolved, Expiry, Overdue, WakesInTime;
      ConsistentBasics(View(), {});
      TimeFromTick(w, clock);
      if current == [] {
        DivModUnique(w, clock + ticks, wrap + 1, 0);
      } else {
        HeadIsOn(View(), {});
        DivModUnique(w, clock + ticks, wrap, current[0].value);
      }
      outcome := ProcessTimerOrBlock(tick, clock + ticks);
    }

    /** One step of a run. */
    method Take(step: Step)
      requires Valid() && (!step.Create? ==> InTime(step.now))
      requires step.Obey? ==> step.x in timers && WellIssued(w, step.command, step.issued, step.now)
      requires step.Create? ==> step.x !in timers && 0 < step.period < w
      modifies this
      ensures Valid() && clock == (if step.Create? then old(clock) else step.now)
      ensures StepDone(step, old(timers), old(runs), timers, runs)
    {
      hide Consistent, Tick, WrapOf, Evolved, OthersEvolved, WellIssued, CarriedOut, Served, InTime;
      ConsistentBasics(View(), {});
      match step {
        case Round(now) => var _ := ProcessTimerOrBlock(Tick(w, now), now);
        case CatchUp(now) => var _, _ := CatchUp(Tick(w, now), now);
        case Obey(now, x, command, issued) => ProcessCommand(command, x, Tick(w, now), issued, now);
        case Create(x, period, autoReload) => Create(x, period, autoReload);
      }
    }

    /** Any sequence of rounds, commands and creations: every timer does what its own plan
        says, whatever the others do. */
    method TimerTask(steps: seq<Step>)
      requires Valid() && StepsOK(w, clock, steps, timers, runs)
      modifies this
      ensures Valid() && clock == TimeAfter(old(clock), steps)
      ensures AllFollow(steps, old(timers), old(runs), timers, runs)
      ensures steps != [] && steps[|steps|-1].CatchUp? ==> AllMeet(steps, old(timers), old(runs), timers, runs, clock)
      ensures steps != [] && steps[|steps|-1].CatchUp? ==>
                forall x :: x in old(timers) && Unnamed(steps, x) ==>
                  x in timers && x in runs && x in old(runs) && LeftAlone(old(timers)[x], old(runs)[x], timers[x], runs[x], clock)
    {
      hide Consistent, Tick, WrapOf, WellIssued, StepDone, AllFollow, AllMeet, UnnamedEvolved, LeftAlone, NothingPlanned,
           Unnamed, StepsOK;
      FollowAtFirst(View());
      for i := 0 to |steps|
        invariant Valid() && clock == TimeAfter(old(clock), steps[..i])
        invariant AllFollow(steps[..i], old(timers), old(runs), timers, runs)
        invariant UnnamedEvolved(steps[..i], old(timers), old(runs), timers, runs)
        invariant i > 0 && steps[i-1].CatchUp? ==> AllMeet(steps[..i], old(timers), old(runs), timers, runs, clock)
      {
        ghost var t1, r1 := timers, runs;
        StepIsInTime(View(), old(clock), steps, i, old(timers), old(runs));
        Take(steps[i]);
        AfterStep(View(), steps, i, old(timers), old(runs), t1, r1);
      }
      assert steps[..|steps|] == steps;
      if steps != [] && steps[|steps|-1].CatchUp? {
        forall x | x in old(timers) && Unnamed(steps, x)
          ensures x in timers && x in runs && x in old(runs) && LeftAlone(old(timers)[x], old(runs)[x], timers[x], runs[x], clock)
        {
          LeftAloneUnnamed(old(View()), View(), steps, x);
        }
      }
    }

    /** prvInitialiseNewTimer */
    method Create(x: TimerHandle, period: nat, autoReload: bool)
      requires Valid() && x !in timers && 0 < period < w
      modifies this`timers, this`runs
      ensures Valid() && timers == old(timers)[x := Timer(period, autoReload, false)] && runs == old(runs)[x := Run(0, [])]
    {
      ghost var s := View();
      timers := timers[x := Timer(period, autoReload, false)];
      runs := runs[x := Run(0, [])];
      forall y | y in current
        ensures ItemOK(View(), y, wrap, {})
      {
        assert ItemOK(s, y, wrap, {});
      }
      forall y | y in overflow
        ensures ItemOK(View(), y, wrap + 1, {})
      {
        assert ItemOK(s, y, wrap + 1, {});
      }
      forall z | z in timers
        ensures TimerOK(View(), z, {})
      {
        if z == x {
          assert forall i :: 0 <= i < |current + overflow| ==>
            (current + overflow)[i] in current || (current + overflow)[i] in overflow;
        } else {
          assert TimerOK(s, z, {});
        }
      }
    }

    /** Takes a timer that is on a list off it (uxListRemove). */
    method Unlist(x: TimerHandle)
      requires Consistent(View(), {})
      modifies this`current, this`overflow
      ensures Consistent(View(), {x}) && !On(current, overflow, x)
      ensures old(current) == [] ==> current == []
      ensures old(overflow) == [] ==> overflow == []
    {
      hide Consistent;
      if x in Owners(current) {
        var k :| 0 <= k < |current| && Owners(current)[k] == x;
        AfterTake(View(), true, k, {});
        current := RemoveAt(current, k);
      } else if x in Owners(overflow) {
        var k :| 0 <= k < |overflow| && Owners(overflow)[k] == x;
        AfterTake(View(), false, k, {});
        overflow := RemoveAt(overflow, k);
      } else {
        ExemptingOneMore(View(), x);
        forall i | 0 <= i < |current + overflow|
          ensures Owners(current + overflow)[i] != x
        {
          assert i < |current| ==> Owners(current)[i] == Owners(current + overflow)[i];
          assert i >= |current| ==> Owners(overflow)[i-|current|] == Owners(current + overflow)[i];
        }
      }
      assert {x} == {} + {x};
    }

    /** A start or reset command that was issued at true time `issued`. */
    method StartTimer(x: TimerHandle, command: nat, tick: nat, ghost issued: nat)
      requires Consistent(View(), {x}) && x in timers && !On(current, overflow, x)
      requires lastTime == Tick(w, clock) && wrap == WrapOf(w, clock) && tick == lastTime
      requires issued <= clock < issued + w && command == Tick(w, issued)
      modifies this`current, this`overflow, this`timers, this`runs
      ensures Valid()
      ensures x in timers && x in runs && x in old(timers)
      ensures timers == old(timers)[x := timers[x]] && runs == old(runs)[x := runs[x]]
      ensures timers[x].period == old(timers)[x].period && timers[x].autoReload == old(timers)[x].autoReload
      ensures runs[x].start == issued
      ensures timers[x].active <==> timers[x].autoReload || clock < issued + timers[x].period
      ensures if timers[x].active then FullyServed(timers[x], runs[x], clock) else |runs[x].calls| == 1
    {
      hide On, Consistent, Tick, WrapOf, DueAt, InPast, MayGain, Expiry, FullyServed;
      TimerIsOK(View(), x, {x});
      ghost var idle := Run(issued, []);
      FirstExpiry(issued, timers[x].period);
      SetTimer(x, timers[x].(active := true), idle, {x}) by { NoCallsYet(timers[x].(active := true), idle, clock); }
      var period := timers[x].period;
      var expired := InsertTimerInActiveList(x, Tick(w, command + period), tick, command, issued, clock, {x})
        by { AddModulo(w, issued, period); }
      if expired {
        if timers[x].autoReload {
          AddModulo(w, issued, period);
          ReloadTimer(x, Tick(w, command + period), tick, issued + period, clock, {x});
        } else {
          SetTimer(x, timers[x].(active := false), idle, {x}) by { NoCallsYet(timers[x].(active := false), idle, clock); }
        }
        MakeCallback(x, {x});
      }
      if timers[x].active {
        ServedByNow(timers[x], runs[x], clock);
      }
      assert {x} == {} + {x};
      AfterSettling(View(), x, Expiry(issued, period, |runs[x].calls| + 1), {});
    }

    /** A change of period: it counts from now, so it never expires at once. */
    method ChangeTimerPeriod(x: TimerHandle, newPeriod: nat, tick: nat) returns (expired: bool)
      requires Consistent(View(), {x}) && x in timers && !On(current, overflow, x)
      requires lastTime == Tick(w, clock) && wrap == WrapOf(w, clock) && tick == lastTime
      requires 0 < newPeriod < w
      modifies this`current, this`overflow, this`timers, this`runs
      ensures Valid() && !expired
      ensures timers == old(timers)[x := old(timers)[x].(period := newPeriod, active := true)]
      ensures runs == old(runs)[x := Run(clock, [])]
    {
      hide On, Consistent, Tick, WrapOf, DueAt, InPast, MayGain;
      ghost var idle := Run(clock, []);
      TimerIsOK(View(), x, {x});
      SetTimer(x, timers[x].(period := newPeriod, active := true), idle, {x})
        by { NoCallsYet(timers[x].(period := newPeriod, active := true), idle, clock); }
      expired := InsertTimerInActiveList(x, Tick(w, tick + newPeriod), tick, tick, clock, clock, {x})
        by { AddModulo(w, clock, newPeriod); }
      assert {x} == {} + {x};
      AfterSettling(View(), x, clock + newPeriod, {});
    }

    /** A stop or delete command: the timer is off the lists already. */
    method StopTimer(x: TimerHandle)
      requires Consistent(View(), {x}) && x in timers && !On(current, overflow, x)
      requires lastTime == Tick(w, clock) && wrap == WrapOf(w, clock)
      modifies this`timers
      ensures Valid() && timers == old(timers)[x := old(timers)[x].(active := false)]
    {
      hide On, Consistent, Tick, WrapOf;
      TimerIsOK(View(), x, {x});
      AfterChange(View(), x, timers[x].(active := false), runs[x], {x});
      assert runs[x := runs[x]] == runs;
      timers := timers[x := timers[x].(active := false)];
      assert {x} == {} + {x};
      AfterSettling(View(), x, 0, {});
    }

    /** What a command does to its timer once the time has been sampled. */
    method CarryOut(command: Command, x: TimerHandle, tick: nat, ghost issued: nat)
      requires Consistent(View(), {x}) && x in timers && !On(current, overflow, x)
      requires lastTime == Tick(w, clock) && wrap == WrapOf(w, clock) && tick == lastTime
      requires WellIssued(w, command, issued, clock)
      modifies this`current, this`overflow, this`timers, this`runs
      ensures Valid() && x in timers && x in runs && x in old(timers) && x in old(runs)
      ensures timers == old(timers)[x := timers[x]] && runs == old(runs)[x := runs[x]]
      ensures CarriedOut(command, issued, clock, old(timers)[x], old(runs)[x], timers[x], runs[x])
    {
      hide On, Consistent, Tick, WrapOf, FullyServed;
      ConsistentBasics(View(), {x});
      match command {
        case Start(at) => StartTimer(x, at, tick, issued);
        case Reset(at) => StartTimer(x, at, tick, issued);
        case ChangePeriod(newPeriod) => var _ := ChangeTimerPeriod(x, newPeriod, tick);
        case _ => StopTimer(x);
      }
    }

    /** prvProcessReceivedCommands, for one command about timer `x` taken at true
        time `now`; `issued` is the true time of a start or reset command. */
    method ProcessCommand(command: Command, x: TimerHandle, tick: nat, ghost issued: nat, ghost now: nat)
      requires Valid() && x in timers
      requires tick == Tick(w, now) && InTime(now)
      requires WellIssued(w, command, issued, now)
      modifies this
      ensures Valid() && clock == now
      ensures x in timers && x in runs && x in old(timers) && x in old(runs)
      ensures OthersEvolved(old(timers), old(runs), timers, runs, x)
      ensures CarriedOut(command, issued, now, old(timers)[x], old(runs)[x], timers[x], runs[x])
    {
      hide On, Consistent, Tick, WrapOf, Evolved, OthersEvolved, WellIssued, CarriedOut;
      ConsistentBasics(View(), {});
      Unlist(x);
      ghost var t0, r0 := timers, runs;
      var _ := SampleTimeNow(tick, now, {x});
      ConsistentBasics(View(), {x});
      ghost var t1, r1 := timers, runs;
      assert x in t1 by { EvolvedKeys(t0, r0, t1, r1); }
      CarryOut(command, x, tick, issued);
      OthersEvolve(t0, r0, t1, r1, timers, runs, x);
    }

    /** The loop of prvProcessReceivedCommands over the messages in the queue,
        each of which is taken at its own sample of the time. */
    method ProcessReceivedCommands(messages: seq<Step>)
      requires Valid() && StepsOK(w, clock, messages, timers, runs) && forall m <- messages :: m.Obey?
      modifies this
      ensures Valid() && clock == TimeAfter(old(clock), messages)
      ensures AllFollow(messages, old(timers), old(runs), timers, runs)
      ensures UnnamedEvolved(messages, old(timers), old(runs), timers, runs)
    {
      hide Consistent, Tick, WrapOf, WellIssued, AllFollow, UnnamedEvolved, NothingPlanned, OthersEvolved, CarriedOut, StepsOK;
      FollowAtFirst(View());
      for i := 0 to |messages|
        invariant Valid() && clock == TimeAfter(old(clock), messages[..i])
        invariant AllFollow(messages[..i], old(timers), old(runs), timers, runs)
        invariant UnnamedEvolved(messages[..i], old(timers), old(runs), timers, runs)
      {
        ghost var t1, r1 := timers, runs;
        assert messages[i] in messages;
        ConsistentBasics(View(), {});
        var Obey(now, x, command, issued) := messages[i];
        StepIsInTime(View(), old(clock), messages, i, old(timers), old(runs));
        ProcessCommand(command, x, Tick(w, now), issued, now);
        assert StepDone(messages[i], t1, r1, timers, runs);
        AfterStep(View(), messages, i, old(timers), old(runs), t1, r1);
      }
      assert messages[..|messages|] == messages;
    }
  }
}
