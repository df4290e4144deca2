/** Event bits and the control bits that share a word with them (event_groups.h),
    with the laws that proofs about lists of waiters need. */
module EventBits {
  type Bits = bv32

  // event_groups.h, for 32-bit ticks
  const CLEAR_EVENTS_ON_EXIT_BIT: Bits := 0x0100_0000
  const UNBLOCKED_DUE_TO_BIT_SET: Bits := 0x0200_0000
  const WAIT_FOR_ALL_BITS: Bits := 0x0400_0000
  const CONTROL_BYTES: Bits := 0xff00_0000

  // Bit operations by name, so that proofs about lists need not look into them.
  function Or(a: Bits, b: Bits): Bits { a | b }
  function And(a: Bits, b: Bits): Bits { a & b }
  function Without(a: Bits, b: Bits): Bits { a & !b }

  lemma OrLaws(a: Bits, b: Bits, c: Bits)
    ensures Or(a, Or(b, c)) == Or(Or(a, b), c) && Or(a, b) == Or(b, a) && Or(a, 0) == a && Or(0, a) == a
  {
  }

  lemma AndOverOr(a: bv32, b: bv32, c: bv32)
    ensures (a | b) & c == (a & c) | (b & c)
  {
  }

  lemma AndDistributes(a: Bits, b: Bits, c: Bits)
    ensures And(Or(a, b), c) == Or(And(a, c), And(b, c)) && And(0, c) == 0
  {
    AndOverOr(a, b, c);
  }

  lemma OrIsZero(a: Bits, b: Bits)
    ensures Or(a, b) == 0 <==> a == 0 && b == 0
  {
  }

  lemma OrMeets(a: Bits, b: Bits, bit: Bits)
    ensures And(Or(a, b), bit) == Or(And(a, bit), And(b, bit))
    ensures And(Or(a, b), bit) != 0 <==> And(a, bit) != 0 || And(b, bit) != 0
    ensures And(0, bit) == 0
  {
    hide And, Or;
    AndDistributes(a, b, bit);
    OrIsZero(And(a, bit), And(b, bit));
  }

  lemma AndNot(a: bv32, b: bv32, c: bv32)
    ensures (a & !b) & c == c ==> a & c == c
    ensures (a & !b) & c != 0 ==> a & c != 0
  {
  }

  lemma ClearingMeetsNothing(bits: Bits, clear: Bits, waitedFor: Bits)
    ensures And(Without(bits, clear), waitedFor) == waitedFor ==> And(bits, waitedFor) == waitedFor
    ensures And(Without(bits, clear), waitedFor) != 0 ==> And(bits, waitedFor) != 0
    ensures And(bits, CONTROL_BYTES) == 0 ==> And(Without(bits, clear), CONTROL_BYTES) == 0
  {
    AndNot(bits, clear, waitedFor);
    AndNot(bits, clear, CONTROL_BYTES);
  }

  lemma AndSwaps(a: Bits, b: Bits)
    ensures And(a, b) == And(b, a)
  {
  }

  lemma NoControlBits(a: Bits, b: Bits)
    requires And(a, CONTROL_BYTES) == 0 && And(b, CONTROL_BYTES) == 0
    ensures And(Or(a, b), CONTROL_BYTES) == 0
  {
  }

  /** What a released task finds is told apart from a timeout, and holds the bits. */
  lemma DeliveredMeans(current: Bits)
    requires And(current, CONTROL_BYTES) == 0
    ensures And(Or(current, UNBLOCKED_DUE_TO_BIT_SET), UNBLOCKED_DUE_TO_BIT_SET) != 0
    ensures Without(Or(current, UNBLOCKED_DUE_TO_BIT_SET), CONTROL_BYTES) == current
  {
  }

  lemma NothingToRemove(a: Bits)
    requires And(a, CONTROL_BYTES) == 0
    ensures Without(a, CONTROL_BYTES) == a
  {
  }

  // The same operations bit by bit.

  function Half(v: Bits): Bits { v >> 1 }
  predicate Lowest(v: Bits) { v & 1 == 1 }

  /** The bit at a position, counted from the least significant one. */
  predicate HasBit(v: Bits, i: nat) {
    Lowest(Shifted(v, i))
  }

  function Shifted(v: Bits, i: nat): Bits {
    if i == 0 then v else Shifted(Half(v), i - 1)
  }

  lemma HalfOfJoint(a: Bits, b: Bits)
    ensures Half(Or(a, b)) == Or(Half(a), Half(b))
  {
  }

  lemma HalfOfShared(a: Bits, b: Bits)
    ensures Half(And(a, b)) == And(Half(a), Half(b))
  {
  }

  lemma HalfOfRest(a: Bits, b: Bits)
    ensures Half(Without(a, b)) == Without(Half(a), Half(b))
  {
  }

  lemma LowestOf(a: Bits, b: Bits)
    ensures Lowest(Or(a, b)) <==> Lowest(a) || Lowest(b)
    ensures Lowest(And(a, b)) <==> Lowest(a) && Lowest(b)
  {
    LowestIsOneOfTwo(a);
    LowestIsOneOfTwo(b);
    assert (a | b) & 1 == (a & 1) | (b & 1);
    assert (a & b) & 1 == (a & 1) & (b & 1);
  }

  lemma LowestIsOneOfTwo(a: bv32)
    ensures a & 1 == 0 || a & 1 == 1
  {
  }

  lemma LowestOfRest(a: Bits, b: Bits)
    ensures Lowest(Without(a, b)) <==> Lowest(a) && !Lowest(b)
  {
    LowestIsOneOfTwo(a);
    LowestIsOneOfTwo(b);
    assert (a & !b) & 1 == (a & 1) & !(b & 1);
  }

  lemma {:induction false} BitOf(a: Bits, b: Bits, i: nat)
    ensures HasBit(Or(a, b), i) <==> HasBit(a, i) || HasBit(b, i)
    ensures HasBit(And(a, b), i) <==> HasBit(a, i) && HasBit(b, i)
    ensures HasBit(Without(a, b), i) <==> HasBit(a, i) && !HasBit(b, i)
    decreases i
  {
    hide Or, And, Without, Half, Lowest;
    if i == 0 {
      LowestOf(a, b);
      LowestOfRest(a, b);
    } else {
      HalfOfJoint(a, b);
      HalfOfShared(a, b);
      HalfOfRest(a, b);
      BitOf(Half(a), Half(b), i - 1);
    }
  }

  lemma {:induction false} BitOfZero(i: nat)
    ensures !HasBit(0, i)
  {
    if i == 0 {
    } else {
      assert Half(0) == 0;
      BitOfZero(i - 1);
    }
  }

  /** A word that is not zero has a bit. */
  lemma {:induction false} SomeBit(v: Bits) returns (i: nat)
    requires v != 0
    ensures HasBit(v, i)
    decreases v
  {
    if Lowest(v) {
      i := 0;
    } else {
      HalfIsLess(v);
      var rest := SomeBit(Half(v));
      i := rest + 1;
    }
  }

  lemma HalfIsLess(v: Bits)
    requires v != 0 && !Lowest(v)
    ensures Half(v) != 0 && Half(v) < v
  {
  }

  lemma PartsOf(a: Bits, b: Bits)
    ensures Or(And(a, b), Without(b, a)) == b
  {
  }

  lemma NothingLeft(a: Bits, b: Bits)
    ensures And(a, b) == b <==> Without(b, a) == 0
  {
    hide Or, And, Without;
    PartsOf(a, b);
    OrLaws(And(a, b), 0, 0);
    if And(a, b) == b {
      LeftOfBoth(a, b);
    }
  }

  lemma LeftOfBoth(a: Bits, b: Bits)
    ensures Without(And(a, b), a) == 0
  {
  }

  /** Two words share a bit exactly if their conjunction is not zero. */
  lemma SharesBit(a: Bits, b: Bits)
    ensures And(a, b) != 0 <==> exists i: nat :: HasBit(a, i) && HasBit(b, i)
  {
    hide And, HasBit;
    if And(a, b) != 0 {
      var i := SomeBit(And(a, b));
      BitOf(a, b, i);
    }
    forall i: nat | HasBit(a, i) && HasBit(b, i)
      ensures And(a, b) != 0
    {
      BitOf(a, b, i);
      BitOfZero(i);
    }
  }

  /** A word has all bits of another exactly if the conjunction is the other. */
  lemma HasAllBits(a: Bits, b: Bits)
    ensures And(a, b) == b <==> forall i: nat :: HasBit(b, i) ==> HasBit(a, i)
  {
    hide And, Without, HasBit;
    NothingLeft(a, b);
    if Without(b, a) != 0 {
      var i := SomeBit(Without(b, a));
      BitOf(b, a, i);
    }
    forall i: nat | HasBit(b, i) && !HasBit(a, i)
      ensures Without(b, a) != 0
    {
      BitOf(b, a, i);
      BitOfZero(i);
    }
  }

  /** A wait's bits and options can be told apart again. */
  lemma ControlBitsApart(waitFor: Bits, a: Bits, b: Bits)
    requires And(waitFor, CONTROL_BYTES) == 0
    requires (a == 0 || a == CLEAR_EVENTS_ON_EXIT_BIT) && (b == 0 || b == WAIT_FOR_ALL_BITS)
    ensures var v := Or(Or(waitFor, a), b);
            && Without(v, CONTROL_BYTES) == waitFor
            && And(v, CLEAR_EVENTS_ON_EXIT_BIT) == a && And(v, WAIT_FOR_ALL_BITS) == b
  {
  }
}

/** Event groups (event_groups.c, event_groups.h): bits that tasks set, clear and wait for. */
module EventGroups {
  import opened EventBits
  import opened SortedOrder

  type Task = nat

  /** An item of the list of waiting tasks; its value holds the bits waited for and the control bits. */
  datatype Waiter = Waiter(task: Task, value: Bits)
  {
    function WaitedFor(): Bits { Without(value, CONTROL_BYTES) }
    predicate ClearOnExit() { And(value, CLEAR_EVENTS_ON_EXIT_BIT) != 0 }
    predicate WaitForAll() { And(value, WAIT_FOR_ALL_BITS) != 0 }
  }

  /** prvTestWaitCondition */
  predicate ConditionMet(current: Bits, waitedFor: Bits, all: bool) {
    if all then And(current, waitedFor) == waitedFor else And(current, waitedFor) != 0
  }

  /** What a task waits for, bit by bit: every awaited bit, or any of them. */
  ghost predicate Satisfied(current: Bits, waitedFor: Bits, all: bool) {
    if all then forall i: nat :: HasBit(waitedFor, i) ==> HasBit(current, i)
    else exists i: nat :: HasBit(waitedFor, i) && HasBit(current, i)
  }

  /** The test of a wait condition tells exactly whether it is satisfied. */
  lemma ConditionMetIff(current: Bits, waitedFor: Bits, all: bool)
    ensures ConditionMet(current, waitedFor, all) <==> Satisfied(current, waitedFor, all)
  {
    hide And, HasBit;
    SharesBit(waitedFor, current);
    AndSwaps(current, waitedFor);
    HasAllBits(current, waitedFor);
  }

  predicate Matches(current: Bits, w: Waiter) {
    ConditionMet(current, w.WaitedFor(), w.WaitForAll())
  }

  function ControlValue(waitFor: Bits, clear: bool, all: bool): Bits {
    Or(Or(waitFor, if clear then CLEAR_EVENTS_ON_EXIT_BIT else 0), if all then WAIT_FOR_ALL_BITS else 0)
  }

  /** The waiters, in order, whose condition is not met. */
  function StillWaiting(ws: seq<Waiter>, current: Bits): seq<Waiter> {
    if ws == [] then []
    else (if Matches(current, ws[0]) then [] else [ws[0]]) + StillWaiting(ws[1..], current)
  }

  function ClearedBy(w: Waiter, current: Bits): Bits {
    if Matches(current, w) && w.ClearOnExit() then w.WaitedFor() else 0
  }

  /** All bits that the waiters whose condition is met want cleared. */
  function ToClear(ws: seq<Waiter>, current: Bits): Bits {
    if ws == [] then 0 else Or(ClearedBy(ws[0], current), ToClear(ws[1..], current))
  }

  /** The tasks whose wait is over. */
  function Released(ws: seq<Waiter>, current: Bits): set<Task> {
    set w | w in ws && Matches(current, w) :: w.task
  }

  /** What each of them finds in its list item. */
  function Delivery(ws: seq<Waiter>, current: Bits): map<Task, Bits> {
    map t | t in Released(ws, current) :: Or(current, UNBLOCKED_DUE_TO_BIT_SET)
  }

  /** The bits that were set when each of them was released. */
  function BitsAtRelease(ws: seq<Waiter>, current: Bits): map<Task, Bits> {
    map t | t in Released(ws, current) :: current
  }

  /** What tasks find in their items tells the bits that were set when they were released. */
  ghost predicate Tells(delivered: map<Task, Bits>, atRelease: map<Task, Bits>) {
    && delivered.Keys == atRelease.Keys
    && forall t :: t in delivered ==> TellsOf(delivered[t], atRelease[t])
  }

  ghost predicate TellsOf(found: Bits, bits: Bits) {
    found == Or(bits, UNBLOCKED_DUE_TO_BIT_SET) && And(bits, CONTROL_BYTES) == 0
  }

  lemma DeliveryTells(delivered: map<Task, Bits>, atRelease: map<Task, Bits>, ws: seq<Waiter>, current: Bits)
    requires Tells(delivered, atRelease) && And(current, CONTROL_BYTES) == 0
    ensures Tells(delivered + Delivery(ws, current), atRelease + BitsAtRelease(ws, current))
  {
    assert TellsOf(Or(current, UNBLOCKED_DUE_TO_BIT_SET), current);
    hide Or, And, Released, TellsOf;
    var d, a := delivered + Delivery(ws, current), atRelease + BitsAtRelease(ws, current);
    forall t
      ensures t in d <==> t in a
      ensures t in d ==> TellsOf(d[t], a[t])
    {
      assert t in delivered <==> t in atRelease;
      assert t in delivered ==> TellsOf(delivered[t], atRelease[t]);
    }
  }

  datatype Group = Group(bits: Bits, waiting: seq<Waiter>, delivered: map<Task, Bits>)

  /** What xEventGroupSetBits makes of a group. */
  function SetBits(g: Group, bits: Bits): Group {
    var current := Or(g.bits, bits);
    Group(Without(current, ToClear(g.waiting, current)), StillWaiting(g.waiting, current),
          g.delivered + Delivery(g.waiting, current))
  }

  /** Exactly the waiters whose condition is not met go on waiting, and exactly
      the tasks of the others are released, each with the value at that moment. */
  lemma {:induction false} ReleasesExactly(ws: seq<Waiter>, current: Bits)
    ensures forall w :: w in StillWaiting(ws, current) <==> w in ws && !Matches(current, w)
    ensures forall t :: t in Delivery(ws, current) <==> exists w :: w in ws && w.task == t && Matches(current, w)
    ensures forall t :: t in Delivery(ws, current) ==> Delivery(ws, current)[t] == Or(current, UNBLOCKED_DUE_TO_BIT_SET)
  {
    hide Or, And, Without, Matches;
    if ws == [] {
    } else {
      ReleasesExactly(ws[1..], current);
      assert forall w :: w in ws <==> w == ws[0] || w in ws[1..];
    }
  }

  /** A bit is cleared exactly if a released waiter wants it cleared. */
  lemma {:induction false} ClearsExactly(ws: seq<Waiter>, current: Bits, bit: Bits)
    ensures And(ToClear(ws, current), bit) != 0 <==> exists w :: w in ws && And(ClearedBy(w, current), bit) != 0
  {
    hide Or, And, Without, ClearedBy;
    if ws == [] {
      OrMeets(0, 0, bit);
    } else {
      ClearsExactly(ws[1..], current, bit);
      OrMeets(ClearedBy(ws[0], current), ToClear(ws[1..], current), bit);
      assert forall w :: w in ws <==> w == ws[0] || w in ws[1..];
    }
  }

  // What a set means, bit by bit and without the test of conditions.

  ghost predicate IsSatisfied(current: Bits, w: Waiter) {
    Satisfied(current, w.WaitedFor(), w.WaitForAll())
  }

  /** A satisfied waiter that wants its bits cleared, of which the given one is one. */
  ghost predicate WantsCleared(current: Bits, w: Waiter, i: nat) {
    IsSatisfied(current, w) && w.ClearOnExit() && HasBit(w.WaitedFor(), i)
  }

  lemma ClearedByMeans(current: Bits, w: Waiter, i: nat)
    ensures HasBit(ClearedBy(w, current), i) <==> WantsCleared(current, w, i)
  {
    hide And, Without, HasBit, Satisfied;
    ConditionMetIff(current, w.WaitedFor(), w.WaitForAll());
    BitOfZero(i);
  }

  lemma {:induction false} ToClearMeans(ws: seq<Waiter>, current: Bits, i: nat)
    ensures HasBit(ToClear(ws, current), i) <==> exists w :: w in ws && WantsCleared(current, w, i)
  {
    hide Or, HasBit, ClearedBy, WantsCleared;
    if ws == [] {
      BitOfZero(i);
    } else {
      ToClearMeans(ws[1..], current, i);
      ClearedByMeans(current, ws[0], i);
      BitOf(ClearedBy(ws[0], current), ToClear(ws[1..], current), i);
      assert forall w :: w in ws <==> w == ws[0] || w in ws[1..];
    }
  }

  /** The bits that are on while a set is under way. */
  ghost predicate IsJoint(current: Bits, a: Bits, b: Bits) {
    forall i: nat :: HasBit(current, i) <==> HasBit(a, i) || HasBit(b, i)
  }

  /** After a set those go on waiting whose condition is not satisfied, the others
      are released, and what is cleared is what released waiters wanted cleared. */
  lemma SetMeans(g: Group, toSet: Bits)
    ensures var current, t := Or(g.bits, toSet), SetBits(g, toSet);
            && IsJoint(current, g.bits, toSet)
            && (forall w :: w in t.waiting <==> w in g.waiting && !IsSatisfied(current, w))
            && (forall x :: x in t.delivered <==> x in g.delivered || Releases(current, g.waiting, x))
            && (forall i: nat :: HasBit(t.bits, i) <==> HasBit(current, i) && !SomeoneClears(current, g.waiting, i))
  {
    hide Or, And, Without, HasBit, Satisfied, ToClear, StillWaiting, Delivery;
    var current := Or(g.bits, toSet);
    ReleasesExactly(g.waiting, current);
    forall w
      ensures Matches(current, w) <==> IsSatisfied(current, w)
    {
      ConditionMetIff(current, w.WaitedFor(), w.WaitForAll());
    }
    forall i: nat
      ensures HasBit(current, i) <==> HasBit(g.bits, i) || HasBit(toSet, i)
      ensures HasBit(SetBits(g, toSet).bits, i) <==> HasBit(current, i) && !SomeoneClears(current, g.waiting, i)
    {
      BitOf(g.bits, toSet, i);
      BitOf(current, ToClear(g.waiting, current), i);
      ToClearMeans(g.waiting, current, i);
    }
  }

  ghost predicate Releases(current: Bits, ws: seq<Waiter>, task: Task) {
    exists w :: w in ws && w.task == task && IsSatisfied(current, w)
  }

  ghost predicate SomeoneClears(current: Bits, ws: seq<Waiter>, i: nat) {
    exists w :: w in ws && WantsCleared(current, w, i)
  }

  // The list order does not matter.

  lemma {:induction false} ToClearOfJoin(a: seq<Waiter>, b: seq<Waiter>, current: Bits)
    ensures ToClear(a + b, current) == Or(ToClear(a, current), ToClear(b, current))
  {
    if a == [] {
      assert a + b == b;
      OrLaws(ToClear(b, current), 0, 0);
    } else {
      assert (a + b)[1..] == a[1..] + b;
      ToClearOfJoin(a[1..], b, current);
      OrLaws(ClearedBy(a[0], current), ToClear(a[1..], current), ToClear(b, current));
    }
  }

  lemma {:induction false} StillWaitingOfJoin(a: seq<Waiter>, b: seq<Waiter>, current: Bits)
    ensures StillWaiting(a + b, current) == StillWaiting(a, current) + StillWaiting(b, current)
  {
    if a == [] {
      assert a + b == b;
    } else {
      hide Or, And, Without, Matches;
      assert (a + b)[1..] == a[1..] + b && (a + b)[0] == a[0];
      StillWaitingOfJoin(a[1..], b, current);
      var first := if Matches(current, a[0]) then [] else [a[0]];
      assert StillWaiting(a, current) == first + StillWaiting(a[1..], current);
      assert StillWaiting(a + b, current) == first + StillWaiting(a[1..] + b, current);
    }
  }

  /** Two lists with the same waiters in any order keep the same waiters, clear
      the same bits and release the same tasks with the same value. */
  lemma OrderDoesNotMatter(a: seq<Waiter>, b: seq<Waiter>, current: Bits)
    requires multiset(a) == multiset(b)
    ensures ToClear(a, current) == ToClear(b, current)
    ensures multiset(StillWaiting(a, current)) == multiset(StillWaiting(b, current))
    ensures Delivery(a, current) == Delivery(b, current)
  {
    hide Matches, ToClear, StillWaiting;
    SameToClear(a, b, current);
    SameStillWaiting(a, b, current);
    forall w
      ensures w in a <==> w in b
    {
      assert w in multiset(a) <==> w in multiset(b);
    }
  }

  lemma {:induction false} SameToClear(a: seq<Waiter>, b: seq<Waiter>, current: Bits)
    requires multiset(a) == multiset(b)
    ensures ToClear(a, current) == ToClear(b, current)
    decreases |a|
  {
    hide Or, And, Without, ClearedBy;
    if a == [] {
      assert |multiset(b)| == 0 && b == [];
    } else {
      var before, after := FindFirst(a, b);
      SameToClear(a[1..], before + after, current);
      ToClearMoves(before, a[0], after, current);
    }
  }

  lemma {:induction false} SameStillWaiting(a: seq<Waiter>, b: seq<Waiter>, current: Bits)
    requires multiset(a) == multiset(b)
    ensures multiset(StillWaiting(a, current)) == multiset(StillWaiting(b, current))
    decreases |a|
  {
    hide Or, And, Without, Matches, StillWaiting;
    if a == [] {
      assert |multiset(b)| == 0 && b == [];
    } else {
      var before, after := FindFirst(a, b);
      SameStillWaiting(a[1..], before + after, current);
      StillWaitingOfJoin(before, after, current);
      StillWaitingOfJoin(before, [a[0]] + after, current);
      StillWaitingOfJoin([a[0]], after, current);
      StillWaitingOfJoin([a[0]], a[1..], current);
      assert a == [a[0]] + a[1..];
    }
  }

  lemma ToClearMoves(before: seq<Waiter>, w: Waiter, after: seq<Waiter>, current: Bits)
    ensures ToClear(before + ([w] + after), current) == Or(ClearedBy(w, current), ToClear(before + after, current))
  {
    ToClearOfJoin(before, after, current);
    ToClearOfJoin(before, [w] + after, current);
    assert ([w] + after)[1..] == after;
    var x, y, z := ToClear(before, current), ClearedBy(w, current), ToClear(after, current);
    OrLaws(x, y, z);
    OrLaws(y, x, z);
  }

  // No task waits for what is already so.

  ghost predicate NoneSatisfied(bits: Bits, ws: seq<Waiter>) {
    forall w <- ws :: !Matches(bits, w)
  }

  /** Clearing bits satisfies nobody. */
  lemma ClearingSatisfiesNone(bits: Bits, clear: Bits, w: Waiter)
    ensures Matches(Without(bits, clear), w) ==> Matches(bits, w)
  {
    ClearingMeetsNothing(bits, clear, w.WaitedFor());
  }

  /** A set leaves no waiter satisfied, whatever the state before it. */
  lemma SetSatisfiesAll(g: Group, bits: Bits)
    ensures NoneSatisfied(SetBits(g, bits).bits, SetBits(g, bits).waiting)
  {
    var current := Or(g.bits, bits);
    ReleasesExactly(g.waiting, current);
    forall w <- StillWaiting(g.waiting, current)
      ensures !Matches(Without(current, ToClear(g.waiting, current)), w)
    {
      ClearingSatisfiesNone(current, ToClear(g.waiting, current), w);
    }
  }

  lemma SetOnlyLeaves(g: Group, bits: Bits, w: Waiter)
    ensures Matches(SetBits(g, bits).bits, w) ==> Matches(Or(g.bits, bits), w)
  {
    ClearingSatisfiesNone(Or(g.bits, bits), ToClear(g.waiting, Or(g.bits, bits)), w);
  }

  lemma WaiterMeans(task: Task, waitFor: Bits, clear: bool, all: bool)
    requires And(waitFor, CONTROL_BYTES) == 0
    ensures var w := Waiter(task, ControlValue(waitFor, clear, all));
            w.WaitedFor() == waitFor && w.ClearOnExit() == clear && w.WaitForAll() == all
  {
    hide Or, And, Without;
    ControlBitsApart(waitFor, if clear then CLEAR_EVENTS_ON_EXIT_BIT else 0, if all then WAIT_FOR_ALL_BITS else 0);
  }

  /** What one more waiter adds to what a pass over the list has done. */
  lemma OneMoreWaiter(ws: seq<Waiter>, w: Waiter, current: Bits)
    ensures StillWaiting(ws + [w], current) == StillWaiting(ws, current) + (if Matches(current, w) then [] else [w])
    ensures ToClear(ws + [w], current) == Or(ToClear(ws, current), ClearedBy(w, current))
  {
    hide Or, And, Without, Matches, ClearedBy;
    StillWaitingOfJoin(ws, [w], current);
    ToClearOfJoin(ws, [w], current);
    assert [w][1..] == [];
    OrLaws(ClearedBy(w, current), 0, 0);
  }

  lemma OneMoreDelivery(ws: seq<Waiter>, w: Waiter, current: Bits)
    ensures Delivery(ws + [w], current)
         == if Matches(current, w) then Delivery(ws, current)[w.task := Or(current, UNBLOCKED_DUE_TO_BIT_SET)]
            else Delivery(ws, current)
  {
    hide Or, And, Without, Matches;
    var more := Released(ws + [w], current);
    forall v
      ensures v in ws + [w] <==> v in ws || v == w
    {
    }
    assert more == Released(ws, current) + if Matches(current, w) then {w.task} else {};
  }

  /** Where a pass over the list `all` stands that has looked at `done` waiters
      and left the first `i` of what is now the list behind. */
  datatype Pass = Pass(waiting: seq<Waiter>, i: nat, toClear: Bits, delivered: map<Task, Bits>)

  ghost predicate PassedOver(p: Pass, all: seq<Waiter>, done: nat, given: map<Task, Bits>, current: Bits) {
    && done <= |all| && p.i <= |p.waiting|
    && p.waiting == StillWaiting(all[..done], current) + all[done..]
    && p.i == |StillWaiting(all[..done], current)|
    && p.toClear == ToClear(all[..done], current)
    && p.delivered == given + Delivery(all[..done], current)
  }

  /** What the loop does about one waiter. */
  function PassOne(p: Pass, current: Bits): Pass
    requires p.i < |p.waiting|
  {
    var w := p.waiting[p.i];
    if Matches(current, w) then
      Pass(p.waiting[..p.i] + p.waiting[p.i+1..], p.i, Or(p.toClear, ClearedBy(w, current)),
           p.delivered[w.task := Or(current, UNBLOCKED_DUE_TO_BIT_SET)])
    else
      p.(i := p.i + 1, toClear := Or(p.toClear, ClearedBy(w, current)))
  }

  /** The element a pass looks at next, and the list without it and with it behind. */
  lemma NextInPass<T>(front: seq<T>, all: seq<T>, done: nat, now: seq<T>)
    requires done <= |all| && now == front + all[done..] && |front| < |now|
    ensures done < |all| && now[|front|] == all[done] && all[..done+1] == all[..done] + [all[done]]
    ensures now[..|front|] + now[|front|+1..] == front + all[done+1..]
    ensures now == (front + [all[done]]) + all[done+1..]
  {
    assert all[done..] == [all[done]] + all[done+1..];
  }

  lemma PassOneMore(p: Pass, all: seq<Waiter>, done: nat, given: map<Task, Bits>, current: Bits)
    requires PassedOver(p, all, done, given, current) && p.i < |p.waiting|
    ensures done < |all| && PassedOver(PassOne(p, current), all, done + 1, given, current)
  {
    hide Or, And, Without, StillWaiting, ToClear, Delivery, Matches, ClearedBy;
    var w := p.waiting[p.i];
    NextInPass(StillWaiting(all[..done], current), all, done, p.waiting);
    OneMoreWaiter(all[..done], w, current);
    OneMoreDelivery(all[..done], w, current);
  }

  lemma PassOver(p: Pass, all: seq<Waiter>, done: nat, given: map<Task, Bits>, current: Bits)
    requires PassedOver(p, all, done, given, current) && p.i == |p.waiting|
    ensures p.waiting == StillWaiting(all, current) && p.toClear == ToClear(all, current)
    ensures p.delivered == given + Delivery(all, current)
  {
    hide StillWaiting, ToClear, Delivery;
    assert all[..done] == all;
  }

  class EventGroup {
    var bits: Bits
    var waiting: seq<Waiter>
    var delivered: map<Task, Bits>

    /** The bits that were set when each task was released that has not run since. */
    ghost var atRelease: map<Task, Bits>

    ghost function View(): Group
      reads this
    {
      Group(bits, waiting, delivered)
    }

    /** No control bit is ever set, no waiting task has its condition met, and
        every released one will find the bits of that moment. */
    ghost predicate Valid()
      reads this
    {
      And(bits, CONTROL_BYTES) == 0 && NoneSatisfied(bits, waiting) && Tells(delivered, atRelease)
    }

    constructor ()
      ensures Valid() && View() == Group(0, [], map[])
    {
      bits, waiting, delivered, atRelease := 0, [], map[], map[];
    }

    /** xEventGroupSetBits: one pass over the list, from which it takes the tasks
        whose condition is met. */
    method SetEventBits(toSet: Bits) returns (result: Bits)
      requires Valid() && And(toSet, CONTROL_BYTES) == 0
      modifies this
      ensures Valid() && View() == SetBits(old(View()), toSet) && result == bits
      ensures atRelease == old(atRelease) + BitsAtRelease(old(waiting), Or(old(bits), toSet))
      ensures var current := Or(old(bits), toSet);
              && IsJoint(current, old(bits), toSet)
              && (forall w :: w in waiting <==> w in old(waiting) && !IsSatisfied(current, w))
              && (forall x :: x in delivered <==> x in old(delivered) || Releases(current, old(waiting), x))
              && (forall i: nat :: HasBit(bits, i) <==> HasBit(current, i) && !SomeoneClears(current, old(waiting), i))
    {
      SetMeans(View(), toSet);
      hide HasBit, IsJoint, IsSatisfied, Releases, SomeoneClears;
      hide Or, And, Without, ConditionMet, StillWaiting, ToClear, Delivery, BitsAtRelease, NoneSatisfied, Tells, PassedOver;
      SetSatisfiesAll(View(), toSet);
      NoControlBits(bits, toSet);
      DeliveryTells(delivered, atRelease, waiting, Or(bits, toSet));
      ghost var all, given := waiting, delivered;
      bits := Or(bits, toSet);
      ghost var current := bits;
      var toClear: Bits := 0;
      var i := 0;
      ghost var done := 0;
      assert PassedOver(Pass(waiting, i, toClear, delivered), all, done, given, current) by { NothingYet(all, given, current); }
      while i < |waiting|
        invariant i <= |waiting| && bits == current && atRelease == old(atRelease)
        invariant PassedOver(Pass(waiting, i, toClear, delivered), all, done, given, current)
        decreases |waiting| - i
      {
        var w := waiting[i];
        PassOneMore(Pass(waiting, i, toClear, delivered), all, done, given, current);
        OrLaws(toClear, 0, 0);
        if ConditionMet(bits, w.WaitedFor(), w.WaitForAll()) {
          if w.ClearOnExit() {
            toClear := Or(toClear, w.WaitedFor());
          }
          delivered := delivered[w.task := Or(bits, UNBLOCKED_DUE_TO_BIT_SET)];
          waiting := waiting[..i] + waiting[i+1..];
        } else {
          i := i + 1;
        }
        done := done + 1;
      }
      PassOver(Pass(waiting, i, toClear, delivered), all, done, given, current);
      ClearingMeetsNothing(current, toClear, 0);
      bits := Without(bits, toClear);
      atRelease := atRelease + BitsAtRelease(all, current);
      result := bits;
    }

    /** xEventGroupClearBits */
    method ClearEventBits(toClear: Bits) returns (result: Bits)
      requires Valid()
      modifies this`bits
      ensures Valid() && result == old(bits) && bits == Without(old(bits), toClear)
      ensures forall i: nat :: HasBit(bits, i) <==> HasBit(old(bits), i) && !HasBit(toClear, i)
    {
      result := bits;
      ClearingKeepsValid(toClear);
      ClearedBits(bits, toClear);
      bits := Without(bits, toClear);
    }

    lemma ClearingKeepsValid(clear: Bits)
      requires Valid()
      ensures And(Without(bits, clear), CONTROL_BYTES) == 0 && NoneSatisfied(Without(bits, clear), waiting)
    {
      hide Or, And, Without, ConditionMet;
      ClearingMeetsNothing(bits, clear, 0);
      forall w <- waiting
        ensures !Matches(Without(bits, clear), w)
      {
        ClearingSatisfiesNone(bits, clear, w);
      }
    }

    /** xEventGroupWaitBits up to the point where the task blocks, or returns if
        its condition is met or it does not want to wait. */
    method WaitBits(t: Task, waitFor: Bits, clear: bool, all: bool, mayBlock: bool) returns (blocked: bool, result: Bits)
      requires Valid() && And(waitFor, CONTROL_BYTES) == 0 && waitFor != 0
      modifies this`bits, this`waiting
      ensures Valid()
      ensures blocked <==> mayBlock && !Satisfied(old(bits), waitFor, all)
      ensures forall i: nat :: HasBit(bits, i) <==>
                HasBit(old(bits), i) && !(clear && Satisfied(old(bits), waitFor, all) && HasBit(waitFor, i))
      ensures !blocked ==> result == old(bits) && waiting == old(waiting)
      ensures bits == if clear && ConditionMet(old(bits), waitFor, all) then Without(old(bits), waitFor) else old(bits)
      ensures blocked ==> waiting == old(waiting) + [Waiter(t, ControlValue(waitFor, clear, all))]
    {
      ConditionMetIff(bits, waitFor, all);
      ClearedBits(bits, waitFor);
      hide Or, And, Without, ConditionMet, Satisfied, HasBit;
      result, blocked := bits, false;
      if ConditionMet(bits, waitFor, all) {
        if clear {
          ClearingKeepsValid(waitFor);
          bits := Without(bits, waitFor);
        }
      } else if mayBlock {
        WaiterMeans(t, waitFor, clear, all);
        waiting := waiting + [Waiter(t, ControlValue(waitFor, clear, all))];
        blocked, result := true, 0;
      }
    }

    /** xEventGroupSync up to the point where the task blocks, or returns. */
    method Sync(t: Task, toSet: Bits, waitFor: Bits, mayBlock: bool) returns (blocked: bool, result: Bits)
      requires Valid() && And(toSet, CONTROL_BYTES) == 0 && And(waitFor, CONTROL_BYTES) == 0 && waitFor != 0
      modifies this
      ensures Valid()
      ensures blocked <==> mayBlock && !Satisfied(Or(old(bits), toSet), waitFor, true)
      ensures View() == SyncStep(old(View()), t, toSet, waitFor, mayBlock)
      ensures atRelease == old(atRelease) + BitsAtRelease(old(waiting), Or(old(bits), toSet))
      ensures !blocked ==> result == if ConditionMet(Or(old(bits), toSet), waitFor, true) then Or(old(bits), toSet) else bits
    {
      ConditionMetIff(Or(bits, toSet), waitFor, true);
      hide Or, And, Without, ConditionMet, Satisfied, SetBits, ControlValue, IsJoint, IsSatisfied, Releases, SomeoneClears;
      var original := bits;
      blocked, result := false, 0;
      ghost var w := Waiter(t, ControlValue(waitFor, true, true));
      SetOnlyLeaves(View(), toSet, w);
      WaiterMeans(t, waitFor, true, true);
      var _ := SetEventBits(toSet);
      if ConditionMet(Or(original, toSet), waitFor, true) {
        result := Or(original, toSet);
        ClearingKeepsValid(waitFor);
        bits := Without(bits, waitFor);
      } else if mayBlock {
        waiting := waiting + [Waiter(t, ControlValue(waitFor, true, true))];
        blocked := true;
      } else {
        result := bits;
      }
    }

    /** The kernel takes a task off the list whose block time has expired. */
    method TimeOut(k: nat)
      requires Valid() && k < |waiting|
      modifies this`waiting
      ensures Valid() && waiting == RemoveAt(old(waiting), k)
    {
      waiting := RemoveAt(waiting, k);
    }

    /** What a task does that has timed out, once it runs again: the bits may have been set meanwhile. */
    method AfterTimeOut(waitFor: Bits, clear: bool, all: bool) returns (result: Bits)
      requires Valid()
      modifies this`bits
      ensures Valid() && result == old(bits)
      ensures forall i: nat :: HasBit(bits, i) <==>
                HasBit(old(bits), i) && !(clear && Satisfied(old(bits), waitFor, all) && HasBit(waitFor, i))
      ensures bits == if clear && ConditionMet(old(bits), waitFor, all) then Without(old(bits), waitFor) else old(bits)
    {
      ConditionMetIff(bits, waitFor, all);
      ClearedBits(bits, waitFor);
      hide Or, And, Without, ConditionMet, Satisfied, HasBit;
      result := bits;
      if ConditionMet(bits, waitFor, all) && clear {
        ClearingKeepsValid(waitFor);
        bits := Without(bits, waitFor);
      }
      assert And(result, CONTROL_BYTES) == 0;
      assert Without(result, CONTROL_BYTES) == result by { NothingToRemove(result); }
      result := Without(result, CONTROL_BYTES);
    }

    /** What a released task does once it runs again (uxTaskResetEventItemValue): it
        returns the bits that released it, whatever has become of them since. */
    method Collect(t: Task) returns (result: Bits)
      requires Valid() && t in delivered
      modifies this`delivered, this`atRelease
      ensures Valid() && delivered == old(delivered) - {t} && atRelease == old(atRelease) - {t}
      ensures t in old(atRelease) && result == old(atRelease)[t]
    {
      hide Or, And, Without, NoneSatisfied;
      DeliveredMeans(atRelease[t]);
      result := Without(delivered[t], CONTROL_BYTES);
      delivered := delivered - {t};
      atRelease := atRelease - {t};
    }
  }

  lemma ClearedBits(bits: Bits, clear: Bits)
    ensures forall i: nat :: HasBit(Without(bits, clear), i) <==> HasBit(bits, i) && !HasBit(clear, i)
  {
    hide Without, HasBit;
    forall i: nat
      ensures HasBit(Without(bits, clear), i) <==> HasBit(bits, i) && !HasBit(clear, i)
    {
      BitOf(bits, clear, i);
    }
  }

  lemma NothingYet(all: seq<Waiter>, given: map<Task, Bits>, current: Bits)
    ensures PassedOver(Pass(all, 0, 0, given), all, 0, given, current)
  {
    assert all[..0] == [];
  }

  /** What xEventGroupSync makes of a group. */
  function SyncStep(g: Group, t: Task, toSet: Bits, waitFor: Bits, mayBlock: bool): Group {
    var after := SetBits(g, toSet);
    if ConditionMet(Or(g.bits, toSet), waitFor, true) then after.(bits := Without(after.bits, waitFor))
    else if mayBlock then after.(waiting := after.waiting + [Waiter(t, ControlValue(waitFor, true, true))])
    else after
  }
}
