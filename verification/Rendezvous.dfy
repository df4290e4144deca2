/** Tasks that meet over and over by calling xEventGroupSync (event_groups.c) on
    one event group, each setting its own bits and waiting for all of them. */
module Rendezvous {
  import opened EventBits
  import opened EventGroups

  /** Task `i` sets `own[i]`; no two tasks share a bit. */
  ghost predicate GoodBits(own: seq<Bits>) {
    && own != []
    && (forall i :: 0 <= i < |own| ==> own[i] != 0 && And(own[i], CONTROL_BYTES) == 0)
    && (forall i, j :: 0 <= i < |own| && 0 <= j < |own| && i != j ==> And(own[i], own[j]) == 0)
  }

  /** The bits of those tasks that are flagged. */
  function Gathered(own: seq<Bits>, flags: seq<bool>): Bits
    requires |own| == |flags|
  {
    if own == [] then 0
    else
      var k := |own| - 1;
      Or(Gathered(own[..k], flags[..k]), if flags[k] then own[k] else 0)
  }

  function All(n: nat): (flags: seq<bool>)
    ensures |flags| == n && forall i :: 0 <= i < n ==> flags[i]
  {
    seq(n, _ => true)
  }

  function None(n: nat): (flags: seq<bool>)
    ensures |flags| == n && forall i :: 0 <= i < n ==> !flags[i]
  {
    seq(n, _ => false)
  }

  /** The bits every task waits for. */
  function Meeting(own: seq<Bits>): Bits {
    Gathered(own, All(|own|))
  }

  // What the gathered bits say about the flags.

  lemma {:induction false} GatheredMeets(own: seq<Bits>, flags: seq<bool>, bits: Bits)
    requires |own| == |flags|
    requires forall i :: 0 <= i < |own| && flags[i] ==> And(own[i], bits) == 0
    ensures And(Gathered(own, flags), bits) == 0
    decreases |own|
  {
    hide Or, And;
    if own == [] {
      OrMeets(0, 0, bits);
    } else {
      var k := |own| - 1;
      GatheredMeets(own[..k], flags[..k], bits);
      OrMeets(Gathered(own[..k], flags[..k]), if flags[k] then own[k] else 0, bits);
      OrMeets(0, 0, bits);
    }
  }

  lemma SelfLaws(a: Bits, b: Bits)
    ensures And(a, a) == a && Or(a, a) == a && Or(a, 0) == a && Or(0, a) == a
    ensures Without(a, a) == 0 && Without(0, a) == 0 && Without(a, 0) == a
    ensures And(a, b) == And(b, a)
  {
  }

  lemma OrHolds(a: Bits, b: Bits, c: Bits)
    ensures And(Or(a, b), b) == b
    ensures And(a, c) == c ==> And(Or(a, b), c) == c
  {
    AndOverOr(a, b, b);
    AndOverOr(a, b, c);
  }

  lemma OrSwaps(a: Bits, b: Bits, c: Bits)
    ensures Or(Or(a, b), c) == Or(Or(a, c), b)
  {
    hide Or;
    OrLaws(a, b, c);
    OrLaws(a, c, b);
    OrLaws(b, c, 0);
  }

  /** A word that lacks some of the bits of `c` does not hold all of `c`. */
  lemma Lacking(a: bv32, b: bv32, c: bv32)
    ensures a & b == 0 && c & b == b && a & c == c ==> b == 0
  {
    assert (a & c) & b == (a & b) & c;
  }

  lemma LackingBits(a: Bits, b: Bits, c: Bits)
    requires And(a, b) == 0 && And(c, b) == b && b != 0
    ensures And(a, c) != c
  {
    Lacking(a, b, c);
  }

  lemma {:induction false} GatheredHolds(own: seq<Bits>, flags: seq<bool>, i: nat)
    requires |own| == |flags| && i < |own| && flags[i]
    ensures And(Gathered(own, flags), own[i]) == own[i]
    decreases |own|
  {
    hide Or, And, Without;
    var k := |own| - 1;
    var rest, last := Gathered(own[..k], flags[..k]), if flags[k] then own[k] else 0;
    if i < k {
      GatheredHolds(own[..k], flags[..k], i);
    }
    OrHolds(rest, last, own[i]);
  }

  lemma {:induction false} GatheredOneMore(own: seq<Bits>, flags: seq<bool>, i: nat)
    requires |own| == |flags| && i < |own| && !flags[i]
    ensures Gathered(own, flags[i := true]) == Or(Gathered(own, flags), own[i])
    decreases |own|
  {
    hide Or, And, Without;
    var k := |own| - 1;
    var rest, last := Gathered(own[..k], flags[..k]), if flags[k] then own[k] else 0;
    if i < k {
      GatheredOneMore(own[..k], flags[..k], i);
      assert flags[i := true][..k] == flags[..k][i := true];
      OrSwaps(rest, last, own[i]);
    } else {
      assert flags[i := true][..k] == flags[..k];
      SelfLaws(rest, 0);
    }
  }

  lemma {:induction false} GatheredNone(own: seq<Bits>, flags: seq<bool>)
    requires |own| == |flags| && forall i :: 0 <= i < |own| ==> !flags[i]
    ensures Gathered(own, flags) == 0
    decreases |own|
  {
    hide Or, And, Without;
    if own == [] {
    } else {
      GatheredNone(own[..|own|-1], flags[..|own|-1]);
      SelfLaws(0, 0);
    }
  }

  /** The bits waited for are all set exactly if every task has arrived. */
  lemma MetIffAll(own: seq<Bits>, flags: seq<bool>)
    requires GoodBits(own) && |flags| == |own|
    ensures And(Gathered(own, flags), Meeting(own)) == Meeting(own) <==> forall i :: 0 <= i < |own| ==> flags[i]
    ensures (forall i :: 0 <= i < |own| ==> flags[i]) ==> Gathered(own, flags) == Meeting(own)
    ensures And(Meeting(own), CONTROL_BYTES) == 0 && Meeting(own) != 0
  {
    hide Or, And, Without;
    SelfLaws(Meeting(own), own[0]);
    GatheredMeets(own, All(|own|), CONTROL_BYTES);
    GatheredHolds(own, All(|own|), 0);
    OrMeets(0, 0, own[0]);
    if forall i :: 0 <= i < |own| ==> flags[i] {
      assert flags == All(|own|);
    } else {
      var j :| 0 <= j < |own| && !flags[j];
      GatheredMeets(own, flags, own[j]);
      GatheredHolds(own, All(|own|), j);
      LackingBits(Gathered(own, flags), own[j], Meeting(own));
    }
  }

  // The barrier.

  /** Each task's calls and returns so far, and the event group they share. */
  datatype State = State(group: Group, called: seq<nat>, returned: seq<nat>)

  /** A task calls, or one that was released gets to run and returns. */
  datatype Event = Call(i: nat) | Return(i: nat)

  ghost predicate Enabled(own: seq<Bits>, s: State, e: Event)
    requires |s.called| == |s.returned| == |own|
  {
    match e
    case Call(i) => i < |own| && s.called[i] == s.returned[i]
    case Return(i) => i < |own| && i in s.group.delivered
  }

  function Apply(own: seq<Bits>, s: State, e: Event): (t: State)
    requires |s.called| == |s.returned| == |own| && Enabled(own, s, e)
    ensures |t.called| == |t.returned| == |own|
  {
    match e
    case Call(i) =>
      var met := ConditionMet(Or(s.group.bits, own[i]), Meeting(own), true);
      State(SyncStep(s.group, i, own[i], Meeting(own), true),
            s.called[i := s.called[i] + 1],
            if met then s.returned[i := s.returned[i] + 1] else s.returned)
    case Return(i) =>
      State(s.group.(delivered := s.group.delivered - {i}), s.called, s.returned[i := s.returned[i] + 1])
  }

  function Arrived(s: State, round: nat): (flags: seq<bool>)
    ensures |flags| == |s.called| && forall i :: 0 <= i < |flags| ==> (flags[i] <==> s.called[i] == round + 1)
  {
    seq(|s.called|, i requires 0 <= i < |s.called| => s.called[i] == round + 1)
  }

  ghost predicate TaskOK(own: seq<Bits>, s: State, round: nat, i: nat)
    requires |s.called| == |s.returned| == |own| && i < |own|
  {
    && (s.called[i] == round || s.called[i] == round + 1)
    && (s.called[i] == round + 1 ==> s.returned[i] == round && i !in s.group.delivered)
    && (s.called[i] == round ==>
          if i in s.group.delivered
          then s.returned[i] + 1 == round && s.group.delivered[i] == Or(Meeting(own), UNBLOCKED_DUE_TO_BIT_SET)
          else s.returned[i] == round)
    && (s.called[i] == round + 1 <==> TheWaiter(own, i) in s.group.waiting)
  }

  function TheWaiter(own: seq<Bits>, i: nat): Waiter {
    Waiter(i, ControlValue(Meeting(own), true, true))
  }

  /** `round` meetings have taken place. Some task has not come to the next one
      yet; those that have wait, and their bits are the ones that are set. */
  ghost predicate Inv(own: seq<Bits>, s: State, round: nat) {
    && |s.called| == |s.returned| == |own|
    && s.group.bits == Gathered(own, Arrived(s, round))
    && (exists i :: 0 <= i < |own| && s.called[i] == round)
    && (forall i {:trigger TaskOK(own, s, round, i)} :: 0 <= i < |own| ==> TaskOK(own, s, round, i))
    && (forall w <- s.group.waiting :: w.task < |own| && w == TheWaiter(own, w.task))
    && (forall i <- s.group.delivered :: i < |own|)
  }

  lemma SameWait(w: Waiter, current: Bits, meeting: Bits)
    requires And(meeting, CONTROL_BYTES) == 0 && w == Waiter(w.task, ControlValue(meeting, true, true))
    ensures Matches(current, w) <==> ConditionMet(current, meeting, true)
    ensures ClearedBy(w, current) == if ConditionMet(current, meeting, true) then meeting else 0
  {
    hide Or, And, Without, ConditionMet, ControlValue;
    WaiterMeans(w.task, meeting, true, true);
  }

  /** Waiters that all wait for the same bits are released together or not at all. */
  lemma {:induction false} AllOrNone(ws: seq<Waiter>, current: Bits, meeting: Bits)
    requires And(meeting, CONTROL_BYTES) == 0
    requires forall w <- ws :: w == Waiter(w.task, ControlValue(meeting, true, true))
    ensures !ConditionMet(current, meeting, true) ==> StillWaiting(ws, current) == ws && ToClear(ws, current) == 0
    ensures ConditionMet(current, meeting, true) ==>
              StillWaiting(ws, current) == [] && ToClear(ws, current) == if ws == [] then 0 else meeting
    decreases |ws|
  {
    hide Or, And, Without, ConditionMet, ControlValue, Matches, ClearedBy;
    if ws == [] {
    } else {
      assert ws[0] in ws && ws == [ws[0]] + ws[1..];
      AllOrNone(ws[1..], current, meeting);
      SameWait(ws[0], current, meeting);
      SelfLaws(meeting, 0);
      SelfLaws(0, 0);
    }
  }

  ghost predicate HasWaiter(ws: seq<Waiter>, t: Task) {
    exists w :: w in ws && w.task == t
  }

  lemma AllOrNoneDelivered(ws: seq<Waiter>, current: Bits, meeting: Bits)
    requires And(meeting, CONTROL_BYTES) == 0
    requires forall w <- ws :: w == Waiter(w.task, ControlValue(meeting, true, true))
    ensures forall t :: t in Delivery(ws, current) <==> ConditionMet(current, meeting, true) && HasWaiter(ws, t)
    ensures forall t :: t in Delivery(ws, current) ==> Delivery(ws, current)[t] == Or(current, UNBLOCKED_DUE_TO_BIT_SET)
  {
    hide Or, And, Without, ConditionMet, ControlValue, Matches;
    forall w <- ws
      ensures Matches(current, w) <==> ConditionMet(current, meeting, true)
    {
      SameWait(w, current, meeting);
    }
  }

  /** Every other task has arrived. */
  ghost predicate OthersArrived(s: State, round: nat, i: nat) {
    forall j :: 0 <= j < |s.called| && j != i ==> s.called[j] == round + 1
  }

  /** What a call waits for is there exactly if the caller is the last to come. */
  lemma LastIsMet(own: seq<Bits>, s: State, round: nat, i: nat)
    requires GoodBits(own) && Inv(own, s, round) && i < |own| && s.called[i] == round
    ensures ConditionMet(Or(s.group.bits, own[i]), Meeting(own), true) <==> OthersArrived(s, round, i)
    ensures OthersArrived(s, round, i) ==> Or(s.group.bits, own[i]) == Meeting(own)
    ensures And(Meeting(own), CONTROL_BYTES) == 0 && Meeting(own) != 0
  {
    hide Or, And, Without, Gathered;
    var flags := Arrived(s, round);
    GatheredOneMore(own, flags, i);
    var more := flags[i := true];
    MetIffAll(own, more);
    assert OthersArrived(s, round, i) ==> forall j :: 0 <= j < |own| ==> more[j];
    if forall j :: 0 <= j < |own| ==> more[j] {
      forall j | 0 <= j < |s.called| && j != i
        ensures s.called[j] == round + 1
      {
        assert more[j];
      }
    }
  }

  /** The last task to arrive releases all others, finds all bits set itself,
      and leaves none of them set for the next meeting. */
  lemma LastCall(own: seq<Bits>, s: State, round: nat, i: nat)
    requires GoodBits(own) && Inv(own, s, round) && Enabled(own, s, Call(i))
    requires s.called[i] == round && OthersArrived(s, round, i)
    ensures var t := Apply(own, s, Call(i));
            && t.group.bits == 0 && t.group.waiting == [] && t.returned == s.returned[i := s.returned[i] + 1]
            && (forall j :: 0 <= j < |own| && j != i ==>
                  j in t.group.delivered && t.group.delivered[j] == Or(Meeting(own), UNBLOCKED_DUE_TO_BIT_SET))
            && (forall j :: j in t.group.delivered ==> j in s.group.delivered || (j < |own| && j != i))
  {
    hide Or, And, Without, ConditionMet, ControlValue, StillWaiting, ToClear, Delivery, Gathered, Meeting;
    LastIsMet(own, s, round, i);
    var current := Or(s.group.bits, own[i]);
    AllOrNone(s.group.waiting, current, Meeting(own));
    AllOrNoneDelivered(s.group.waiting, current, Meeting(own));
    SelfLaws(current, 0);
    assert TaskOK(own, s, round, i);
    forall j | 0 <= j < |own| && j != i
      ensures HasWaiter(s.group.waiting, j)
    {
      assert TaskOK(own, s, round, j);
      assert TheWaiter(own, j).task == j;
    }
  }

  lemma EarlierCall(own: seq<Bits>, s: State, round: nat, i: nat)
    requires GoodBits(own) && Inv(own, s, round) && Enabled(own, s, Call(i))
    requires s.called[i] == round && !OthersArrived(s, round, i)
    ensures Apply(own, s, Call(i)) ==
            State(Group(Or(s.group.bits, own[i]), s.group.waiting + [TheWaiter(own, i)], s.group.delivered),
                  s.called[i := round + 1], s.returned)
  {
    hide Or, And, Without, ConditionMet, ControlValue, StillWaiting, ToClear, Delivery, Gathered, Meeting;
    LastIsMet(own, s, round, i);
    var current := Or(s.group.bits, own[i]);
    AllOrNone(s.group.waiting, current, Meeting(own));
    AllOrNoneDelivered(s.group.waiting, current, Meeting(own));
    SelfLaws(current, 0);
    assert s.group.delivered + Delivery(s.group.waiting, current) == s.group.delivered;
  }

  lemma LastCallKeepsInv(own: seq<Bits>, s: State, round: nat, i: nat)
    requires GoodBits(own) && Inv(own, s, round) && Enabled(own, s, Call(i))
    requires s.called[i] == round && OthersArrived(s, round, i)
    ensures Inv(own, Apply(own, s, Call(i)), round + 1)
  {
    LastCall(own, s, round, i);
    var t, next := Apply(own, s, Call(i)), round + 1;
    hide Or, And, Without, Gathered, Meeting, Apply;
    GatheredNone(own, Arrived(t, next));
    forall j | 0 <= j < |own|
      ensures TaskOK(own, t, next, j)
    {
      assert TaskOK(own, s, round, j);
    }
  }

  lemma EarlierCallKeepsInv(own: seq<Bits>, s: State, round: nat, i: nat)
    requires GoodBits(own) && Inv(own, s, round) && Enabled(own, s, Call(i))
    requires s.called[i] == round && !OthersArrived(s, round, i)
    ensures Inv(own, Apply(own, s, Call(i)), round)
  {
    EarlierCall(own, s, round, i);
    var t := Apply(own, s, Call(i));
    hide Or, And, Without, Gathered, Meeting, Apply;
    GatheredOneMore(own, Arrived(s, round), i);
    assert Arrived(t, round) == Arrived(s, round)[i := true];
    forall j | 0 <= j < |own|
      ensures TaskOK(own, t, round, j)
    {
      assert TaskOK(own, s, round, j);
    }
    var j :| 0 <= j < |s.called| && j != i && s.called[j] != round + 1;
    assert TaskOK(own, s, round, j) && t.called[j] == round;
  }

  lemma ReturnKeepsInv(own: seq<Bits>, s: State, round: nat, i: nat)
    requires Inv(own, s, round) && Enabled(own, s, Return(i))
    ensures Inv(own, Apply(own, s, Return(i)), round)
  {
    hide Or, And, Without, Gathered, Meeting;
    var t := Apply(own, s, Return(i));
    assert Arrived(t, round) == Arrived(s, round);
    forall j | 0 <= j < |own|
      ensures TaskOK(own, t, round, j)
    {
      assert TaskOK(own, s, round, j);
    }
    var j :| 0 <= j < |own| && s.called[j] == round;
    assert t.called[j] == round;
  }

  ghost predicate Legal(own: seq<Bits>, s: State, run: seq<Event>)
    requires |s.called| == |s.returned| == |own|
    decreases |run|
  {
    run == [] || (Enabled(own, s, run[0]) && Legal(own, Apply(own, s, run[0]), run[1..]))
  }

  ghost function After(own: seq<Bits>, s: State, run: seq<Event>): (t: State)
    requires |s.called| == |s.returned| == |own| && Legal(own, s, run)
    ensures |t.called| == |t.returned| == |own|
    decreases |run|
  {
    if run == [] then s else After(own, Apply(own, s, run[0]), run[1..])
  }

  lemma {:induction false} RunKeepsInv(own: seq<Bits>, s: State, round: nat, run: seq<Event>) returns (rounds: nat)
    requires GoodBits(own) && Inv(own, s, round) && Legal(own, s, run)
    ensures Inv(own, After(own, s, run), rounds)
    decreases |run|
  {
    hide Apply, GoodBits;
    if run == [] {
      rounds := round;
    } else {
      var next := round;
      match run[0] {
        case Call(i) =>
          assert TaskOK(own, s, round, i);
          if OthersArrived(s, round, i) {
            LastCallKeepsInv(own, s, round, i);
            next := round + 1;
          } else {
            EarlierCallKeepsInv(own, s, round, i);
          }
        case Return(i) => ReturnKeepsInv(own, s, round, i);
      }
      rounds := RunKeepsInv(own, Apply(own, s, run[0]), next, run[1..]);
    }
  }

  function Start(n: nat): State {
    State(Group(0, [], map[]), seq(n, _ => 0), seq(n, _ => 0))
  }

  /** The main result: in every run, no task returns from its `k`th call before
      every task has made its `k`th call, and what a released task gets is the
      bits of all tasks. */
  lemma NobodyIsAhead(own: seq<Bits>, run: seq<Event>)
    requires GoodBits(own) && Legal(own, Start(|own|), run)
    ensures var t := After(own, Start(|own|), run);
            && (forall i, j :: 0 <= i < |own| && 0 <= j < |own| ==> t.returned[i] <= t.called[j])
            && (forall i <- t.group.delivered :: Without(t.group.delivered[i], CONTROL_BYTES) == Meeting(own))
  {
    var s := Start(|own|);
    assert Inv(own, s, 0) by { StartIsOK(own); }
    var round := RunKeepsInv(own, s, 0, run);
    var t := After(own, s, run);
    hide Or, And, Without, Gathered, Meeting, Apply, GoodBits, After;
    forall i | 0 <= i < |own|
      ensures t.returned[i] <= round <= t.called[i]
      ensures i in t.group.delivered ==> Without(t.group.delivered[i], CONTROL_BYTES) == Meeting(own)
    {
      assert TaskOK(own, t, round, i);
      MetIffAll(own, Arrived(t, round));
      DeliveredMeans(Meeting(own));
    }
  }

  lemma StartIsOK(own: seq<Bits>)
    requires GoodBits(own)
    ensures Inv(own, Start(|own|), 0)
  {
    GatheredNone(own, Arrived(Start(|own|), 0));
    assert Start(|own|).called[0] == 0;
  }
}
