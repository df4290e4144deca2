/** The storage of a queue (queue.c): a ring of places in which the oldest
    message stands one behind the read position. */
module QueueRing {

  /** The place of the `i`th oldest message of a ring of `n` places read up to `r`. */
  function Place(n: nat, r: nat, i: nat): (k: nat)
    requires r < n && i <= n
    ensures k < n
  {
    var k := r + 1 + i;
    if k < n then k else if k < n + n then k - n else k - n - n
  }

  /** The messages of the ring, oldest first. */
  function Window<T>(places: seq<T>, r: nat, m: nat): (w: seq<T>)
    requires r < |places| && m <= |places|
    ensures |w| == m
    ensures forall i :: 0 <= i < m ==> w[i] == places[Place(|places|, r, i)]
  {
    seq(m, i requires 0 <= i < m => places[Place(|places|, r, i)])
  }

  function Forward(n: nat, k: nat): nat { if k + 1 >= n then 0 else k + 1 }

  function Back(n: nat, k: nat): nat
    requires 0 < n
  {
    if k == 0 then n - 1 else k - 1
  }

  lemma WriteBehind<T>(places: seq<T>, r: nat, m: nat, x: T)
    requires r < |places| && m < |places|
    ensures Window(places[Place(|places|, r, m) := x], r, m + 1) == Window(places, r, m) + [x]
    ensures Forward(|places|, Place(|places|, r, m)) == Place(|places|, r, m + 1)
  {
  }

  lemma WriteInFront<T>(places: seq<T>, r: nat, m: nat, x: T)
    requires r < |places| && m < |places|
    ensures Window(places[r := x], Back(|places|, r), m + 1) == [x] + Window(places, r, m)
    ensures Place(|places|, Back(|places|, r), m + 1) == Place(|places|, r, m)
  {
    var r' := Back(|places|, r);
    assert forall i :: 0 <= i <= m ==> Place(|places|, r', i) == if i == 0 then r else Place(|places|, r, i - 1);
  }

  lemma ReadFront<T>(places: seq<T>, r: nat, m: nat)
    requires r < |places| && 0 < m <= |places|
    ensures Window(places, r, m)[0] == places[Forward(|places|, r)]
    ensures Window(places, Forward(|places|, r), m - 1) == Window(places, r, m)[1..]
    ensures Place(|places|, Forward(|places|, r), m - 1) == Place(|places|, r, m)
  {
  }
}

/** A queue with its storage, its lists of waiting tasks and its locks. Each
    method is one critical section. */
module Queue {
  import opened SortedOrder
  import opened QueueProtocol
  import opened QueueRing

  datatype Position = SendToBack | SendToFront | Overwriting

  class Queue<T(0)> {
    const storage: array<T>
    var writeTo: nat
    var readFrom: nat
    var messagesWaiting: nat
    var waitingToReceive: seq<Task>
    var waitingToSend: seq<Task>
    var cTxLock: int
    var cRxLock: int

    ghost var tasks: set<Task>
    ghost var wokenReceivers: set<Task>
    ghost var wokenSenders: set<Task>
    ghost var locker: Locker

    ghost function View(): State
      reads this
    {
      State(storage.Length, messagesWaiting, tasks, Side(waitingToReceive, wokenReceivers, cTxLock),
            Side(waitingToSend, wokenSenders, cRxLock), locker)
    }

    /** The write position stays where the place behind the newest message is. */
    ghost predicate Valid()
      reads this
    {
      && readFrom < storage.Length && messagesWaiting <= storage.Length
      && writeTo == QueueRing.Place(storage.Length, readFrom, messagesWaiting)
      && StateOK(View())
    }

    /** The messages, oldest first. */
    ghost function Contents(): (c: seq<T>)
      requires Valid()
      reads this, storage
      ensures |c| == messagesWaiting
    {
      Window(storage[..], readFrom, messagesWaiting)
    }

    /** A new queue in a system of the given tasks. */
    constructor (length: nat, ghost tasks: set<Task>)
      requires 0 < length
      ensures Valid() && Contents() == [] && Initial(View()) && fresh(storage)
      ensures storage.Length == length && this.tasks == tasks
    {
      storage := new T[length];
      writeTo, readFrom, messagesWaiting := 0, length - 1, 0;
      waitingToReceive, waitingToSend, cTxLock, cRxLock := [], [], UNLOCKED, UNLOCKED;
      this.tasks, wokenReceivers, wokenSenders, locker := tasks, {}, {}, Nobody;
    }

    /** The scheduler has one more task. */
    ghost method TaskCreated(t: Task)
      requires Valid() && Enabled(View(), CreateTask(t))
      modifies this`tasks
      ensures Valid() && Contents() == old(Contents()) && View() == Apply(old(View()), CreateTask(t))
    {
      StepKeepsStateOK(View(), CreateTask(t));
      tasks := tasks + {t};
    }

    /** The scheduler takes a task off a list whose block time is over. */
    method TimedOut(receiving: bool, k: nat)
      requires Valid() && Enabled(View(), TimeOut(receiving, k))
      modifies this`waitingToReceive, this`waitingToSend
      ensures Valid() && Contents() == old(Contents()) && View() == Apply(old(View()), TimeOut(receiving, k))
    {
      StepKeepsStateOK(View(), TimeOut(receiving, k));
      if receiving {
        waitingToReceive := RemoveAt(waitingToReceive, k);
      } else {
        waitingToSend := RemoveAt(waitingToSend, k);
      }
    }

    /** The copying part of prvCopyDataToQueue. */
    method CopyDataToQueue(x: T, position: Position)
      requires readFrom < storage.Length && messagesWaiting <= storage.Length
      requires writeTo == QueueRing.Place(storage.Length, readFrom, messagesWaiting)
      requires messagesWaiting < storage.Length || (position.Overwriting? && storage.Length == 1)
      requires position.Overwriting? ==> storage.Length == 1
      modifies this`writeTo, this`readFrom, this`messagesWaiting, storage
      ensures readFrom < storage.Length && messagesWaiting <= storage.Length
      ensures writeTo == QueueRing.Place(storage.Length, readFrom, messagesWaiting)
      ensures messagesWaiting == if position.Overwriting? then 1 else old(messagesWaiting) + 1
      ensures var before := old(Window(storage[..], readFrom, messagesWaiting));
              var after := Window(storage[..], readFrom, messagesWaiting);
              match position
              case SendToBack => after == before + [x]
              case SendToFront => after == [x] + before
              case Overwriting => after == [x]
    {
      ghost var places := storage[..];
      var n := messagesWaiting;
      if position.SendToBack? {
        WriteBehind(places, readFrom, n, x);
        storage[writeTo] := x;
        writeTo := writeTo + 1;
        if writeTo >= storage.Length {
          writeTo := 0;
        }
      } else {
        if n < storage.Length {
          WriteInFront(places, readFrom, n, x);
        }
        storage[readFrom] := x;
        if readFrom == 0 {
          readFrom := storage.Length - 1;
        } else {
          readFrom := readFrom - 1;
        }
        if position.Overwriting? && n > 0 {
          n := n - 1;
        }
      }
      messagesWaiting := n + 1;
    }

    /** prvCopyDataFromQueue */
    method CopyDataFromQueue() returns (x: T)
      requires readFrom < storage.Length
      modifies this`readFrom
      ensures readFrom == Forward(storage.Length, old(readFrom)) && readFrom < storage.Length
      ensures x == storage[readFrom]
    {
      readFrom := readFrom + 1;
      if readFrom >= storage.Length {
        readFrom := 0;
      }
      x := storage[readFrom];
    }

    /** Exactly the first task of a list, if there is one, was woken. */
    ghost predicate FirstWoke(wait0: seq<Task>, woken0: set<Task>, wait: seq<Task>, woken: set<Task>) {
      if wait0 == [] then wait == [] && woken == woken0
      else wait == wait0[1..] && woken == woken0 + {wait0[0]}
    }

    /** Takes the first task off a list, if there is one (xTaskRemoveFromEventList). */
    method WakeReceiver()
      modifies this`waitingToReceive, this`wokenReceivers
      ensures View().receivers == WakeHead(old(View().receivers))
      ensures if old(waitingToReceive) == [] then waitingToReceive == [] && wokenReceivers == old(wokenReceivers)
              else old(waitingToReceive) == [old(waitingToReceive)[0]] + waitingToReceive
                   && wokenReceivers == old(wokenReceivers) + {old(waitingToReceive)[0]}
    {
      if waitingToReceive != [] {
        wokenReceivers := wokenReceivers + {waitingToReceive[0]};
        waitingToReceive := waitingToReceive[1..];
      }
    }

    method WakeSender()
      modifies this`waitingToSend, this`wokenSenders
      ensures View().senders == WakeHead(old(View().senders))
      ensures if old(waitingToSend) == [] then waitingToSend == [] && wokenSenders == old(wokenSenders)
              else old(waitingToSend) == [old(waitingToSend)[0]] + waitingToSend
                   && wokenSenders == old(wokenSenders) + {old(waitingToSend)[0]}
    {
      if waitingToSend != [] {
        wokenSenders := wokenSenders + {waitingToSend[0]};
        waitingToSend := waitingToSend[1..];
      }
    }

    /** The critical section of xQueueGenericSend, called by task `t`. */
    method Send(x: T, position: Position, ghost t: Task) returns (ok: bool)
      requires Valid() && Runs(View(), t, false)
      requires position.Overwriting? ==> storage.Length == 1 && t !in wokenSenders
      modifies this, storage
      ensures Valid()
      ensures ok <==> old(messagesWaiting) < storage.Length || position.Overwriting?
      ensures !ok ==> Contents() == old(Contents()) && View() == Apply(old(View()), FailToSend(t))
      ensures ok && position.SendToBack? ==> Contents() == old(Contents()) + [x]
      ensures ok && position.SendToFront? ==> Contents() == [x] + old(Contents())
      ensures ok && position.Overwriting? ==> Contents() == [x] && View() == Apply(old(View()), Overwrite(t))
      ensures ok && !position.Overwriting? ==> View() == Apply(old(View()), Event.Send(t))
      ensures ok ==> FirstWoke(old(waitingToReceive), old(wokenReceivers), waitingToReceive, wokenReceivers)
      ensures waitingToSend == old(waitingToSend)
    {
      ghost var e := if position.Overwriting? then Overwrite(t)
                     else if messagesWaiting < storage.Length then Event.Send(t) else FailToSend(t);
      StepKeepsStateOK(View(), e);
      hide StateOK;
      ok := messagesWaiting < storage.Length || position.Overwriting?;
      if ok {
        CopyDataToQueue(x, position);
        WakeReceiver();
      }
      if !position.Overwriting? {
        wokenSenders := wokenSenders - {t};
      }
    }

    /** xQueueGenericSendFromISR */
    method SendFromISR(x: T, position: Position, numberOfTasks: nat) returns (ok: bool)
      requires Valid() && numberOfTasks == |tasks|
      requires position.Overwriting? ==> storage.Length == 1
      modifies this, storage
      ensures Valid()
      ensures ok <==> old(messagesWaiting) < storage.Length || position.Overwriting?
      ensures !ok ==> Contents() == old(Contents()) && View() == old(View())
      ensures ok && position.SendToBack? ==> Contents() == old(Contents()) + [x]
      ensures ok && position.SendToFront? ==> Contents() == [x] + old(Contents())
      ensures ok && position.Overwriting? ==> Contents() == [x] && View() == Apply(old(View()), OverwriteFromISR)
      ensures ok && !position.Overwriting? ==> View() == Apply(old(View()), Event.SendFromISR)
      ensures ok && old(cTxLock) == -1 ==>
                cTxLock == -1 && FirstWoke(old(waitingToReceive), old(wokenReceivers), waitingToReceive, wokenReceivers)
      ensures ok && old(cTxLock) != -1 ==>
                && waitingToReceive == old(waitingToReceive) && wokenReceivers == old(wokenReceivers)
                && cTxLock == if old(cTxLock) < |tasks| then old(cTxLock) + 1 else old(cTxLock)
      ensures waitingToSend == old(waitingToSend) && wokenSenders == old(wokenSenders) && cRxLock == old(cRxLock)
    {
      ok := messagesWaiting < storage.Length || position.Overwriting?;
      if ok {
        StepKeepsStateOK(View(), if position.Overwriting? then OverwriteFromISR else Event.SendFromISR);
        hide StateOK;
        CopyDataToQueue(x, position);
        if cTxLock == UNLOCKED {
          WakeReceiver();
        } else {
          cTxLock := Increment(cTxLock, numberOfTasks);
        }
      }
    }

    /** The critical section of xQueueReceive, called by task `t`. */
    method Receive(ghost t: Task) returns (ok: bool, x: T)
      requires Valid() && Runs(View(), t, true)
      modifies this
      ensures Valid()
      ensures ok <==> old(Contents()) != []
      ensures ok ==> [x] + Contents() == old(Contents()) && View() == Apply(old(View()), Event.Receive(t))
      ensures ok ==> FirstWoke(old(waitingToSend), old(wokenSenders), waitingToSend, wokenSenders)
      ensures waitingToReceive == old(waitingToReceive)
      ensures !ok ==> Contents() == old(Contents()) && View() == Apply(old(View()), FailToReceive(t))
    {
      StepKeepsStateOK(View(), if messagesWaiting > 0 then Event.Receive(t) else FailToReceive(t));
      hide StateOK;
      ok, x := messagesWaiting > 0, *;
      if ok {
        ReadFront(storage[..], readFrom, messagesWaiting);
        x := CopyDataFromQueue();
        messagesWaiting := messagesWaiting - 1;
        WakeSender();
      }
      wokenReceivers := wokenReceivers - {t};
    }

    /** xQueueReceiveFromISR */
    method ReceiveFromISR(numberOfTasks: nat) returns (ok: bool, x: T)
      requires Valid() && numberOfTasks == |tasks|
      modifies this
      ensures Valid()
      ensures ok <==> old(Contents()) != []
      ensures ok ==> [x] + Contents() == old(Contents()) && View() == Apply(old(View()), Event.ReceiveFromISR)
      ensures ok && old(cRxLock) == -1 ==>
                cRxLock == -1 && FirstWoke(old(waitingToSend), old(wokenSenders), waitingToSend, wokenSenders)
      ensures ok && old(cRxLock) != -1 ==>
                && waitingToSend == old(waitingToSend) && wokenSenders == old(wokenSenders)
                && cRxLock == if old(cRxLock) < |tasks| then old(cRxLock) + 1 else old(cRxLock)
      ensures waitingToReceive == old(waitingToReceive) && wokenReceivers == old(wokenReceivers) && cTxLock == old(cTxLock)
      ensures !ok ==> Contents() == old(Contents()) && View() == old(View())
    {
      ok, x := messagesWaiting > 0, *;
      if ok {
        StepKeepsStateOK(View(), Event.ReceiveFromISR);
        hide StateOK;
        ReadFront(storage[..], readFrom, messagesWaiting);
        x := CopyDataFromQueue();
        messagesWaiting := messagesWaiting - 1;
        if cRxLock == UNLOCKED {
          WakeSender();
        } else {
          cRxLock := Increment(cRxLock, numberOfTasks);
        }
      }
    }

    /** The critical section of xQueuePeek: the read position is put back. */
    method Peek(ghost t: Task) returns (ok: bool, x: T)
      requires Valid() && Runs(View(), t, true)
      modifies this
      ensures Valid() && Contents() == old(Contents())
      ensures ok <==> Contents() != []
      ensures ok ==> x == Contents()[0] && View() == Apply(old(View()), Event.Peek(t))
      ensures ok ==> FirstWoke(old(waitingToReceive), old(wokenReceivers) - {t}, waitingToReceive, wokenReceivers)
      ensures waitingToSend == old(waitingToSend)
      ensures !ok ==> View() == Apply(old(View()), FailToReceive(t))
    {
      StepKeepsStateOK(View(), if messagesWaiting > 0 then Event.Peek(t) else FailToReceive(t));
      hide StateOK;
      wokenReceivers := wokenReceivers - {t};
      ok, x := messagesWaiting > 0, *;
      if ok {
        ReadFront(storage[..], readFrom, messagesWaiting);
        var original := readFrom;
        x := CopyDataFromQueue();
        readFrom := original;
        WakeReceiver();
      }
    }

    /** prvLockQueue, by task `t` after it failed to receive or to send. */
    method Lock(ghost t: Task, ghost receiving: bool)
      requires Valid() && Enabled(View(), Event.Lock(t, receiving))
      modifies this`cRxLock, this`cTxLock, this`locker
      ensures Valid() && View() == Apply(old(View()), Event.Lock(t, receiving))
      ensures cTxLock == cRxLock == 0 && locker == Locker(t, receiving, Entered)
    {
      StepKeepsStateOK(View(), Event.Lock(t, receiving));
      if cRxLock == UNLOCKED {
        cRxLock := LOCKED_UNMODIFIED;
      }
      if cTxLock == UNLOCKED {
        cTxLock := LOCKED_UNMODIFIED;
      }
      locker := Locker(t, receiving, Entered);
    }

    /** The first critical section of prvUnlockQueue. */
    method UnlockTx()
      requires Valid() && Enabled(View(), Event.UnlockTx)
      modifies this`waitingToReceive, this`wokenReceivers, this`cTxLock, this`locker
      ensures Valid() && View() == Apply(old(View()), Event.UnlockTx)
      ensures var counted := if old(cTxLock) > 0 then old(cTxLock) else 0;
              var n := if counted < |old(waitingToReceive)| then counted else |old(waitingToReceive)|;
              && waitingToReceive == old(waitingToReceive)[n..] && cTxLock == -1
              && wokenReceivers == old(wokenReceivers) + (set t | t in old(waitingToReceive)[..n])
    {
      StepKeepsStateOK(View(), Event.UnlockTx);
      WakeManyWakes(View().receivers, Counted(View().receivers));
      hide StateOK;
      var lock := cTxLock;
      while lock > LOCKED_UNMODIFIED
        invariant (lock >= LOCKED_UNMODIFIED || lock == cTxLock) && locker == old(locker)
        invariant WakeMany(old(View().receivers), Counted(old(View().receivers)))
               == WakeMany(View().receivers, if lock > 0 then lock else 0)
        decreases lock
      {
        if waitingToReceive == [] {
          break;
        }
        WakeReceiver();
        lock := lock - 1;
      }
      cTxLock := UNLOCKED;
      locker := locker.(stage := TxUnlocked);
    }

    /** The second critical section of prvUnlockQueue. */
    method UnlockRx()
      requires Valid() && Enabled(View(), Event.UnlockRx)
      modifies this`waitingToSend, this`wokenSenders, this`cRxLock, this`locker
      ensures Valid() && View() == Apply(old(View()), Event.UnlockRx)
      ensures var counted := if old(cRxLock) > 0 then old(cRxLock) else 0;
              var n := if counted < |old(waitingToSend)| then counted else |old(waitingToSend)|;
              && waitingToSend == old(waitingToSend)[n..] && cRxLock == -1
              && wokenSenders == old(wokenSenders) + (set t | t in old(waitingToSend)[..n])
    {
      StepKeepsStateOK(View(), Event.UnlockRx);
      WakeManyWakes(View().senders, Counted(View().senders));
      hide StateOK;
      var lock := cRxLock;
      while lock > LOCKED_UNMODIFIED
        invariant lock >= LOCKED_UNMODIFIED || lock == cRxLock
        invariant WakeMany(old(View().senders), Counted(old(View().senders)))
               == WakeMany(View().senders, if lock > 0 then lock else 0)
        decreases lock
      {
        if waitingToSend != [] {
          WakeSender();
          lock := lock - 1;
        } else {
          break;
        }
      }
      cRxLock := UNLOCKED;
      locker := Nobody;
    }

    /** The test under the lock, and the decision whether to wait
        (xTaskCheckForTimeOut with prvIsQueueEmpty or prvIsQueueFull). */
    method Test(timedOut: bool, receiving: bool) returns (wait: bool)
      requires Valid() && Enabled(View(), Event.Test(timedOut)) && receiving == locker.receiving
      modifies this`locker
      ensures Valid() && View() == Apply(old(View()), Event.Test(timedOut))
      ensures wait <==> !timedOut && messagesWaiting == if receiving then 0 else storage.Length
    {
      StepKeepsStateOK(View(), Event.Test(timedOut));
      wait := !timedOut && messagesWaiting == if receiving then 0 else storage.Length;
      locker := locker.(stage := if wait then SawNothing else Leaving);
    }

    /** vTaskPlaceOnEventList: the scheduler picks the position by priority. */
    method PlaceOnEventList(t: Task, receiving: bool, p: nat)
      requires Valid() && Enabled(View(), Event.Place(p)) && t == locker.task && receiving == locker.receiving
      modifies this`waitingToReceive, this`waitingToSend, this`locker
      ensures Valid() && View() == Apply(old(View()), Event.Place(p))
      ensures if receiving then waitingToReceive == old(waitingToReceive)[..p] + [t] + old(waitingToReceive)[p..]
              else waitingToSend == old(waitingToSend)[..p] + [t] + old(waitingToSend)[p..]
    {
      StepKeepsStateOK(View(), Event.Place(p));
      if receiving {
        waitingToReceive := InsertAt(waitingToReceive, p, t);
      } else {
        waitingToSend := InsertAt(waitingToSend, p, t);
      }
      locker := locker.(stage := Leaving);
    }

    /** xQueueGenericReset of a queue that is in use. */
    method Reset(ghost t: Task)
      requires Valid() && Enabled(View(), Event.Reset(t))
      modifies this
      ensures Valid() && Contents() == [] && View() == Apply(old(View()), Event.Reset(t))
      ensures waitingToReceive == old(waitingToReceive) && wokenReceivers == old(wokenReceivers) && cTxLock == cRxLock == -1
      ensures FirstWoke(old(waitingToSend), old(wokenSenders), waitingToSend, wokenSenders)
    {
      StepKeepsStateOK(View(), Event.Reset(t));
      hide StateOK;
      messagesWaiting := 0;
      writeTo := 0;
      readFrom := storage.Length - 1;
      cRxLock := UNLOCKED;
      cTxLock := UNLOCKED;
      WakeSender();
    }
  }

  /** A queue of its own that one task fills, and a task and interrupts empty:
      the messages come out in the order in which they went in. */
  method FirstInFirstOut<T(0)>(xs: seq<T>, t: Task) returns (ys: seq<T>)
    requires xs != []
    ensures ys == xs
  {
    hide StateOK, Window;
    var q := Filled(xs, t);
    assert {t} - {t} == {} && |{t}| == 1;
    ys := [];
    for i := 0 to |xs|
      invariant q.Valid() && ys == xs[..i] && q.Contents() == xs[i..] && fresh(q) && fresh(q.storage)
      invariant q.View() == State(|xs|, |xs| - i, {t}, NOBODY_WAITS, NOBODY_WAITS, Nobody)
    {
      var ok, y;
      if i % 2 == 0 {
        ok, y := q.Receive(t);
      } else {
        ok, y := q.ReceiveFromISR(1);
      }
      assert [y] + q.Contents() == xs[i..];
      assert xs[i..][0] == y && xs[i..][1..] == q.Contents();
      ys := ys + [y];
    }
  }

  ghost const NOBODY_WAITS := Side([], {}, UNLOCKED)

  method Filled<T(0)>(xs: seq<T>, t: Task) returns (q: Queue<T>)
    requires xs != []
    ensures q.Valid() && q.Contents() == xs && fresh(q) && fresh(q.storage)
    ensures q.View() == State(|xs|, |xs|, {t}, NOBODY_WAITS, NOBODY_WAITS, Nobody)
  {
    hide StateOK, Window;
    q := new Queue<T>(|xs|, {t});
    assert {t} - {t} == {};
    for i := 0 to |xs|
      invariant q.Valid() && q.Contents() == xs[..i] && fresh(q) && fresh(q.storage)
      invariant q.View() == State(|xs|, i, {t}, NOBODY_WAITS, NOBODY_WAITS, Nobody)
    {
      var ok := q.Send(xs[i], SendToBack, t);
    }
  }
}
