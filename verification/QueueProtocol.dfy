/** The lock protocol of queues, semaphores and mutexes (queue.c): a task that is
    about to block locks the queue, and interrupts that arrive meanwhile count
    what they did instead of touching the lists of waiting tasks. One step here
    is one critical section of the code, or one call made with the scheduler
    suspended, so interrupts may come between any two steps. */
module QueueProtocol {
  import opened SortedOrder

  type Task = nat

  const UNLOCKED: int := -1
  const LOCKED_UNMODIFIED: int := 0
  const INT8_MAX: int := 127

  /** The tasks that wait for one kind of event, in the order in which they are
      woken; those that were woken and have not tried again yet; and the lock
      counter that belongs to the event. */
  datatype Side = Side(wait: seq<Task>, woken: set<Task>, lock: int)

  datatype Stage = Entered | SawNothing | Leaving | TxUnlocked

  /** The task that has the queue locked, and whether it wants to receive or to send. */
  datatype Locker = Nobody | Locker(task: Task, receiving: bool, stage: Stage)

  /** `receivers` go with cTxLock, `senders` with cRxLock. */
  datatype State = State(length: nat, messages: nat, tasks: set<Task>,
                         receivers: Side, senders: Side, locker: Locker)
  {
    function Side(receiving: bool): Side {
      if receiving then receivers else senders
    }

    /** What the tasks on a side wait for: messages, or free places. */
    function Items(receiving: bool): int {
      if receiving then messages else length - messages
    }
  }

  datatype Event =
    | Send(t: Task)
    | Overwrite(t: Task)
    | SendFromISR
    | OverwriteFromISR
    | Receive(t: Task)
    | Peek(t: Task)
    | ReceiveFromISR
    | FailToReceive(t: Task)
    | FailToSend(t: Task)
    | Lock(t: Task, receiving: bool)
    | Test(timedOut: bool)
    | Place(position: nat)
    | UnlockTx
    | UnlockRx
    | TimeOut(receiving: bool, position: nat)
    | CreateTask(t: Task)
    | Reset(t: Task)

  // What happens to one side.

  /** xTaskRemoveFromEventList, if any task waits. */
  function WakeHead(s: Side): Side {
    if s.wait == [] then s else s.(wait := s.wait[1..], woken := s.woken + {s.wait[0]})
  }

  function WakeMany(s: Side, k: nat): Side
    decreases k
  {
    if k == 0 || s.wait == [] then s else WakeMany(WakeHead(s), k - 1)
  }

  /** prvIncrementQueueTxLock and prvIncrementQueueRxLock: capped at the number of tasks. */
  function Increment(lock: int, tasks: nat): int {
    if lock < tasks then lock + 1 else lock
  }

  /** What an interrupt does about the other side: wake a task, or count if locked. */
  function Signal(s: Side, tasks: nat): Side {
    if s.lock == UNLOCKED then WakeHead(s) else s.(lock := Increment(s.lock, tasks))
  }

  function LockSide(s: Side): Side {
    if s.lock == UNLOCKED then s.(lock := LOCKED_UNMODIFIED) else s
  }

  /** One half of prvUnlockQueue. */
  function UnlockSide(s: Side): Side {
    WakeMany(s, Counted(s)).(lock := UNLOCKED)
  }

  function Counted(s: Side): nat {
    if s.lock > LOCKED_UNMODIFIED then s.lock else 0
  }

  /** `t` tries again. */
  function Retry(s: Side, t: Task): Side {
    s.(woken := s.woken - {t})
  }

  // The protocol.

  /** A task that runs: it does not wait, and it was not woken from the other
      kind of wait, for then it repeats the call that made it wait. */
  ghost predicate Runs(s: State, t: Task, receiving: bool) {
    && s.locker.Nobody? && t in s.tasks && t !in s.receivers.wait && t !in s.senders.wait
    && t !in s.Side(!receiving).woken
  }

  ghost predicate Enabled(s: State, e: Event) {
    match e
    case Send(t) => Runs(s, t, false) && s.messages < s.length
    case Overwrite(t) => Runs(s, t, false) && t !in s.senders.woken && s.length == 1
    case SendFromISR => s.messages < s.length
    case OverwriteFromISR => s.length == 1
    case Receive(t) => Runs(s, t, true) && s.messages > 0
    case Peek(t) => Runs(s, t, true) && s.messages > 0
    case ReceiveFromISR => s.messages > 0
    case FailToReceive(t) => Runs(s, t, true) && s.messages == 0
    case FailToSend(t) => Runs(s, t, false) && s.messages == s.length
    case Lock(t, receiving) => Runs(s, t, receiving) && t !in s.Side(receiving).woken
    case Test(_) => s.locker.Locker? && s.locker.stage == Entered
    case Place(p) => s.locker.Locker? && s.locker.stage == SawNothing && p <= |s.Side(s.locker.receiving).wait|
    case UnlockTx => s.locker.Locker? && s.locker.stage == Leaving
    case UnlockRx => s.locker.Locker? && s.locker.stage == TxUnlocked
    case TimeOut(receiving, k) => s.locker.Nobody? && k < |s.Side(receiving).wait|
    case CreateTask(t) => s.locker.Nobody? && t !in s.tasks
    case Reset(t) => Runs(s, t, true) && t !in s.receivers.woken
  }

  function Apply(s: State, e: Event): State
    requires Enabled(s, e)
  {
    match e
    case Send(t) => s.(messages := s.messages + 1, senders := Retry(s.senders, t), receivers := WakeHead(s.receivers))
    case Overwrite(_) => s.(messages := 1, receivers := WakeHead(s.receivers))
    case SendFromISR => s.(messages := s.messages + 1, receivers := Signal(s.receivers, |s.tasks|))
    case OverwriteFromISR => s.(messages := 1, receivers := Signal(s.receivers, |s.tasks|))
    case Receive(t) => s.(messages := s.messages - 1, receivers := Retry(s.receivers, t), senders := WakeHead(s.senders))
    case Peek(t) => s.(receivers := WakeHead(Retry(s.receivers, t)))
    case ReceiveFromISR => s.(messages := s.messages - 1, senders := Signal(s.senders, |s.tasks|))
    case FailToReceive(t) => s.(receivers := Retry(s.receivers, t))
    case FailToSend(t) => s.(senders := Retry(s.senders, t))
    case Lock(t, receiving) =>
      s.(receivers := LockSide(s.receivers), senders := LockSide(s.senders), locker := Locker(t, receiving, Entered))
    case Test(timedOut) =>
      s.(locker := s.locker.(stage := if !timedOut && s.Items(s.locker.receiving) == 0 then SawNothing else Leaving))
    case Place(p) =>
      var t := s.(locker := s.locker.(stage := Leaving));
      if s.locker.receiving then t.(receivers := s.receivers.(wait := InsertAt(s.receivers.wait, p, s.locker.task)))
      else t.(senders := s.senders.(wait := InsertAt(s.senders.wait, p, s.locker.task)))
    case UnlockTx => s.(receivers := UnlockSide(s.receivers), locker := s.locker.(stage := TxUnlocked))
    case UnlockRx => s.(senders := UnlockSide(s.senders), locker := Nobody)
    case TimeOut(receiving, k) =>
      if receiving then s.(receivers := s.receivers.(wait := RemoveAt(s.receivers.wait, k)))
      else s.(senders := s.senders.(wait := RemoveAt(s.senders.wait, k)))
    case CreateTask(t) => s.(tasks := s.tasks + {t})
    case Reset(_) =>
      s.(messages := 0, receivers := s.receivers.(lock := UNLOCKED), senders := WakeHead(s.senders.(lock := UNLOCKED)))
  }

  // The invariant.

  ghost predicate SideOK(s: Side, tasks: set<Task>) {
    && Distinct(s.wait) && (forall t <- s.wait :: t in tasks && t !in s.woken)
    && s.woken <= tasks && UNLOCKED <= s.lock <= |tasks|
  }

  ghost predicate StateOK(s: State) {
    && s.messages <= s.length && SideOK(s.receivers, s.tasks) && SideOK(s.senders, s.tasks)
    && match s.locker
       case Nobody => s.receivers.lock == s.senders.lock == UNLOCKED
       case Locker(t, receiving, stage) =>
         && t in s.tasks && s.senders.lock >= LOCKED_UNMODIFIED
         && (if stage == TxUnlocked then s.receivers.lock == UNLOCKED else s.receivers.lock >= LOCKED_UNMODIFIED)
         && (stage == Entered || stage == SawNothing ==>
               t !in s.Side(receiving).wait && t !in s.Side(receiving).woken)
  }

  /** No wake-up is lost: if tasks wait, then each item is accounted for by a task
      that was woken or by the lock counter, or the counter will wake them all. */
  ghost predicate Served(items: int, s: Side) {
    s.wait == [] || items <= |s.woken| + Counted(s) || |s.wait| <= s.lock
  }

  /** A task that saw no items and is about to wait: what has come since was counted. */
  ghost predicate MayWait(items: int, s: Side, tasks: nat) {
    items <= Counted(s) || tasks <= s.lock
  }

  ghost predicate NoneLost(s: State, receiving: bool) {
    && Served(s.Items(receiving), s.Side(receiving))
    && (s.locker.Locker? && s.locker.stage == SawNothing && s.locker.receiving == receiving ==>
          MayWait(s.Items(receiving), s.Side(receiving), |s.tasks|))
  }

  // One side at a time.

  lemma DistinctWithin(s: seq<Task>, tasks: set<Task>)
    requires Distinct(s) && forall t <- s :: t in tasks
    ensures |s| <= |tasks|
  {
    if s != [] {
      var rest := s[..|s|-1];
      forall i, j | 0 <= i < |rest| && 0 <= j < |rest| && i != j
        ensures Apart(rest, i, j)
      {
        assert Apart(s, i, j);
      }
      forall i | 0 <= i < |rest|
        ensures rest[i] in tasks - {s[|s|-1]}
      {
        assert Apart(s, i, |s| - 1) && s[i] in s;
      }
      DistinctWithin(rest, tasks - {s[|s|-1]});
    }
  }

  lemma WakeHeadOK(s: Side, tasks: set<Task>)
    requires SideOK(s, tasks)
    ensures SideOK(WakeHead(s), tasks) && WakeHead(s).lock == s.lock
    ensures s.wait != [] ==> |WakeHead(s).woken| == |s.woken| + 1 && |WakeHead(s).wait| == |s.wait| - 1
    ensures forall t :: t in WakeHead(s).wait ==> t in s.wait
    ensures forall t :: t in WakeHead(s).woken ==> t in s.woken || t in s.wait
  {
    if s.wait != [] {
      assert s.wait[1..] == RemoveAt(s.wait, 0);
      RemoveKeepsDistinct(s.wait, 0);
      assert s.wait[0] in s.wait;
    }
  }

  function Members(ts: seq<Task>): set<Task> {
    set t | t in ts
  }

  /** Waking `k` tasks wakes the first `k` of the list, or all if there are fewer, and no others. */
  lemma {:induction false} WakeManyWakes(s: Side, k: nat)
    ensures var n := if k < |s.wait| then k else |s.wait|;
            && WakeMany(s, k).wait == s.wait[n..]
            && WakeMany(s, k).woken == s.woken + Members(s.wait[..n])
            && WakeMany(s, k).lock == s.lock
    decreases k
  {
    if k == 0 || s.wait == [] {
    } else {
      WakeManyWakes(WakeHead(s), k - 1);
      var n := if k < |s.wait| then k else |s.wait|;
      assert s.wait[..n] == [s.wait[0]] + s.wait[1..][..n-1];
      assert s.wait[1..][n-1..] == s.wait[n..];
    }
  }

  /** Waking `k` tasks wakes as many as wait, or `k`. */
  lemma {:induction false} WakeManyOK(s: Side, k: nat, tasks: set<Task>)
    requires SideOK(s, tasks)
    ensures SideOK(WakeMany(s, k), tasks) && WakeMany(s, k).lock == s.lock
    ensures WakeMany(s, k).wait == [] || |WakeMany(s, k).woken| == |s.woken| + k
    ensures forall t :: t in WakeMany(s, k).wait ==> t in s.wait
    ensures forall t :: t in WakeMany(s, k).woken ==> t in s.woken || t in s.wait
    ensures k >= |s.wait| ==> WakeMany(s, k).wait == []
    decreases k
  {
    if k == 0 || s.wait == [] {
    } else {
      WakeHeadOK(s, tasks);
      WakeManyOK(WakeHead(s), k - 1, tasks);
    }
  }

  lemma SignalServes(s: Side, items: int, tasks: set<Task>)
    requires SideOK(s, tasks)
    ensures SideOK(Signal(s, |tasks|), tasks)
    ensures Served(items, s) ==> Served(items, Signal(s, |tasks|)) && Served(items + 1, Signal(s, |tasks|))
    ensures s.lock >= 0 && MayWait(items, s, |tasks|) ==>
              MayWait(items, Signal(s, |tasks|), |tasks|) && MayWait(items + 1, Signal(s, |tasks|), |tasks|)
  {
    WakeHeadOK(s, tasks);
    DistinctWithin(s.wait, tasks);
  }

  lemma RetryServes(s: Side, items: int, t: Task, tasks: set<Task>)
    requires SideOK(s, tasks) && Served(items, s) && s.lock == UNLOCKED
    ensures SideOK(Retry(s, t), tasks)
    ensures Served(items - 1, Retry(s, t))
    ensures Served(items, WakeHead(Retry(s, t)))
  {
    WakeHeadOK(Retry(s, t), tasks);
    assert t in s.woken ==> |s.woken - {t}| == |s.woken| - 1;
    assert t !in s.woken ==> s.woken - {t} == s.woken;
  }

  lemma PlaceOK(s: Side, t: Task, p: nat, tasks: set<Task>)
    requires SideOK(s, tasks) && p <= |s.wait| && t in tasks
    ensures t !in s.wait && t !in s.woken ==> SideOK(s.(wait := InsertAt(s.wait, p, t)), tasks)
  {
    if t !in s.wait {
      InsertKeepsDistinct(s.wait, p, t);
      InsertMembers(s.wait, p, t);
    }
  }

  lemma PlaceServes(s: Side, items: int, t: Task, p: nat, tasks: set<Task>)
    requires SideOK(s, tasks) && s.lock >= 0 && MayWait(items, s, |tasks|)
    requires p <= |s.wait| && t in tasks && t !in s.wait && t !in s.woken
    ensures SideOK(s.(wait := InsertAt(s.wait, p, t)), tasks)
    ensures Served(items, s.(wait := InsertAt(s.wait, p, t)))
  {
    PlaceOK(s, t, p, tasks);
    DistinctWithin(InsertAt(s.wait, p, t), tasks);
  }

  lemma UnlockServes(s: Side, items: int, tasks: set<Task>)
    requires SideOK(s, tasks)
    ensures SideOK(UnlockSide(s), tasks)
    ensures Served(items, s) ==> Served(items, UnlockSide(s))
  {
    WakeManyOK(s, Counted(s), tasks);
  }

  lemma TimeOutServes(s: Side, items: int, k: nat, tasks: set<Task>)
    requires SideOK(s, tasks) && k < |s.wait|
    ensures SideOK(s.(wait := RemoveAt(s.wait, k)), tasks)
    ensures Served(items, s) ==> Served(items, s.(wait := RemoveAt(s.wait, k)))
  {
    RemoveKeepsDistinct(s.wait, k);
    RemoveMembers(s.wait, k);
  }

  // Every step of the protocol.

  lemma SmallChangesOK(s: Side, tasks: set<Task>, t: Task)
    requires SideOK(s, tasks)
    ensures SideOK(Retry(s, t), tasks) && SideOK(LockSide(s), tasks) && SideOK(s, tasks + {t})
    ensures SideOK(s.(lock := UNLOCKED), tasks)
  {
    assert t !in tasks ==> |tasks + {t}| == |tasks| + 1;
    assert t in tasks ==> tasks + {t} == tasks;
  }

  lemma StepKeepsSidesOK(s: State, e: Event, receiving: bool)
    requires StateOK(s) && Enabled(s, e)
    ensures SideOK(Apply(s, e).Side(receiving), Apply(s, e).tasks)
  {
    hide SideOK, WakeMany;
    var side := s.Side(receiving);
    WakeHeadOK(side, s.tasks);
    SignalServes(side, 0, s.tasks);
    UnlockServes(side, 0, s.tasks);
    match e {
      case Send(t) => SmallChangesOK(side, s.tasks, t);
      case Receive(t) => SmallChangesOK(side, s.tasks, t);
      case Peek(t) => SmallChangesOK(side, s.tasks, t); WakeHeadOK(Retry(side, t), s.tasks);
      case FailToReceive(t) => SmallChangesOK(side, s.tasks, t);
      case FailToSend(t) => SmallChangesOK(side, s.tasks, t);
      case Lock(t, _) => SmallChangesOK(side, s.tasks, t);
      case Place(p) => if s.locker.receiving == receiving { PlaceOK(side, s.locker.task, p, s.tasks); }
      case TimeOut(r, k) => if r == receiving { TimeOutServes(side, 0, k, s.tasks); }
      case CreateTask(t) => SmallChangesOK(side, s.tasks, t);
      case Reset(_) => SmallChangesOK(side, s.tasks, 0); WakeHeadOK(side.(lock := UNLOCKED), s.tasks);
      case _ =>
    }
  }

  ghost predicate IsInterrupt(e: Event) {
    e.SendFromISR? || e.OverwriteFromISR? || e.ReceiveFromISR?
  }

  /** What the task that has the queue locked does. */
  ghost predicate IsLocking(e: Event) {
    e.Lock? || e.Test? || e.Place? || e.UnlockTx? || e.UnlockRx?
  }

  lemma StepKeepsStateOK(s: State, e: Event)
    requires StateOK(s) && Enabled(s, e)
    ensures StateOK(Apply(s, e))
  {
    hide SideOK, WakeMany, WakeHead;
    StepKeepsSidesOK(s, e, true);
    StepKeepsSidesOK(s, e, false);
    WakeHeadOK(s.receivers, s.tasks);
    WakeHeadOK(s.senders, s.tasks);
    if e.Peek? {
      SmallChangesOK(s.receivers, s.tasks, e.t);
      WakeHeadOK(Retry(s.receivers, e.t), s.tasks);
    } else if e.UnlockTx? {
      WakeManyOK(s.receivers, Counted(s.receivers), s.tasks);
    } else if e.UnlockRx? {
      WakeManyOK(s.senders, Counted(s.senders), s.tasks);
    } else if e.Reset? {
      SmallChangesOK(s.senders, s.tasks, 0);
      WakeHeadOK(s.senders.(lock := UNLOCKED), s.tasks);
    }
  }

  /** Fewer items, or fewer waiting tasks, are still served. */
  lemma FewerServes(s: Side, items: int, fewer: int, tasks: nat)
    ensures fewer <= items && Served(items, s) ==> Served(fewer, s)
    ensures fewer <= items && MayWait(items, s, tasks) ==> MayWait(fewer, s, tasks)
  {
  }

  lemma InterruptLosesNone(s: State, e: Event, receiving: bool)
    requires StateOK(s) && Enabled(s, e) && NoneLost(s, receiving) && IsInterrupt(e)
    ensures NoneLost(Apply(s, e), receiving)
  {
    hide SideOK, WakeHead, Served, MayWait;
    var side, items := s.Side(receiving), s.Items(receiving);
    SignalServes(side, items, s.tasks);
    FewerServes(side, items, Apply(s, e).Items(receiving), |s.tasks|);
  }

  lemma LockingLosesNone(s: State, e: Event, receiving: bool)
    requires StateOK(s) && Enabled(s, e) && NoneLost(s, receiving) && IsLocking(e)
    ensures NoneLost(Apply(s, e), receiving)
  {
    hide SideOK, WakeHead, WakeMany, InsertAt;
    var side, items := s.Side(receiving), s.Items(receiving);
    if e.Place? && s.locker.receiving == receiving {
      PlaceServes(side, items, s.locker.task, e.position, s.tasks);
    } else if e.UnlockTx? || e.UnlockRx? {
      UnlockServes(side, items, s.tasks);
    }
  }

  /** A task's step in which an item is added for, or taken by, the tasks on a side. */
  lemma TaskLosesNone(s: State, e: Event, receiving: bool)
    requires StateOK(s) && Enabled(s, e) && NoneLost(s, receiving)
    requires !IsInterrupt(e) && !IsLocking(e) && (e.Reset? ==> receiving)
    ensures NoneLost(Apply(s, e), receiving)
  {
    hide SideOK, WakeHead, Retry, Served;
    var side, items := s.Side(receiving), s.Items(receiving);
    SignalServes(side, items, s.tasks);
    FewerServes(side, items, Apply(s, e).Items(receiving), |s.tasks|);
    match e {
      case Send(t) => RetryServes(side, items, t, s.tasks);
      case Receive(t) => RetryServes(side, items, t, s.tasks);
      case Peek(t) => RetryServes(side, items, t, s.tasks);
      case FailToReceive(t) => NothingIsServed(Retry(side, t));
      case FailToSend(t) => NothingIsServed(Retry(side, t));
      case TimeOut(_, k) => if e.receiving == receiving { TimeOutServes(side, items, k, s.tasks); }
      case Reset(_) => NothingIsServed(side.(lock := UNLOCKED));
      case _ =>
    }
  }

  lemma NothingIsServed(s: Side)
    ensures Served(0, s)
  {
  }

  /** No step loses a wake-up of a receiver, and none but a reset one of a sender. */
  lemma StepLosesNone(s: State, e: Event, receiving: bool)
    requires StateOK(s) && Enabled(s, e) && NoneLost(s, receiving)
    requires e.Reset? ==> receiving
    ensures NoneLost(Apply(s, e), receiving)
  {
    hide StateOK, Enabled, Apply, NoneLost;
    if IsInterrupt(e) {
      InterruptLosesNone(s, e, receiving);
    } else if IsLocking(e) {
      LockingLosesNone(s, e, receiving);
    } else {
      TaskLosesNone(s, e, receiving);
    }
  }

  /** A reset wakes one sender though it frees every place: it keeps the senders'
      invariant exactly if no sender is left waiting, or the woken ones are
      enough to fill the queue. */
  lemma ResetServesSendersIff(s: State, t: Task)
    requires StateOK(s) && Enabled(s, Reset(t))
    ensures NoneLost(Apply(s, Reset(t)), false) <==> ResetFits(s)
  {
    WakeHeadOK(s.senders, s.tasks);
  }

  ghost predicate ResetFits(s: State) {
    |s.senders.wait| <= 1 || s.length <= |s.senders.woken| + 1
  }

  // Whole runs.

  ghost predicate Legal(s: State, run: seq<Event>)
    decreases |run|
  {
    run == [] || (Enabled(s, run[0]) && Legal(Apply(s, run[0]), run[1..]))
  }

  ghost function After(s: State, run: seq<Event>): State
    requires Legal(s, run)
    decreases |run|
  {
    if run == [] then s else After(Apply(s, run[0]), run[1..])
  }

  /** Every reset in a run comes when it wakes enough senders. */
  ghost predicate ResetsFit(s: State, run: seq<Event>)
    requires Legal(s, run)
    decreases |run|
  {
    run == [] || ((run[0].Reset? ==> ResetFits(s)) && ResetsFit(Apply(s, run[0]), run[1..]))
  }

  ghost predicate Initial(s: State) {
    && s.messages <= s.length && s.locker.Nobody?
    && s.receivers == Side([], {}, UNLOCKED) && s.senders == Side([], {}, UNLOCKED)
  }

  lemma {:induction false} RunsLoseNone(s: State, run: seq<Event>, receiving: bool)
    requires StateOK(s) && NoneLost(s, receiving) && Legal(s, run)
    requires receiving || ResetsFit(s, run)
    ensures StateOK(After(s, run)) && NoneLost(After(s, run), receiving)
    decreases |run|
  {
    if run == [] {
    } else {
      StepKeepsStateOK(s, run[0]);
      if run[0].Reset? && !receiving {
        ResetServesSendersIff(s, run[0].t);
      } else {
        StepLosesNone(s, run[0], receiving);
      }
      RunsLoseNone(Apply(s, run[0]), run[1..], receiving);
    }
  }

  /** The main result: from a new queue, whatever tasks and interrupts do, once
      the queue is unlocked and every woken receiver has tried again, receivers
      wait only while the queue is empty; and likewise senders wait only while
      it is full, if every reset, should there be any, wakes enough of them. */
  lemma NoLostWakeUp(s: State, run: seq<Event>, receiving: bool)
    requires Initial(s) && Legal(s, run)
    requires receiving || ResetsFit(s, run)
    ensures var t := After(s, run);
            && (t.Side(receiving).wait != [] ==>
                  || t.Items(receiving) <= |t.Side(receiving).woken| + Counted(t.Side(receiving))
                  || |t.Side(receiving).wait| <= t.Side(receiving).lock)
            && (t.locker.Nobody? && t.Side(receiving).woken == {} && t.Side(receiving).wait != [] ==>
                  t.Items(receiving) <= 0)
  {
    RunsLoseNone(s, run, receiving);
  }

  // Nobody is woken for nothing.

  /** How many tasks of a side a step wakes. */
  ghost function NewlyWoken(s: State, e: Event, receiving: bool): nat
    requires Enabled(s, e)
  {
    |Apply(s, e).Side(receiving).woken - s.Side(receiving).woken|
  }

  /** What may be a reason to wake a task: an item that a task or an interrupt adds
      to the other side, and for receivers a peek, which leaves the message there. */
  function Reasons(e: Event, receiving: bool): nat {
    match e
    case Send(_) => if receiving then 1 else 0
    case Overwrite(_) => if receiving then 1 else 0
    case SendFromISR => if receiving then 1 else 0
    case OverwriteFromISR => if receiving then 1 else 0
    case Peek(_) => if receiving then 1 else 0
    case Receive(_) => if receiving then 0 else 1
    case ReceiveFromISR => if receiving then 0 else 1
    case Reset(_) => if receiving then 0 else 1
    case _ => 0
  }

  lemma {:induction false} MembersAreFew(ts: seq<Task>)
    ensures |Members(ts)| <= |ts|
  {
    if ts == [] {
      assert Members(ts) == {};
    } else {
      MembersAreFew(ts[1..]);
      assert Members(ts) == Members(ts[1..]) + {ts[0]};
    }
  }

  lemma {:induction false} FewerMembers(a: set<Task>, b: set<Task>)
    requires a <= b
    ensures |a| <= |b|
  {
    if a == {} {
    } else {
      var x :| x in a;
      FewerMembers(a - {x}, b - {x});
    }
  }

  lemma GainsAtMost(before: set<Task>, after: set<Task>, more: set<Task>)
    requires after <= before + more
    ensures |after - before| <= |more|
  {
    FewerMembers(after - before, more);
  }

  /** A side has woken no more tasks than given, those included that it had counted. */
  ghost predicate GainOK(before: Side, after: Side, reasons: nat) {
    |after.woken - before.woken| + Counted(after) <= reasons + Counted(before)
  }

  lemma SameGain(s: Side, t: Side)
    requires t.woken <= s.woken && t.lock == s.lock
    ensures GainOK(s, t, 0) && GainOK(s, t.(lock := UNLOCKED), 0)
  {
    GainsAtMost(s.woken, t.woken, {});
  }

  lemma WakeHeadGain(s: Side, t: Side)
    requires t.woken <= s.woken && (t.lock == s.lock || t.lock == UNLOCKED)
    ensures GainOK(s, WakeHead(t), 1)
  {
    if t.wait == [] {
      GainsAtMost(s.woken, t.woken, {});
    } else {
      GainsAtMost(s.woken, WakeHead(t).woken, {t.wait[0]});
    }
  }

  lemma SignalGain(s: Side, tasks: nat)
    ensures GainOK(s, Signal(s, tasks), 1)
  {
    if s.lock == UNLOCKED {
      WakeHeadGain(s, s);
    } else {
      GainsAtMost(s.woken, s.woken, {});
    }
  }

  /** An unlock wakes at most as many as were counted. */
  lemma UnlockGain(s: Side)
    ensures GainOK(s, UnlockSide(s), 0)
  {
    WakeManyWakes(s, Counted(s));
    var n := if Counted(s) < |s.wait| then Counted(s) else |s.wait|;
    MembersAreFew(s.wait[..n]);
    GainsAtMost(s.woken, UnlockSide(s).woken, Members(s.wait[..n]));
  }

  lemma RetryGain(s: Side, t: Task)
    ensures GainOK(s, Retry(s, t), 0) && GainOK(s, WakeHead(Retry(s, t)), 1)
  {
    SameGain(s, Retry(s, t));
    WakeHeadGain(s, Retry(s, t));
  }

  /** What leaves the woken tasks as they are: another list, an interrupt's or a locker's
      counter, a reset. */
  lemma QuietGain(s: Side, wait: seq<Task>)
    ensures GainOK(s, s, 0) && GainOK(s, s.(wait := wait), 0) && GainOK(s, s.(lock := UNLOCKED), 0) && GainOK(s, LockSide(s), 0)
    ensures GainOK(s, WakeHead(s), 1) && GainOK(s, WakeHead(s.(lock := UNLOCKED)), 1)
  {
    GainsAtMost(s.woken, s.woken, {});
    WakeHeadGain(s, s);
    WakeHeadGain(s, s.(lock := UNLOCKED));
  }

  /** Each step wakes no more tasks than it has reasons for, those counted before included. */
  lemma StepWakesNoMore(s: State, e: Event, receiving: bool)
    requires Enabled(s, e)
    ensures GainOK(s.Side(receiving), Apply(s, e).Side(receiving), Reasons(e, receiving))
  {
    hide GainOK, WakeHead, UnlockSide, Signal, Retry, LockSide, InsertAt, RemoveAt, Runs;
    var side, after := s.Side(receiving), Apply(s, e).Side(receiving);
    QuietGain(side, after.wait);
    SignalGain(side, |s.tasks|);
    UnlockGain(side);
    match e {
      case Send(t) => RetryGain(side, t);
      case Receive(t) => RetryGain(side, t);
      case Peek(t) => RetryGain(side, t);
      case FailToReceive(t) => RetryGain(side, t);
      case FailToSend(t) => RetryGain(side, t);
      case _ =>
    }
  }

  ghost function WokenInRun(s: State, run: seq<Event>, receiving: bool): nat
    requires Legal(s, run)
    decreases |run|
  {
    if run == [] then 0 else NewlyWoken(s, run[0], receiving) + WokenInRun(Apply(s, run[0]), run[1..], receiving)
  }

  function ReasonsInRun(run: seq<Event>, receiving: bool): nat
    decreases |run|
  {
    if run == [] then 0 else Reasons(run[0], receiving) + ReasonsInRun(run[1..], receiving)
  }

  /** In every run from a new queue no more tasks are woken than there was reason for. */
  lemma NoSpuriousWakeUp(s: State, run: seq<Event>, receiving: bool)
    requires Initial(s) && Legal(s, run)
    ensures WokenInRun(s, run, receiving) <= ReasonsInRun(run, receiving)
  {
    RunWakesNoMore(s, run, receiving);
  }

  lemma {:induction false} RunWakesNoMore(s: State, run: seq<Event>, receiving: bool)
    requires Legal(s, run)
    ensures WokenInRun(s, run, receiving) + Counted(After(s, run).Side(receiving))
         <= ReasonsInRun(run, receiving) + Counted(s.Side(receiving))
    decreases |run|
  {
    hide Apply, Enabled, Counted, Reasons;
    if run == [] {
    } else {
      StepWakesNoMore(s, run[0], receiving);
      RunWakesNoMore(Apply(s, run[0]), run[1..], receiving);
    }
  }

  lemma {:induction false} RunsJoin(s: State, run: seq<Event>, more: seq<Event>)
    requires Legal(s, run) && Legal(After(s, run), more)
    ensures Legal(s, run + more) && After(s, run + more) == After(After(s, run), more)
    decreases |run|
  {
    hide Apply, Enabled;
    if run == [] {
      assert run + more == more;
    } else {
      assert (run + more)[0] == run[0];
      RunsJoin(Apply(s, run[0]), run[1..], more);
      assert (run + more)[1..] == run[1..] + more;
    }
  }

  lemma RunOfOne(s: State, a: Event)
    requires Enabled(s, a)
    ensures Legal(s, [a]) && After(s, [a]) == Apply(s, a)
  {
    assert [a][1..] == [];
    assert After(Apply(s, a), []) == Apply(s, a);
  }

  lemma RunOfTwo(s: State, a: Event, b: Event)
    requires Enabled(s, a) && Enabled(Apply(s, a), b)
    ensures Legal(s, [a, b]) && After(s, [a, b]) == Apply(Apply(s, a), b)
  {
    hide Apply, Enabled;
    RunOfOne(Apply(s, a), b);
    assert [a, b][1..] == [b];
  }

  lemma RunOfThree(s: State, a: Event, b: Event, c: Event)
    requires Enabled(s, a) && Enabled(Apply(s, a), b) && Enabled(Apply(Apply(s, a), b), c)
    ensures Legal(s, [a, b, c]) && After(s, [a, b, c]) == Apply(Apply(Apply(s, a), b), c)
  {
    hide Apply, Enabled;
    RunOfTwo(Apply(s, a), b, c);
    assert [a, b, c][1..] == [b, c];
  }

  /** The critical sections of a call that blocks without being disturbed. */
  function BlockingCall(t: Task, receiving: bool, p: nat): seq<Event> {
    [Lock(t, receiving), Test(false), Place(p)] + [UnlockTx, UnlockRx]
  }

  /** A state with one of its sides replaced. */
  function With(s: State, receiving: bool, side: Side): State {
    if receiving then s.(receivers := side) else s.(senders := side)
  }

  /** The state in which a task has just gone onto its list. */
  function Placed(s: State, t: Task, receiving: bool, p: nat): State
    requires p <= |s.Side(receiving).wait|
  {
    With(s, receiving, s.Side(receiving).(wait := InsertAt(s.Side(receiving).wait, p, t)))
    .(locker := Locker(t, receiving, Leaving))
  }

  lemma LockAndPlace(s: State, t: Task, receiving: bool, p: nat)
    requires s.receivers.lock == s.senders.lock == UNLOCKED
    requires Enabled(s, Lock(t, receiving)) && s.Items(receiving) == 0 && p <= |s.Side(receiving).wait|
    ensures var locked := s.(receivers := s.receivers.(lock := 0), senders := s.senders.(lock := 0));
            var s1 := Apply(s, Lock(t, receiving));
            && Enabled(s1, Test(false)) && Enabled(Apply(s1, Test(false)), Place(p))
            && Apply(Apply(s1, Test(false)), Place(p)) == Placed(locked, t, receiving, p)
  {
    hide InsertAt;
  }

  lemma UnlockUncounted(s: State)
    requires s.locker.Locker? && s.locker.stage == Leaving && s.receivers.lock == s.senders.lock == 0
    ensures Enabled(s, UnlockTx) && Enabled(Apply(s, UnlockTx), UnlockRx)
    ensures Apply(Apply(s, UnlockTx), UnlockRx)
         == s.(receivers := s.receivers.(lock := UNLOCKED), senders := s.senders.(lock := UNLOCKED), locker := Nobody)
  {
  }

  /** It puts the task on its list, wakes nobody and leaves the queue unlocked. */
  lemma BlockingCallBlocks(s: State, t: Task, receiving: bool, p: nat)
    requires s.receivers.lock == s.senders.lock == UNLOCKED
    requires Enabled(s, Lock(t, receiving)) && s.Items(receiving) == 0 && p <= |s.Side(receiving).wait|
    ensures Legal(s, BlockingCall(t, receiving, p))
    ensures After(s, BlockingCall(t, receiving, p))
         == With(s, receiving, s.Side(receiving).(wait := InsertAt(s.Side(receiving).wait, p, t)))
  {
    var locked := s.(receivers := s.receivers.(lock := 0), senders := s.senders.(lock := 0));
    var s3 := Placed(locked, t, receiving, p);
    LockAndPlace(s, t, receiving, p);
    UnlockUncounted(s3);
    assert s.locker == Nobody;
    hide Legal, After, InsertAt, Apply, Enabled;
    RunOfThree(s, Lock(t, receiving), Test(false), Place(p));
    RunOfTwo(s3, UnlockTx, UnlockRx);
    RunsJoin(s, [Lock(t, receiving), Test(false), Place(p)], [UnlockTx, UnlockRx]);
  }

  // What becomes of senders after a reset.

  ghost predicate InSide(s: Side, t: Task) {
    t in s.wait || t in s.woken
  }

  /** No task is on both sides, and one that has just locked the queue is on neither. */
  ghost predicate SidesApart(s: State) {
    && (forall t :: InSide(s.receivers, t) ==> !InSide(s.senders, t))
    && (s.locker.Locker? && (s.locker.stage == Entered || s.locker.stage == SawNothing) ==>
          !InSide(s.receivers, s.locker.task) && !InSide(s.senders, s.locker.task))
  }

  /** Only going onto a list makes a task a member of a side. */
  lemma NoNewMembers(s: State, e: Event, receiving: bool)
    requires StateOK(s) && Enabled(s, e) && !e.Place?
    ensures forall t :: InSide(Apply(s, e).Side(receiving), t) ==> InSide(s.Side(receiving), t)
  {
    hide WakeMany, Distinct;
    var side := s.Side(receiving);
    WakeHeadOK(side, s.tasks);
    WakeManyOK(side, Counted(side), s.tasks);
    match e {
      case Send(t) => SmallChangesOK(side, s.tasks, t); WakeHeadOK(Retry(side, t), s.tasks);
      case Receive(t) => SmallChangesOK(side, s.tasks, t); WakeHeadOK(Retry(side, t), s.tasks);
      case Peek(t) => SmallChangesOK(side, s.tasks, t); WakeHeadOK(Retry(side, t), s.tasks);
      case TimeOut(r, k) => if r == receiving { RemoveMembers(side.wait, k); }
      case Reset(_) => SmallChangesOK(side, s.tasks, 0); WakeHeadOK(side.(lock := UNLOCKED), s.tasks);
      case _ =>
    }
  }

  lemma StepKeepsSidesApart(s: State, e: Event)
    requires StateOK(s) && SidesApart(s) && Enabled(s, e)
    ensures SidesApart(Apply(s, e))
  {
    if e.Place? {
      hide SideOK;
      InsertMembers(s.Side(s.locker.receiving).wait, e.position, s.locker.task);
    } else {
      NoNewMembers(s, e, true);
      NoNewMembers(s, e, false);
      hide SideOK, WakeHead, WakeMany, InSide;
      var after := Apply(s, e);
      assert after.Side(true) == after.receivers && after.Side(false) == after.senders;
      assert s.Side(true) == s.receivers && s.Side(false) == s.senders;
      assert e.Lock? ==> !InSide(s.receivers, e.t) && !InSide(s.senders, e.t) by { RunningIsApart(s, e); }
    }
  }

  lemma RunningIsApart(s: State, e: Event)
    requires Enabled(s, e)
    ensures e.Lock? ==> !InSide(s.receivers, e.t) && !InSide(s.senders, e.t)
  {
  }

  lemma {:induction false} RunKeepsSidesApart(s: State, run: seq<Event>)
    requires StateOK(s) && SidesApart(s) && Legal(s, run)
    ensures StateOK(After(s, run)) && SidesApart(After(s, run))
    decreases |run|
  {
    if run == [] {
    } else {
      StepKeepsStateOK(s, run[0]);
      StepKeepsSidesApart(s, run[0]);
      RunKeepsSidesApart(Apply(s, run[0]), run[1..]);
    }
  }

  /** A sender waits although there is room, and nobody is left to wake it. */
  ghost predicate Stranded(s: State) {
    s.locker.Nobody? && s.senders.woken == {} && s.senders.wait != [] && s.messages < s.length
  }

  ghost predicate NoReset(run: seq<Event>) {
    forall e <- run :: !e.Reset?
  }

  /** A run without a reset that ends so. */
  ghost predicate Strands(s: State, run: seq<Event>) {
    Legal(s, run) && NoReset(run) && Stranded(After(s, run))
  }

  /** Every sender that was woken sends, and there is still room. */
  lemma {:induction false} WokenSendersSend(s: State) returns (run: seq<Event>)
    requires StateOK(s) && SidesApart(s) && s.locker.Nobody?
    requires s.messages + |s.senders.woken| < s.length && s.senders.wait != []
    ensures Strands(s, run)
    decreases |s.senders.woken|
  {
    if s.senders.woken == {} {
      run := [];
    } else {
      var t :| t in s.senders.woken;
      assert InSide(s.senders, t);
      var next := Apply(s, Send(t));
      StepKeepsStateOK(s, Send(t));
      StepKeepsSidesApart(s, Send(t));
      assert |s.senders.woken - {t}| == |s.senders.woken| - 1;
      var rest := WokenSendersSend(next);
      run := [Send(t)] + rest;
      assert run[1..] == rest;
    }
  }

  lemma {:induction false} RunsWithoutResetFit(s: State, run: seq<Event>)
    requires Legal(s, run) && NoReset(run)
    ensures ResetsFit(s, run)
    decreases |run|
  {
    if run == [] {
    } else {
      assert run[0] in run && forall e <- run[1..] :: e in run;
      RunsWithoutResetFit(Apply(s, run[0]), run[1..]);
    }
  }

  /** When a task resets a queue, there is a way on that ends with a sender stranded
      exactly if more than one sender waits and the woken ones leave room. */
  lemma ResetStrandsASenderIff(s0: State, before: seq<Event>, t: Task)
    requires Initial(s0) && Legal(s0, before) && Enabled(After(s0, before), Reset(t))
    ensures var s := After(s0, before);
            !ResetFits(s) <==> exists run :: Strands(Apply(s, Reset(t)), run)
  {
    RunKeepsSidesApart(s0, before);
    var s := After(s0, before);
    var r := Apply(s, Reset(t));
    StepKeepsStateOK(s, Reset(t));
    StepKeepsSidesApart(s, Reset(t));
    WakeHeadOK(s.senders.(lock := UNLOCKED), s.tasks) by { SmallChangesOK(s.senders, s.tasks, t); }
    if !ResetFits(s) {
      var run := WokenSendersSend(r);
      assert Strands(r, run);
    } else {
      ResetServesSendersIff(s, t);
      forall run
        ensures !Strands(r, run)
      {
        if Strands(r, run) {
          RunsWithoutResetFit(r, run);
          RunsLoseNone(r, run, false);
        }
      }
    }
  }

  /** A full queue of length two with no locks held, and three tasks. */
  function FullQueue(senders: seq<Task>): State {
    State(2, 2, {1, 2, 3}, Side([], {}, UNLOCKED), Side(senders, {}, UNLOCKED), Nobody)
  }

  lemma TwoSendersWait() returns (run: seq<Event>)
    ensures Legal(FullQueue([]), run) && After(FullQueue([]), run) == FullQueue([1, 2])
  {
    hide Legal, After, BlockingCall;
    var s0, s1 := FullQueue([]), FullQueue([1]);
    assert InsertAt(s0.senders.wait, 0, 1) == s1.senders.wait;
    assert InsertAt(s1.senders.wait, 1, 2) == FullQueue([1, 2]).senders.wait;
    BlockingCallBlocks(s0, 1, false, 0);
    BlockingCallBlocks(s1, 2, false, 1);
    RunsJoin(FullQueue([]), BlockingCall(1, false, 0), BlockingCall(2, false, 1));
    run := BlockingCall(1, false, 0) + BlockingCall(2, false, 1);
  }

  /** Such a state is reached: two of three tasks wait to send to a full queue of
      length two, the third resets it, which wakes one of the two, that one
      sends, and the other goes on waiting although there is room. */
  lemma ResetLosesASender()
    ensures exists s: State, run: seq<Event> :: Initial(s) && Legal(s, run) && Stranded(After(s, run))
  {
    hide Legal, After;
    var run := TwoSendersWait();
    var s := FullQueue([1, 2]);
    assert Apply(s, Reset(3)) == s.(messages := 0, senders := Side([2], {1}, UNLOCKED));
    RunOfTwo(s, Reset(3), Send(1));
    RunsJoin(FullQueue([]), run, [Reset(3), Send(1)]);
    assert Initial(FullQueue([])) && Legal(FullQueue([]), run + [Reset(3), Send(1)]);
  }

  // The assertion in the two increment macros.

  /** An interrupt that now counted up would violate the assertion. */
  ghost predicate AssertionFails(s: State, receiving: bool) {
    s.Side(receiving).lock < |s.tasks| && s.Side(receiving).lock == INT8_MAX
  }

  /** With at most 127 tasks that never happens, and the counters fit an int8_t ... */
  lemma {:induction false} CountersFit(s: State, run: seq<Event>, receiving: bool)
    requires StateOK(s) && Legal(s, run) && |After(s, run).tasks| <= INT8_MAX
    ensures UNLOCKED <= After(s, run).Side(receiving).lock <= |After(s, run).tasks| <= INT8_MAX
    ensures !AssertionFails(After(s, run), receiving)
    decreases |run|
  {
    if run == [] {
    } else {
      StepKeepsStateOK(s, run[0]);
      CountersFit(Apply(s, run[0]), run[1..], receiving);
    }
  }

  /** ... and with more it can: interrupts may overwrite the one message of a
      queue that a task keeps locked as often as they like. */
  lemma AssertionCanFail(tasks: set<Task>, t: Task)
    requires |tasks| > INT8_MAX && t in tasks
    ensures exists s: State, run: seq<Event> ::
              Initial(s) && s.tasks == tasks && Legal(s, run) && AssertionFails(After(s, run), true)
  {
    var none := Side([], {}, UNLOCKED);
    var s0 := State(1, 0, tasks, none, none, Nobody);
    var s1 := Apply(s0, Lock(t, true));
    var lock, many := [Lock(t, true)], seq(127, _ => OverwriteFromISR);
    RunOfOne(s0, Lock(t, true));
    ManyOverwrites(s1, many);
    RunsJoin(s0, lock, many);
    assert Initial(s0) && Legal(s0, lock + many);
  }

  lemma {:induction false} ManyOverwrites(s: State, run: seq<Event>)
    requires s.length == 1 && 0 <= s.receivers.lock && s.receivers.lock + |run| <= |s.tasks|
    requires forall e <- run :: e == OverwriteFromISR
    ensures Legal(s, run) && After(s, run).receivers.lock == s.receivers.lock + |run|
    ensures After(s, run).tasks == s.tasks
    decreases |run|
  {
    if run == [] {
    } else {
      assert run[0] in run && forall e <- run[1..] :: e in run;
      ManyOverwrites(Apply(s, OverwriteFromISR), run[1..]);
    }
  }
}
