/** Recursive mutexes (queue.c): a queue of length one and item size zero that
    remembers its holder and how often the holder has taken it. */
module RecursiveMutex {
  type Task = nat

  datatype Holder = Nobody | Held(task: Task)

  /** A take or give that succeeded. */
  datatype Entry = Taken(task: Task) | Given(task: Task)

  /** How often a task has taken a mutex and not yet given it back. */
  ghost function Outstanding(log: seq<Entry>, t: Task): int {
    if log == [] then 0
    else
      var last := log[|log|-1];
      Outstanding(log[..|log|-1], t)
      + (if last == Taken(t) then 1 else if last == Given(t) then -1 else 0)
  }

  lemma OutstandingAfter(log: seq<Entry>, e: Entry, t: Task)
    ensures Outstanding(log + [e], t)
         == Outstanding(log, t) + (if e == Taken(t) then 1 else if e == Given(t) then -1 else 0)
  {
    assert (log + [e])[..|log|] == log;
  }

  class RecursiveMutex {
    var count: nat
    var holder: Holder
    var recursiveCallCount: nat
    ghost var log: seq<Entry>

    /** The mutex is free or has one holder, and the call count is what the
        holder has taken and not given back; nobody else has anything outstanding. */
    ghost predicate Valid()
      reads this
    {
      && count == (if holder.Nobody? then 1 else 0)
      && (holder.Nobody? <==> recursiveCallCount == 0)
      && forall t :: Outstanding(log, t) == if holder == Held(t) then recursiveCallCount else 0
    }

    /** prvInitialiseMutex, which gives the mutex once. */
    constructor ()
      ensures Valid() && log == []
    {
      count, holder, recursiveCallCount, log := 1, Nobody, 0, [];
    }

    /** No other task has anything outstanding exactly if none of them is the holder. */
    lemma NobodyElseHolds(current: Task)
      requires Valid()
      ensures (forall t :: t != current ==> Outstanding(log, t) == 0) <==> holder.Nobody? || holder == Held(current)
    {
      if holder.Nobody? || holder == Held(current) {
        forall t | t != current
          ensures Outstanding(log, t) == 0
        {
          assert holder != Held(t);
        }
      } else {
        var other := holder.task;
        assert holder == Held(other) && other != current;
        assert Outstanding(log, other) != 0;
        assert exists t :: t != current && Outstanding(log, t) != 0;
      }
    }

    /** The critical section of xQueueSemaphoreTake. */
    method SemaphoreTake(current: Task) returns (ok: bool)
      modifies this`count, this`holder
      ensures ok <==> old(count) > 0
      ensures ok ==> count == old(count) - 1 && holder == Held(current)
      ensures !ok ==> count == old(count) && holder == old(holder)
    {
      ok := count > 0;
      if ok {
        count := count - 1;
        holder := Held(current);
      }
    }

    /** xQueueTakeMutexRecursive with no block time: it succeeds exactly if no
        other task has anything outstanding. */
    method TakeRecursive(current: Task) returns (ok: bool)
      requires Valid()
      modifies this
      ensures Valid()
      ensures ok <==> forall t :: t != current ==> Outstanding(old(log), t) == 0
      ensures log == if ok then old(log) + [Taken(current)] else old(log)
    {
      NobodyElseHolds(current);
      if holder == Held(current) {
        recursiveCallCount := recursiveCallCount + 1;
        ok := true;
      } else {
        ok := SemaphoreTake(current);
        if ok {
          recursiveCallCount := recursiveCallCount + 1;
        }
      }
      if ok {
        forall t
          ensures Outstanding(log + [Taken(current)], t) == if holder == Held(t) then recursiveCallCount else 0
        {
          OutstandingAfter(log, Taken(current), t);
        }
        log := log + [Taken(current)];
      }
    }

    /** xQueueGiveMutexRecursive: it succeeds exactly if the caller has something
        outstanding, and frees the mutex with the last of it. */
    method GiveRecursive(current: Task) returns (ok: bool)
      requires Valid()
      modifies this
      ensures Valid()
      ensures ok <==> Outstanding(old(log), current) > 0
      ensures log == if ok then old(log) + [Given(current)] else old(log)
      ensures ok ==> (holder.Nobody? <==> Outstanding(old(log), current) == 1)
    {
      ok := holder == Held(current);
      if ok {
        recursiveCallCount := recursiveCallCount - 1;
        if recursiveCallCount == 0 {
          holder := Nobody;
          count := count + 1;
        }
        forall t
          ensures Outstanding(log + [Given(current)], t) == if holder == Held(t) then recursiveCallCount else 0
        {
          OutstandingAfter(log, Given(current), t);
        }
        log := log + [Given(current)];
      }
    }
  }
}
