/** How the two sides of a stream buffer wait for each other (stream_buffer.c):
    critical sections, the two task handles, and task notifications, of which any
    task may also get some from elsewhere. */
module StreamBlocking {

  /** Where the writer is: about to look for space, entered as waiting, back from
      the wait, about to write, behind the move of the head, and sure that the
      trigger level is reached. */
  datatype Writer =
    | WriterIdle
    | Trying(required: nat)
    | Listed(required: nat)
    | Back(required: nat)
    | Writing
    | Published
    | Notifying

  /** The reader: entered as waiting, back from the wait, about to read, behind the move of the tail. */
  datatype Reader =
    | ReaderIdle
    | ReaderListed
    | ReaderBack
    | Reading
    | Taken

  /** `header` is what a message's length takes, or 0 for a plain stream; `sender`
      and `receiver` tell whether a task handle is entered, and the other two
      whether that task has a notification. */
  datatype State = State(
    capacity: nat, trigger: nat, header: nat, unread: nat, writer: Writer, reader: Reader,
    sender: bool, receiver: bool, sendNotified: bool, receiveNotified: bool)

  datatype Event =
    | BeginSend(required: nat, wait: bool)
    | LookForSpace
    | SendWaitEnds(timedOut: bool)
    | LeaveSend(again: bool)
    | Publish(count: nat)
    | WriteNothing
    | CheckTrigger
    | NotifyReader
    | BeginReceive(wait: bool)
    | ReceiveWaitEnds(timedOut: bool)
    | LeaveReceive
    | Take(count: nat)
    | TakeNothing
    | NotifyWriter
    | OtherNotification(receiving: bool)

  /** A message is more than its header, so whole messages are nothing or more than a header. */
  predicate WholeBytes(header: nat, n: nat) {
    n == 0 || n > header
  }

  ghost predicate Enabled(s: State, e: Event) {
    match e
    case BeginSend(required, wait) => s.writer.WriterIdle? && (wait ==> required <= s.capacity)
    case LookForSpace => s.writer.Trying?
    case SendWaitEnds(timedOut) => s.writer.Listed? && (s.sendNotified || timedOut)
    case LeaveSend(_) => s.writer.Back?
    case Publish(count) => s.writer.Writing? && s.header < count && s.unread + count <= s.capacity
    case WriteNothing => s.writer.Writing?
    case CheckTrigger => s.writer.Published?
    case NotifyReader => s.writer.Notifying?
    case BeginReceive(_) => s.reader.ReaderIdle?
    case ReceiveWaitEnds(timedOut) => s.reader.ReaderListed? && (s.receiveNotified || timedOut)
    case LeaveReceive => s.reader.ReaderBack?
    case Take(count) => s.reader.Reading? && 0 < count <= s.unread && WholeBytes(s.header, s.unread - count)
    case TakeNothing => s.reader.Reading?
    case NotifyWriter => s.reader.Taken?
    case OtherNotification(_) => true
  }

  function Apply(s: State, e: Event): State
    requires Enabled(s, e)
  {
    match e
    case BeginSend(required, wait) => s.(writer := if wait then Trying(required) else Writing)
    case LookForSpace =>
      if s.capacity - s.unread < s.writer.required then
        s.(writer := Listed(s.writer.required), sender := true, sendNotified := false)
      else s.(writer := Writing)
    case SendWaitEnds(_) => s.(writer := Back(s.writer.required), sendNotified := false)
    case LeaveSend(again) => s.(writer := if again then Trying(s.writer.required) else Writing, sender := false)
    case Publish(count) => s.(writer := Published, unread := s.unread + count)
    case WriteNothing => s.(writer := WriterIdle)
    case CheckTrigger => s.(writer := if s.unread >= s.trigger then Notifying else WriterIdle)
    case NotifyReader =>
      s.(writer := WriterIdle, receiver := false, receiveNotified := s.receiveNotified || s.receiver)
    case BeginReceive(wait) =>
      if wait && s.unread <= s.header then s.(reader := ReaderListed, receiver := true, receiveNotified := false)
      else s.(reader := Reading)
    case ReceiveWaitEnds(_) => s.(reader := ReaderBack, receiveNotified := false)
    case LeaveReceive => s.(reader := Reading, receiver := false)
    case Take(count) => s.(reader := Taken, unread := s.unread - count)
    case TakeNothing => s.(reader := ReaderIdle)
    case NotifyWriter => s.(reader := ReaderIdle, sender := false, sendNotified := s.sendNotified || s.sender)
    case OtherNotification(receiving) => if receiving then s.(receiveNotified := true) else s.(sendNotified := true)
  }

  /** A side sleeps: it waits, and nobody has notified it. */
  predicate WriterBlocked(s: State) { s.writer.Listed? && !s.sendNotified }

  predicate ReaderBlocked(s: State) { s.reader.ReaderListed? && !s.receiveNotified }

  ghost predicate Inv(s: State) {
    BytesOK(s) && SenderOK(s) && ReceiverOK(s)
  }

  ghost predicate BytesOK(s: State) {
    && 0 < s.trigger <= s.capacity + 1 && s.unread <= s.capacity && WholeBytes(s.header, s.unread)
    && (s.writer.Notifying? ==> s.trigger <= s.capacity)
  }

  /** The writer's handle is entered only while it waits, a writer that sleeps is
      entered, and if there is the room it needs, the reader is about to notify it. */
  ghost predicate SenderOK(s: State) {
    && (s.sender ==> s.writer.Listed? || s.writer.Back?)
    && (s.writer.Trying? || s.writer.Listed? || s.writer.Back? ==> s.writer.required <= s.capacity)
    && (WriterBlocked(s) ==> s.sender)
    && (s.writer.Listed? && s.sender && s.capacity - s.unread >= s.writer.required ==> s.reader.Taken?)
  }

  ghost predicate ReceiverOK(s: State) {
    && (s.receiver ==> s.reader.ReaderListed? || s.reader.ReaderBack?)
    && (ReaderBlocked(s) ==> s.receiver)
    && (s.reader.ReaderListed? && s.receiver && s.unread >= s.trigger ==> s.writer.Published? || s.writer.Notifying?)
  }

  lemma StepKeepsBytesOK(s: State, e: Event)
    requires BytesOK(s) && Enabled(s, e)
    ensures BytesOK(Apply(s, e))
    ensures Apply(s, e).capacity == s.capacity && Apply(s, e).trigger == s.trigger && Apply(s, e).header == s.header
  {
  }

  lemma StepKeepsSenderOK(s: State, e: Event)
    requires SenderOK(s) && Enabled(s, e)
    ensures SenderOK(Apply(s, e))
  {
  }

  lemma StepKeepsReceiverOK(s: State, e: Event)
    requires ReceiverOK(s) && BytesOK(s) && Enabled(s, e)
    ensures ReceiverOK(Apply(s, e))
  {
  }

  lemma StepKeepsInv(s: State, e: Event)
    requires Inv(s) && Enabled(s, e)
    ensures Inv(Apply(s, e))
    ensures Apply(s, e).capacity == s.capacity && Apply(s, e).trigger == s.trigger && Apply(s, e).header == s.header
  {
    hide BytesOK, SenderOK, ReceiverOK, Enabled, Apply;
    StepKeepsBytesOK(s, e);
    StepKeepsSenderOK(s, e);
    StepKeepsReceiverOK(s, e);
  }

  // Whole runs.

  ghost predicate Legal(s: State, run: seq<Event>)
    decreases |run|
  {
    run == [] || (Enabled(s, run[0]) && Legal(Apply(s, run[0]), run[1..]))
  }

  ghost function After(s: State, run: seq<Event>): State
    requires Legal(s, run)
    decreases |run|
  {
    if run == [] then s else After(Apply(s, run[0]), run[1..])
  }

  /** A new buffer: nobody waits, and the trigger level is one that creation accepts,
      which in static memory may be the length, one more than the capacity. */
  ghost predicate Initial(s: State) {
    && 0 < s.trigger <= s.capacity + 1 && s.unread == 0 && s.writer.WriterIdle? && s.reader.ReaderIdle?
    && !s.sender && !s.receiver
  }

  lemma {:induction false} RunKeepsInv(s: State, run: seq<Event>)
    requires Inv(s) && Legal(s, run)
    ensures var t := After(s, run); Inv(t) && t.capacity == s.capacity && t.trigger == s.trigger && t.header == s.header
    decreases |run|
  {
    hide Inv, Enabled, Apply;
    if run == [] {
    } else {
      StepKeepsInv(s, run[0]);
      RunKeepsInv(Apply(s, run[0]), run[1..]);
    }
  }

  /** No wake-up is lost, in any interleaving and whatever other notifications come:
      a reader sleeps only below the trigger level, but for a writer on its way to
      notify it, and a writer only without the room it needs, but for a reader on
      its way. Both assertions that a handle is not entered yet hold. */
  lemma NoLostWakeUp(s: State, run: seq<Event>)
    requires Initial(s) && Legal(s, run)
    ensures var t := After(s, run);
            && (ReaderBlocked(t) ==> t.unread < t.trigger || t.writer.Published? || t.writer.Notifying?)
            && (WriterBlocked(t) ==> t.capacity - t.unread < t.writer.required || t.reader.Taken?)
            && (t.reader.ReaderIdle? ==> !t.receiver) && (t.writer.Trying? ==> !t.sender)
  {
    RunKeepsInv(s, run);
  }

  /** Yet both sides can sleep at once: bytes below the trigger level, which the reader
      is not told of, may leave too little room for the writer. */
  ghost predicate BothBlocked(s: State, required: nat) {
    ReaderBlocked(s) && WriterBlocked(s) && s.writer.required == required
  }

  /** That happens exactly to writers who want to send so much that, with one byte
      less than the trigger level in the buffer, it does not fit. */
  lemma BothBlockedIff(s: State, required: nat)
    requires Initial(s) && s.header == 0 && required <= s.capacity
    ensures (exists run: seq<Event> :: Legal(s, run) && BothBlocked(After(s, run), required))
       <==> s.trigger + required > s.capacity + 1
  {
    if s.trigger + required > s.capacity + 1 {
      var run := RunIntoSleep(s, required);
    }
    forall run: seq<Event> | Legal(s, run) && BothBlocked(After(s, run), required)
      ensures s.trigger + required > s.capacity + 1
    {
      RunKeepsInv(s, run);
    }
  }

  /** Then only a timeout or a notification from elsewhere can go on. */
  lemma NothingElseHappens(s: State, required: nat, e: Event)
    requires BothBlocked(s, required) && Enabled(s, e)
    ensures e == SendWaitEnds(true) || e == ReceiveWaitEnds(true) || e.OtherNotification?
  {
  }

  /** For messages, whose trigger level is one byte, it does not happen at all. */
  lemma OneByteTriggerIsSafe(s: State, run: seq<Event>, required: nat)
    requires Initial(s) && s.trigger == 1 && Legal(s, run)
    ensures !BothBlocked(After(s, run), required)
  {
    RunKeepsInv(s, run);
  }

  /** A trigger level of the whole length is out of reach: the writer can come to
      notify a reader that sleeps exactly if the level is no more than the capacity. */
  lemma ReaderCanBeWokenIff(s: State)
    requires Initial(s) && s.header == 0
    ensures (exists run: seq<Event> :: Legal(s, run) && AboutToWake(After(s, run))) <==> s.trigger <= s.capacity
  {
    if s.trigger <= s.capacity {
      var run := RunIntoWake(s);
    }
    forall run: seq<Event> | Legal(s, run) && AboutToWake(After(s, run))
      ensures s.trigger <= s.capacity
    {
      RunKeepsInv(s, run);
    }
  }

  ghost predicate AboutToWake(s: State) {
    ReaderBlocked(s) && s.receiver && s.writer.Notifying?
  }

  lemma RunOfOne(s: State, e: Event, more: seq<Event>)
    requires Enabled(s, e) && Legal(Apply(s, e), more)
    ensures Legal(s, [e] + more) && After(s, [e] + more) == After(Apply(s, e), more)
  {
    assert ([e] + more)[1..] == more;
  }

  lemma RunIntoWake(s: State) returns (run: seq<Event>)
    requires Initial(s) && s.header == 0 && s.trigger <= s.capacity
    ensures Legal(s, run) && AboutToWake(After(s, run))
  {
    var s1 := Apply(s, BeginReceive(true));
    var s2 := Apply(s1, BeginSend(s.trigger, false));
    var s3 := Apply(s2, Publish(s.trigger));
    var s4 := Apply(s3, CheckTrigger);
    assert AboutToWake(s4);
    hide Apply, Enabled;
    assert Legal(s4, []) && After(s4, []) == s4;
    run := [];
    RunOfOne(s3, CheckTrigger, run);
    run := [CheckTrigger] + run;
    RunOfOne(s2, Publish(s.trigger), run);
    run := [Publish(s.trigger)] + run;
    RunOfOne(s1, BeginSend(s.trigger, false), run);
    run := [BeginSend(s.trigger, false)] + run;
    RunOfOne(s, BeginReceive(true), run);
    run := [BeginReceive(true)] + run;
  }

  lemma RunIntoSleep(s: State, required: nat) returns (run: seq<Event>)
    requires Initial(s) && s.header == 0 && required <= s.capacity && s.trigger + required > s.capacity + 1
    ensures Legal(s, run) && BothBlocked(After(s, run), required)
  {
    var count := s.trigger - 1;
    var s1 := Apply(s, BeginReceive(true));
    var s2 := Apply(s1, BeginSend(count, false));
    var s3 := Apply(s2, Publish(count));
    var s4 := Apply(s3, CheckTrigger);
    var s5 := Apply(s4, BeginSend(required, true));
    var s6 := Apply(s5, LookForSpace);
    assert BothBlocked(s6, required);
    hide Apply, Enabled;
    assert Legal(s6, []) && After(s6, []) == s6;
    run := [];
    RunOfOne(s5, LookForSpace, run);
    run := [LookForSpace] + run;
    RunOfOne(s4, BeginSend(required, true), run);
    run := [BeginSend(required, true)] + run;
    RunOfOne(s3, CheckTrigger, run);
    run := [CheckTrigger] + run;
    RunOfOne(s2, Publish(count), run);
    run := [Publish(count)] + run;
    RunOfOne(s1, BeginSend(count, false), run);
    run := [BeginSend(count, false)] + run;
    RunOfOne(s, BeginReceive(true), run);
    run := [BeginReceive(true)] + run;
  }
}
