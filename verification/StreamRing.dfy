/** One writer and one reader on the ring of a stream buffer (stream_buffer.c),
    interleaved at every access to shared memory: reads of the other side's
    index, single bytes of a copy, and the write of one's own index. */
module StreamRing {
  type byte = b: nat | b < 256

  /** The index `i` places behind `start` in a ring of `n` places. */
  function Pos(n: nat, start: nat, i: nat): (k: nat)
    requires start < n && i <= n
    ensures k < n
  {
    if start + i < n then start + i else start + i - n
  }

  /** prvBytesInBuffer: how far `head` is behind `tail`, computed without negative numbers. */
  function Distance(n: nat, tail: nat, head: nat): (d: nat)
    requires tail < n && head < n
    ensures d < n && Pos(n, tail, d) == head
  {
    var count := n + head - tail;
    if count >= n then count - n else count
  }

  /** What xStreamBufferSpacesAvailable makes of the two indices. */
  function Spaces(n: nat, tail: nat, head: nat): (s: nat)
    requires tail < n && head < n
    ensures s == n - 1 - Distance(n, tail, head)
  {
    var space := n + tail - head - 1;
    if space >= n then space - n else space
  }

  lemma Shift(n: nat, start: nat, a: nat, b: nat)
    requires start < n && a + b <= n && a < n
    ensures Pos(n, Pos(n, start, a), b) == Pos(n, start, a + b)
  {
  }

  lemma DistanceAfter(n: nat, tail: nat, head: nat, k: nat)
    requires tail < n && head < n
    ensures Distance(n, tail, head) + k < n ==> Distance(n, tail, Pos(n, head, k)) == Distance(n, tail, head) + k
    ensures k <= Distance(n, tail, head) ==> Distance(n, Pos(n, tail, k), head) == Distance(n, tail, head) - k
  {
  }

  /** Where the writer is: measuring the free space, in which it reads the tail
      three times, or copying bytes behind the head. */
  datatype Writer =
    | WriterIdle
    | TailRead(original: nat)
    | TailReadTwice(original: nat, space: nat)
    | Measured(space: nat)
    | CopyingIn(data: seq<byte>, done: nat)

  datatype Reader =
    | ReaderIdle
    | HeadRead(available: nat)
    | CopyingOut(count: nat, taken: seq<byte>)

  datatype State = State(ring: seq<byte>, head: nat, tail: nat, writer: Writer, reader: Reader,
                         sent: seq<byte>, received: seq<byte>)

  datatype Event =
    | ReadTail | ReadTailAgain | CheckTail | BeginCopyIn(data: seq<byte>) | CopyIn | PublishHead | AbandonCopyIn
    | ReadHead | BeginCopyOut(count: nat) | CopyOut | PublishTail | AbandonCopyOut

  ghost predicate InBounds(s: State) {
    s.head < |s.ring| && s.tail < |s.ring|
  }

  function Unread(s: State): (u: seq<byte>)
    requires InBounds(s)
    ensures |u| == Distance(|s.ring|, s.tail, s.head)
    ensures forall i :: 0 <= i < |u| ==> u[i] == s.ring[Pos(|s.ring|, s.tail, i)]
  {
    seq(Distance(|s.ring|, s.tail, s.head),
        i requires 0 <= i < Distance(|s.ring|, s.tail, s.head) => s.ring[Pos(|s.ring|, s.tail, i)])
  }

  ghost predicate Enabled(s: State, e: Event)
    requires InBounds(s)
  {
    match e
    case ReadTail => s.writer.WriterIdle?
    case ReadTailAgain => s.writer.TailRead?
    case CheckTail => s.writer.TailReadTwice?
    case BeginCopyIn(data) => s.writer.Measured? && |data| <= s.writer.space
    case CopyIn => s.writer.CopyingIn? && s.writer.done < |s.writer.data| <= |s.ring|
    case PublishHead => s.writer.CopyingIn? && s.writer.done == |s.writer.data| <= |s.ring|
    case AbandonCopyIn => s.writer.CopyingIn? || s.writer.Measured?
    case ReadHead => s.reader.ReaderIdle?
    case BeginCopyOut(count) => s.reader.HeadRead? && count <= s.reader.available
    case CopyOut => s.reader.CopyingOut? && |s.reader.taken| < s.reader.count <= |s.ring|
    case PublishTail => s.reader.CopyingOut? && |s.reader.taken| == s.reader.count <= |s.ring|
    case AbandonCopyOut => s.reader.CopyingOut? || s.reader.HeadRead?
  }

  function Apply(s: State, e: Event): (t: State)
    requires InBounds(s) && Enabled(s, e)
    ensures InBounds(t) && |t.ring| == |s.ring|
  {
    match e
    case ReadTail => s.(writer := TailRead(s.tail))
    case ReadTailAgain => s.(writer := TailReadTwice(s.writer.original, Spaces(|s.ring|, s.tail, s.head)))
    case CheckTail => s.(writer := if s.writer.original == s.tail then Measured(s.writer.space) else WriterIdle)
    case BeginCopyIn(data) => s.(writer := CopyingIn(data, 0))
    case CopyIn =>
      s.(ring := s.ring[Pos(|s.ring|, s.head, s.writer.done) := s.writer.data[s.writer.done]],
         writer := CopyingIn(s.writer.data, s.writer.done + 1))
    case PublishHead =>
      s.(head := Pos(|s.ring|, s.head, s.writer.done), writer := WriterIdle, sent := s.sent + s.writer.data)
    case AbandonCopyIn => s.(writer := WriterIdle)
    case ReadHead => s.(reader := HeadRead(Distance(|s.ring|, s.tail, s.head)))
    case BeginCopyOut(count) => s.(reader := CopyingOut(count, []))
    case CopyOut =>
      s.(reader := CopyingOut(s.reader.count, s.reader.taken + [s.ring[Pos(|s.ring|, s.tail, |s.reader.taken|)]]))
    case PublishTail =>
      s.(tail := Pos(|s.ring|, s.tail, s.reader.count), reader := ReaderIdle, received := s.received + s.reader.taken)
    case AbandonCopyOut => s.(reader := ReaderIdle)
  }

  /** What the writer knows about the ring: a space it measured is really free,
      and the bytes it has copied so far stand behind the head. */
  ghost predicate WriterOK(s: State)
    requires InBounds(s)
  {
    var n := |s.ring|;
    match s.writer
    case WriterIdle => true
    case TailRead(original) => original < n && Distance(n, original, s.head) >= Distance(n, s.tail, s.head)
    case TailReadTwice(original, space) =>
      && original < n && Distance(n, original, s.head) >= n - 1 - space >= Distance(n, s.tail, s.head)
    case Measured(space) => space <= Spaces(n, s.tail, s.head)
    case CopyingIn(data, done) =>
      && done <= |data| <= Spaces(n, s.tail, s.head)
      && forall i :: 0 <= i < done ==> s.ring[Pos(n, s.head, i)] == data[i]
  }

  ghost predicate ReaderOK(s: State)
    requires InBounds(s)
  {
    match s.reader
    case ReaderIdle => true
    case HeadRead(available) => available <= Distance(|s.ring|, s.tail, s.head)
    case CopyingOut(count, taken) =>
      |taken| <= count <= Distance(|s.ring|, s.tail, s.head) && taken == Unread(s)[..|taken|]
  }

  /** All that was sent is what was received followed by what is unread. */
  ghost predicate Inv(s: State) {
    InBounds(s) && WriterOK(s) && ReaderOK(s) && s.sent == s.received + Unread(s)
  }

  /** A byte the writer is about to store lies outside the unread part. */
  lemma WriterStaysOutside(s: State, i: nat)
    requires Inv(s) && Enabled(s, CopyIn) && i < |Unread(s)|
    ensures Pos(|s.ring|, s.head, s.writer.done) != Pos(|s.ring|, s.tail, i)
  {
  }

  lemma WriterStepKeepsInv(s: State, e: Event)
    requires Inv(s) && Enabled(s, e)
    requires e.ReadTail? || e.ReadTailAgain? || e.CheckTail? || e.BeginCopyIn? || e.CopyIn? || e.AbandonCopyIn?
    ensures Inv(Apply(s, e))
  {
    var t := Apply(s, e);
    if e.CopyIn? {
      forall i | 0 <= i < |Unread(s)|
        ensures Unread(t)[i] == Unread(s)[i]
      {
        WriterStaysOutside(s, i);
      }
    }
    assert Unread(t) == Unread(s);
  }

  lemma ReaderStepKeepsInv(s: State, e: Event)
    requires Inv(s) && Enabled(s, e) && (e.ReadHead? || e.BeginCopyOut? || e.CopyOut? || e.AbandonCopyOut?)
    ensures Inv(Apply(s, e))
  {
    hide WriterOK;
    var t := Apply(s, e);
    assert Unread(t) == Unread(s);
    assert WriterOK(t) by { LessIsOK(s, t); }
  }

  lemma UnreadGrows(s: State)
    requires InBounds(s) && WriterOK(s) && Enabled(s, PublishHead)
    ensures Unread(Apply(s, PublishHead)) == Unread(s) + s.writer.data
  {
    hide Pos, Distance, Unread;
    var t, n, data, u := Apply(s, PublishHead), |s.ring|, s.writer.data, |Unread(s)|;
    DistanceAfter(n, s.tail, s.head, |data|);
    forall i | 0 <= i < |data|
      ensures s.ring[Pos(n, s.tail, u + i)] == data[i]
    {
      Shift(n, s.tail, u, i);
    }
  }

  lemma PublishHeadKeepsInv(s: State)
    requires Inv(s) && Enabled(s, PublishHead)
    ensures Inv(Apply(s, PublishHead))
  {
    hide Pos, Distance, Unread;
    UnreadGrows(s);
    assert Apply(s, PublishHead).sent == s.received + (Unread(s) + s.writer.data);
    SmallerIsOK(s, Apply(s, PublishHead)) by { DistanceAfter(|s.ring|, s.tail, s.head, |s.writer.data|); }
  }

  /** The reader is not bothered by more bytes behind those it knows. */
  lemma SmallerIsOK(s: State, t: State)
    requires InBounds(s) && InBounds(t) && ReaderOK(s) && t.reader == s.reader && |t.ring| == |s.ring|
    requires Distance(|s.ring|, s.tail, s.head) <= Distance(|t.ring|, t.tail, t.head)
    requires Unread(s) <= Unread(t)
    ensures ReaderOK(t)
  {
    hide Distance, Unread;
    if s.reader.CopyingOut? {
      var k := |s.reader.taken|;
      assert Unread(t)[..k] == Unread(s)[..k];
    }
  }

  lemma UnreadShrinks(s: State)
    requires InBounds(s) && ReaderOK(s) && Enabled(s, PublishTail)
    ensures Unread(Apply(s, PublishTail)) == Unread(s)[s.reader.count..]
  {
    hide Pos, Distance, Unread;
    var t, n, k := Apply(s, PublishTail), |s.ring|, s.reader.count;
    DistanceAfter(n, s.tail, s.head, k);
    forall i | 0 <= i < |Unread(s)| - k
      ensures Unread(t)[i] == Unread(s)[k..][i]
    {
      Shift(n, s.tail, k, i);
    }
  }

  lemma PublishTailKeepsInv(s: State)
    requires Inv(s) && Enabled(s, PublishTail)
    ensures Inv(Apply(s, PublishTail))
  {
    hide Pos, Distance, Unread;
    var t, k := Apply(s, PublishTail), s.reader.count;
    UnreadShrinks(s);
    assert Unread(s) == Unread(s)[..k] + Unread(s)[k..];
    assert s.sent == (s.received + s.reader.taken) + Unread(t);
    LessIsOK(s, t) by { DistanceAfter(|s.ring|, s.tail, s.head, k); }
  }

  /** The writer is not bothered by more space than it knows of. */
  lemma LessIsOK(s: State, t: State)
    requires InBounds(s) && InBounds(t) && WriterOK(s)
    requires t.writer == s.writer && t.ring == s.ring && t.head == s.head
    requires Distance(|s.ring|, s.tail, s.head) >= Distance(|t.ring|, t.tail, t.head)
    ensures WriterOK(t)
  {
    hide Pos, Distance, Unread;
  }

  lemma StepKeepsInv(s: State, e: Event)
    requires Inv(s) && Enabled(s, e)
    ensures Inv(Apply(s, e))
  {
    hide Inv, Apply, Enabled;
    match e {
      case PublishHead => PublishHeadKeepsInv(s);
      case PublishTail => PublishTailKeepsInv(s);
      case ReadHead => ReaderStepKeepsInv(s, e);
      case BeginCopyOut(_) => ReaderStepKeepsInv(s, e);
      case CopyOut => ReaderStepKeepsInv(s, e);
      case AbandonCopyOut => ReaderStepKeepsInv(s, e);
      case _ => WriterStepKeepsInv(s, e);
    }
  }

  /** The loop that reads the tail again: when it ends, no byte was taken since
      the first read, so the space is exact and not only a lower bound. */
  lemma MeasuredExactly(s: State)
    requires Inv(s) && s.writer.TailReadTwice? && s.writer.original == s.tail
    ensures Apply(s, CheckTail).writer == Measured(Spaces(|s.ring|, s.tail, s.head))
  {
  }

  ghost predicate Legal(s: State, run: seq<Event>)
    requires InBounds(s)
    decreases |run|
  {
    run == [] || (Enabled(s, run[0]) && Legal(Apply(s, run[0]), run[1..]))
  }

  ghost function After(s: State, run: seq<Event>): (t: State)
    requires InBounds(s) && Legal(s, run)
    ensures InBounds(t) && |t.ring| == |s.ring|
    decreases |run|
  {
    if run == [] then s else After(Apply(s, run[0]), run[1..])
  }

  ghost predicate Initial(s: State) {
    && 0 < |s.ring| && s.head == 0 && s.tail == 0 && s.writer.WriterIdle? && s.reader.ReaderIdle?
    && s.sent == [] && s.received == []
  }

  lemma {:induction false} RunKeepsInv(s: State, run: seq<Event>)
    requires Inv(s) && Legal(s, run)
    ensures Inv(After(s, run))
    decreases |run|
  {
    if run == [] {
    } else {
      StepKeepsInv(s, run[0]);
      RunKeepsInv(Apply(s, run[0]), run[1..]);
    }
  }

  /** The main result: however the two sides interleave, what was received is a
      prefix of what was sent, and the rest is in the ring, in order. */
  lemma ReceivedIsPrefixOfSent(s: State, run: seq<Event>)
    requires Initial(s) && Legal(s, run)
    ensures var t := After(s, run);
            t.received <= t.sent && t.sent[|t.received|..] == Unread(t) && |Unread(t)| < |t.ring|
  {
    RunKeepsInv(s, run);
  }
}
