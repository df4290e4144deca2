/** Messages on the ring of a message buffer while its two sides interleave
    (stream_buffer.c): a length and its bytes are published by one move of the
    head and taken by one move of the tail. */
module MessageRing {
  import opened StreamRing
  import opened MessageFraming

  function Frame(m: Message): seq<byte> {
    Header(|m|) + m
  }

  /** What the two sides of a message buffer do: the writer copies a length and
      its bytes, and publishes them unless the message is empty; the reader, if
      more than a header is available, copies what the header says. */
  ghost predicate Framed(s: State, e: Event)
    requires InBounds(s)
  {
    match e
    case BeginCopyIn(data) => data == Header(0) || exists m: Message :: data == Frame(m)
    case PublishHead => s.writer.CopyingIn? ==> s.writer.data != Header(0)
    case BeginCopyOut(count) =>
      && |Unread(s)| >= HEADER_BYTES && s.reader.HeadRead? && s.reader.available > HEADER_BYTES
      && count == HEADER_BYTES + HeaderValue(Unread(s)[..HEADER_BYTES])
    case _ => true
  }

  /** What was received and what is unread are whole messages, the writer is copying
      one, and the reader knows of whole messages only. */
  ghost predicate Whole(s: State, got: seq<Message>, messages: seq<Message>) {
    && Inv(s) && s.received == Frames(got) && Unread(s) == Frames(messages)
    && (s.writer.CopyingIn? ==> s.writer.data == Header(0) || exists m: Message :: s.writer.data == Frame(m))
    && match s.reader
       case ReaderIdle => true
       case HeadRead(available) => EndsAt(messages, available)
       case CopyingOut(count, _) => messages != [] && count == |Frame(messages[0])|
  }

  /** A number of bytes after which a message ends. */
  ghost predicate EndsAt(messages: seq<Message>, n: nat) {
    exists k :: 0 <= k <= |messages| && n == |Frames(messages[..k])|
  }

  lemma EndsAtWithMore(messages: seq<Message>, n: nat, m: Message)
    requires EndsAt(messages, n)
    ensures EndsAt(messages + [m], n)
  {
    var k :| 0 <= k <= |messages| && n == |Frames(messages[..k])|;
    assert (messages + [m])[..k] == messages[..k];
  }

  /** A reader that sees more than a header sees the whole first message. */
  lemma SeesWholeMessage(messages: seq<Message>, n: nat)
    requires EndsAt(messages, n)
    ensures n <= HEADER_BYTES <==> n == 0
    ensures n > 0 ==> messages != [] && n >= |Frame(messages[0])|
  {
    var k :| 0 <= k <= |messages| && n == |Frames(messages[..k])|;
    NoMessageFits(messages[..k]);
    if k > 0 {
      FramesFront(messages[..k]);
    }
  }

  /** Every step keeps the bytes whole messages: a publication adds one at the end
      of what is unread, and a take moves the first to the end of what was received. */
  lemma StepKeepsWhole(s: State, got: seq<Message>, messages: seq<Message>, e: Event)
    returns (gotAfter: seq<Message>, after: seq<Message>)
    requires Whole(s, got, messages) && Enabled(s, e) && Framed(s, e)
    ensures Whole(Apply(s, e), gotAfter, after)
    ensures match e
            case PublishHead => gotAfter == got && exists m :: after == messages + [m] && s.writer.data == Frame(m)
            case PublishTail => messages != [] && gotAfter == got + [messages[0]] && after == messages[1..]
            case _ => gotAfter == got && after == messages
  {
    hide Header, HeaderValue, Frames, Distance, Pos, WriterOK, ReaderOK, Unread;
    StepKeepsInv(s, e);
    gotAfter, after := got, messages;
    match e {
      case PublishHead =>
        var m: Message :| s.writer.data == Frame(m);
        after := messages + [m];
        UnreadGrows(s);
        FramesOfOneMore(messages, m);
        assert Unread(Apply(s, e)) == Frames(messages) + (Header(|m|) + m);
        if s.reader.HeadRead? {
          EndsAtWithMore(messages, s.reader.available, m);
        }
      case PublishTail =>
        FramesFront(messages);
        UnreadShrinks(s);
        TakesTheFirst(s, got, messages);
        gotAfter, after := got + [messages[0]], messages[1..];
      case ReadHead =>
        SameUnread(s, e);
        assert messages[..|messages|] == messages;
        assert EndsAt(messages, |Frames(messages)|);
      case BeginCopyOut(count) =>
        SameUnread(s, e);
        SeesWholeMessage(messages, s.reader.available);
        FramesFront(messages);
        HeaderRoundTrip(|messages[0]|);
      case _ => SameUnread(s, e);
    }
  }

  ghost predicate FramedRun(s: State, run: seq<Event>)
    requires InBounds(s) && Legal(s, run)
    decreases |run|
  {
    run == [] || (Framed(s, run[0]) && FramedRun(Apply(s, run[0]), run[1..]))
  }

  lemma OnlyGrows(got: seq<Message>, messages: seq<Message>, gotAfter: seq<Message>, after: seq<Message>)
    requires || (gotAfter == got && messages <= after)
             || (messages != [] && gotAfter == got + [messages[0]] && after == messages[1..])
    ensures got <= gotAfter && got + messages <= gotAfter + after
  {
    if gotAfter == got {
      assert got + after == (got + messages) + after[|messages|..];
    } else {
      assert gotAfter + after == got + messages;
    }
  }

  /** The list of all messages only grows, and those received stay its front. */
  lemma {:induction false} RunKeepsWhole(s: State, got: seq<Message>, messages: seq<Message>, run: seq<Event>)
    returns (gotAfter: seq<Message>, after: seq<Message>)
    requires Whole(s, got, messages) && Legal(s, run) && FramedRun(s, run)
    ensures Whole(After(s, run), gotAfter, after)
    ensures got <= gotAfter && got + messages <= gotAfter + after
    decreases |run|
  {
    assert InBounds(s);
    hide Whole, Framed, Frames, Enabled, Apply;
    if run == [] {
      gotAfter, after := got, messages;
    } else {
      var gotNext, next := StepKeepsWhole(s, got, messages, run[0]);
      OnlyGrows(got, messages, gotNext, next);
      gotAfter, after := RunKeepsWhole(Apply(s, run[0]), gotNext, next, run[1..]);
    }
  }

  lemma {:induction false} FramesJoin(a: seq<Message>, b: seq<Message>)
    ensures Frames(a + b) == Frames(a) + Frames(b)
  {
    if a == [] {
      assert a + b == b;
    } else {
      hide Header;
      FramesJoin(a[1..], b);
      var rest := a[1..] + b;
      assert (a + b)[1..] == rest && (a + b)[0] == a[0];
      var front, middle, last := Header(|a[0]|) + a[0], Frames(a[1..]), Frames(b);
      assert front + (middle + last) == (front + middle) + last;
    }
  }

  /** What the reader takes is the first message. */
  lemma TakesTheFirst(s: State, got: seq<Message>, messages: seq<Message>)
    requires Whole(s, got, messages) && Enabled(s, PublishTail)
    ensures Apply(s, PublishTail).received == Frames(got + [messages[0]])
  {
    hide Header, HeaderValue, Frames, Distance, Pos, WriterOK, Unread;
    var m := messages[0];
    FramesFront(messages);
    FramesOfOneMore(got, m);
    var u := Unread(s);
    assert s.reader.taken == u[..HEADER_BYTES] + u[HEADER_BYTES..HEADER_BYTES + |m|];
    assert Frames(got) + Header(|m|) + m == Frames(got) + (Header(|m|) + m);
  }

  /** The main result: in every interleaving the bytes received are those of the
      first messages sent, whole and in order, and the unread bytes those of the
      other ones; whatever happens then only appends to both lists. */
  lemma MessagesArriveInOrder(s: State, run: seq<Event>, more: seq<Event>)
    returns (got: seq<Message>, unread: seq<Message>, gotLater: seq<Message>, unreadLater: seq<Message>)
    requires Initial(s) && Legal(s, run) && FramedRun(s, run)
    requires Legal(After(s, run), more) && FramedRun(After(s, run), more)
    ensures Carries(After(s, run), got, unread) && Carries(After(After(s, run), more), gotLater, unreadLater)
    ensures got <= gotLater && got + unread <= gotLater + unreadLater
  {
    hide Whole, Frames;
    NothingUnread(s);
    got, unread := RunKeepsWhole(s, [], [], run);
    gotLater, unreadLater := RunKeepsWhole(After(s, run), got, unread, more);
    WholeCarries(After(s, run), got, unread);
    WholeCarries(After(After(s, run), more), gotLater, unreadLater);
  }

  ghost predicate Carries(s: State, got: seq<Message>, unread: seq<Message>)
    requires InBounds(s)
  {
    s.received == Frames(got) && Unread(s) == Frames(unread) && s.sent == Frames(got + unread)
  }

  lemma WholeCarries(s: State, got: seq<Message>, unread: seq<Message>)
    requires Whole(s, got, unread)
    ensures Carries(s, got, unread)
  {
    hide Frames, Unread;
    FramesJoin(got, unread);
  }

  /** And when the reader looks at the head, it finds nothing or at least the whole
      message whose length it is about to read. */
  lemma ReaderNeverSeesPartOfAMessage(s: State, run: seq<Event>)
    returns (got: seq<Message>, messages: seq<Message>)
    requires Initial(s) && Legal(s, run) && FramedRun(s, run)
    ensures var t := After(s, run);
            && Carries(t, got, messages)
            && (t.reader.HeadRead? ==>
                  if t.reader.available <= HEADER_BYTES then t.reader.available == 0
                  else messages != [] && t.reader.available >= HEADER_BYTES + HeaderValue(Unread(t)[..HEADER_BYTES])
                       && HeaderValue(Unread(t)[..HEADER_BYTES]) == |messages[0]|)
  {
    hide Header, HeaderValue, Frames;
    NothingUnread(s);
    got, messages := RunKeepsWhole(s, [], [], run);
    var t := After(s, run);
    WholeCarries(t, got, messages);
    if t.reader.HeadRead? {
      SeesWholeMessage(messages, t.reader.available);
      if messages != [] {
        FramesFront(messages);
        HeaderRoundTrip(|messages[0]|);
      }
    }
  }

  lemma NothingUnread(s: State)
    requires Initial(s)
    ensures Whole(s, [], [])
  {
  }

  lemma SameUnread(s: State, e: Event)
    requires Inv(s) && Enabled(s, e) && !e.PublishHead? && !e.PublishTail?
    ensures Unread(Apply(s, e)) == Unread(s)
  {
    if e.CopyIn? {
      forall i | 0 <= i < |Unread(s)|
        ensures Unread(Apply(s, e))[i] == Unread(s)[i]
      {
        WriterStaysOutside(s, i);
      }
    }
  }
}
