/** How a message buffer frames its messages (stream_buffer.c): each one behind
    its length, which takes four bytes, least significant first. */
module MessageFraming {
  import opened StreamRing

  /** sbBYTES_TO_STORE_MESSAGE_LENGTH: the size of a size_t. */
  const HEADER_BYTES: nat := 4
  const SIZE_LIMIT: nat := 0x1_0000_0000

  type Message = m: seq<byte> | 0 < |m| < SIZE_LIMIT witness [0]

  function Header(n: nat): (h: seq<byte>)
    requires n < SIZE_LIMIT
    ensures |h| == HEADER_BYTES
  {
    var q1 := n / 0x100;
    var q2 := q1 / 0x100;
    [n % 0x100, q1 % 0x100, q2 % 0x100, q2 / 0x100]
  }

  function HeaderValue(h: seq<byte>): (n: nat)
    requires |h| == HEADER_BYTES
    ensures n < SIZE_LIMIT
  {
    var b0: nat, b1: nat, b2: nat, b3: nat := h[0], h[1], h[2], h[3];
    b0 + 0x100 * (b1 + 0x100 * (b2 + 0x100 * b3))
  }

  lemma HeaderRoundTrip(n: nat)
    requires n < SIZE_LIMIT
    ensures HeaderValue(Header(n)) == n
    ensures var h := Header(n);
            n == (h[0] as int) + 0x100 * (h[1] as int) + 0x1_0000 * (h[2] as int) + 0x100_0000 * (h[3] as int)
  {
  }

  /** The bytes of a sequence of messages. */
  function Frames(messages: seq<Message>): seq<byte> {
    if messages == [] then [] else Header(|messages[0]|) + messages[0] + Frames(messages[1..])
  }

  lemma {:induction false} FramesOfOneMore(messages: seq<Message>, m: Message)
    ensures Frames(messages + [m]) == Frames(messages) + Header(|m|) + m
  {
    hide Header;
    if messages == [] {
      assert [m][1..] == [];
      assert Frames([m]) == Header(|m|) + m + [];
    } else {
      FramesOfOneMore(messages[1..], m);
      assert (messages + [m])[1..] == messages[1..] + [m];
    }
  }

  /** What stands at the front of the bytes, if there is a message at all. */
  lemma FramesFront(messages: seq<Message>)
    requires messages != []
    ensures |Frames(messages)| >= HEADER_BYTES + |messages[0]|
    ensures Frames(messages)[..HEADER_BYTES] == Header(|messages[0]|)
    ensures Frames(messages)[HEADER_BYTES..HEADER_BYTES + |messages[0]|] == messages[0]
    ensures Frames(messages)[HEADER_BYTES + |messages[0]|..] == Frames(messages[1..])
  {
    hide Header;
    var h, m, rest := Header(|messages[0]|), messages[0], Frames(messages[1..]);
    assert Frames(messages) == h + (m + rest);
  }

  /** At most four bytes are no bytes. */
  lemma NoMessageFits(messages: seq<Message>)
    ensures |Frames(messages)| <= HEADER_BYTES <==> messages == []
    ensures Frames(messages) == [] <==> messages == []
  {
    if messages != [] {
      FramesFront(messages);
    }
  }

  /** The bytes determine the messages. */
  lemma {:induction false} FramesInjective(a: seq<Message>, b: seq<Message>)
    requires Frames(a) == Frames(b)
    ensures a == b
    decreases |a|
  {
    NoMessageFits(a);
    NoMessageFits(b);
    if a == [] {
    } else {
      hide Header, HeaderValue, Frames;
      FramesFront(a);
      FramesFront(b);
      HeaderRoundTrip(|a[0]|);
      HeaderRoundTrip(|b[0]|);
      FramesInjective(a[1..], b[1..]);
      assert a == [a[0]] + a[1..] && b == [b[0]] + b[1..];
    }
  }
}

/** Stream and message buffers (stream_buffer.c), one call at a time. */
module StreamBuffer {
  import opened StreamRing
  import opened MessageFraming

  function Min(a: nat, b: nat): nat { if a < b then a else b }

  /** `count` bytes of a ring from `start` on. */
  function Stretch(ring: seq<byte>, start: nat, count: nat): (bytes: seq<byte>)
    requires start < |ring| && count <= |ring|
    ensures |bytes| == count
    ensures forall i :: 0 <= i < count ==> bytes[i] == ring[Pos(|ring|, start, i)]
  {
    seq(count, i requires 0 <= i < count => ring[Pos(|ring|, start, i)])
  }

  /** A stretch falls into two where it wraps around, and anywhere else. */
  lemma StretchWraps(ring: seq<byte>, start: nat, count: nat)
    requires start < |ring| && count <= |ring|
    ensures var first := Min(|ring| - start, count);
            Stretch(ring, start, count) == ring[start..start + first] + ring[..count - first]
  {
  }

  lemma StretchSplits(ring: seq<byte>, start: nat, a: nat, b: nat)
    requires start < |ring| && a + b <= |ring| && a < |ring|
    ensures Stretch(ring, start, a + b) == Stretch(ring, start, a) + Stretch(ring, Pos(|ring|, start, a), b)
  {
    hide Pos;
    forall i | 0 <= i < b
      ensures Pos(|ring|, Pos(|ring|, start, a), i) == Pos(|ring|, start, a + i)
    {
      Shift(|ring|, start, a, i);
    }
  }

  /** A part of a stretch, and what is behind it, are stretches of their own. */
  lemma StretchParts(ring: seq<byte>, start: nat, skipped: nat, count: nat, total: nat)
    requires start < |ring| && skipped + count <= total < |ring|
    ensures var at := Pos(|ring|, start, skipped);
            && Stretch(ring, at, count) == Stretch(ring, start, total)[skipped..skipped + count]
            && Stretch(ring, Pos(|ring|, at, count), total - skipped - count) == Stretch(ring, start, total)[skipped + count..]
  {
    hide Pos, Stretch;
    StretchSplits(ring, start, skipped, total - skipped);
    StretchSplits(ring, Pos(|ring|, start, skipped), count, total - skipped - count);
  }

  /** Bytes stored behind a stretch leave the stretch alone. */
  lemma StretchKept(before: seq<byte>, after: seq<byte>, start: nat, a: nat, b: nat)
    requires |before| == |after| && start < |before| && a + b <= |before| && a < |before|
    requires Elsewhere(before, after, Pos(|before|, start, a), b)
    ensures Stretch(after, start, a) == Stretch(before, start, a)
  {
    forall i | 0 <= i < a
      ensures after[Pos(|before|, start, i)] == before[Pos(|before|, start, i)]
    {
      assert Outside(|before|, Pos(|before|, start, a), b, Pos(|before|, start, i));
    }
  }

  /** Index `k` is not among the `count` places from `start` on. */
  ghost predicate Outside(n: nat, start: nat, count: nat, k: nat) {
    if start + count <= n then k < start || start + count <= k else start + count - n <= k < start
  }

  ghost predicate Elsewhere(before: seq<byte>, after: seq<byte>, start: nat, count: nat) {
    && |after| == |before|
    && forall k {:trigger Outside(|before|, start, count, k)} ::
         0 <= k < |before| && Outside(|before|, start, count, k) ==> after[k] == before[k]
  }

  class StreamBuffer {
    const buffer: array<byte>
    const isMessageBuffer: bool
    var head: nat
    var tail: nat
    ghost var messages: seq<Message>

    /** The unread bytes of a message buffer are whole messages. */
    ghost predicate Valid()
      reads this, buffer
    {
      && head < buffer.Length < SIZE_LIMIT && tail < buffer.Length
      && (isMessageBuffer ==> Contents() == Frames(messages))
    }

    ghost function Contents(): (c: seq<byte>)
      requires head < buffer.Length && tail < buffer.Length
      reads this, buffer
    {
      Stretch(buffer[..], tail, Distance(buffer.Length, tail, head))
    }

    constructor (length: nat, isMessageBuffer: bool)
      requires 1 < length < SIZE_LIMIT
      ensures Valid() && Contents() == [] && messages == [] && fresh(buffer)
      ensures buffer.Length == length && this.isMessageBuffer == isMessageBuffer
    {
      buffer := new byte[length];
      this.isMessageBuffer, head, tail, messages := isMessageBuffer, 0, 0, [];
    }

    /** prvBytesInBuffer */
    method BytesInBuffer() returns (count: nat)
      requires head < buffer.Length && tail < buffer.Length
      ensures count == |Contents()|
    {
      var n := buffer.Length + head;
      n := n - tail;
      if n >= buffer.Length {
        n := n - buffer.Length;
      }
      count := n;
    }

    /** xStreamBufferSpacesAvailable, when nobody reads meanwhile. */
    method SpacesAvailable() returns (space: nat)
      requires head < buffer.Length && tail < buffer.Length
      ensures space == buffer.Length - 1 - |Contents()|
    {
      var n := buffer.Length + tail;
      n := n - head;
      n := n - 1;
      if n >= buffer.Length {
        n := n - buffer.Length;
      }
      space := n;
    }

    /** memcpy into the buffer. */
    method CopyIn(data: seq<byte>, at: nat)
      requires at + |data| <= buffer.Length
      modifies buffer
      ensures buffer[at..at + |data|] == data
      ensures forall k :: 0 <= k < buffer.Length && (k < at || at + |data| <= k) ==> buffer[k] == old(buffer[k])
    {
      for i := 0 to |data|
        invariant forall k :: 0 <= k < i ==> buffer[at + k] == data[k]
        invariant forall k :: 0 <= k < buffer.Length && (k < at || at + i <= k) ==> buffer[k] == old(buffer[k])
      {
        buffer[at + i] := data[i];
      }
    }

    /** prvWriteBytesToBuffer */
    method WriteBytes(data: seq<byte>, from: nat) returns (next: nat)
      requires from < buffer.Length && 0 < |data| <= buffer.Length
      modifies buffer
      ensures next == Pos(buffer.Length, from, |data|)
      ensures Stretch(buffer[..], from, |data|) == data
      ensures Elsewhere(old(buffer[..]), buffer[..], from, |data|)
    {
      var first := Min(buffer.Length - from, |data|);
      CopyIn(data[..first], from);
      if |data| > first {
        CopyIn(data[first..], 0);
      }
      assert buffer[from..from + first] == data[..first];
      StretchWraps(buffer[..], from, |data|);
      next := from + |data|;
      if next >= buffer.Length {
        next := next - buffer.Length;
      }
    }

    /** prvReadBytesFromBuffer */
    method ReadBytes(count: nat, from: nat) returns (data: seq<byte>, next: nat)
      requires from < buffer.Length && 0 < count <= buffer.Length
      ensures data == Stretch(buffer[..], from, count) && next == Pos(buffer.Length, from, count)
    {
      var first := Min(buffer.Length - from, count);
      data := buffer[from..from + first];
      if count > first {
        data := data + buffer[..count - first];
      }
      StretchWraps(buffer[..], from, count);
      next := from + count;
      if next >= buffer.Length {
        next := next - buffer.Length;
      }
    }

    /** Writing behind the unread bytes and moving the head adds to them. */
    lemma Published(was: seq<byte>, n: nat, data: seq<byte>)
      requires |was| == buffer.Length && tail < buffer.Length && n + |data| < buffer.Length
      requires Stretch(buffer[..], Pos(buffer.Length, tail, n), |data|) == data
      requires Elsewhere(was, buffer[..], Pos(buffer.Length, tail, n), |data|)
      ensures Stretch(buffer[..], tail, n + |data|) == Stretch(was, tail, n) + data
    {
      hide Pos, Elsewhere;
      StretchKept(was, buffer[..], tail, n, |data|);
      StretchSplits(buffer[..], tail, n, |data|);
    }

    /** Two writes one behind the other are one. */
    lemma WrittenTwice(was: seq<byte>, between: seq<byte>, from: nat, a: seq<byte>, b: seq<byte>)
      requires |was| == |between| == buffer.Length && from < buffer.Length && |a| + |b| < buffer.Length
      requires Stretch(between, from, |a|) == a && Elsewhere(was, between, from, |a|)
      requires Stretch(buffer[..], Pos(buffer.Length, from, |a|), |b|) == b
      requires Elsewhere(between, buffer[..], Pos(buffer.Length, from, |a|), |b|)
      ensures Stretch(buffer[..], from, |a| + |b|) == a + b
      ensures Elsewhere(was, buffer[..], from, |a| + |b|)
    {
      StretchKept(between, buffer[..], from, |a|, |b|);
      StretchSplits(buffer[..], from, |a|, |b|);
      forall k | 0 <= k < |was| && Outside(|was|, from, |a| + |b|, k)
        ensures buffer[k] == was[k]
      {
        assert Outside(|was|, from, |a|, k) && Outside(|was|, Pos(|was|, from, |a|), |b|, k);
      }
    }

    /** prvWriteMessageToBuffer with the space it is given, which is really free. */
    method WriteMessage(data: seq<byte>, space: nat, required: nat) returns (written: nat)
      requires Valid() && space + |Contents()| < buffer.Length && |data| < SIZE_LIMIT
      requires isMessageBuffer ==> required == |data| + HEADER_BYTES < SIZE_LIMIT
      modifies this`head, this`messages, buffer
      ensures Valid()
      ensures isMessageBuffer ==>
                if 0 < |data| <= space - HEADER_BYTES
                then written == |data| && messages == old(messages) + [data]
                else written == 0 && messages == old(messages)
      ensures !isMessageBuffer ==>
                written == Min(|data|, space) && Contents() == old(Contents()) + data[..written]
    {
      hide Pos, Distance, Elsewhere, Header, Frames, Stretch;
      ghost var n, was, unread := Distance(buffer.Length, tail, head), buffer[..], Contents();
      ghost var stored: seq<byte> := [];
      var nextHead := head;
      written := |data|;
      if isMessageBuffer {
        if space >= required {
          nextHead := WriteBytes(Header(|data|), nextHead);
          stored := Header(|data|);
        } else {
          written := 0;
        }
      } else {
        written := Min(|data|, space);
      }
      ghost var between := buffer[..];
      if written != 0 {
        nextHead := WriteBytes(data[..written], nextHead);
        if isMessageBuffer {
          WrittenTwice(was, between, head, stored, data);
          Shift(buffer.Length, head, HEADER_BYTES, |data|);
          FramesOfOneMore(messages, data);
          messages := messages + [data];
        }
        stored := stored + data[..written];
        Published(was, n, stored);
        DistanceAfter(buffer.Length, tail, head, |stored|);
        head := nextHead;
      } else if stored != [] {
        StretchKept(was, buffer[..], tail, n, HEADER_BYTES);
      }
    }

    /** xStreamBufferSend that need not wait, and xStreamBufferSendFromISR. */
    method Send(data: seq<byte>) returns (written: nat)
      requires Valid() && |data| < SIZE_LIMIT
      requires isMessageBuffer ==> |data| + HEADER_BYTES < SIZE_LIMIT
      modifies this`head, this`messages, buffer
      ensures Valid()
      ensures isMessageBuffer ==>
                if data != [] && |old(Contents())| + HEADER_BYTES + |data| < buffer.Length
                then written == |data| && messages == old(messages) + [data]
                else written == 0 && messages == old(messages)
      ensures !isMessageBuffer ==>
                && written == Min(|data|, buffer.Length - 1 - |old(Contents())|)
                && Contents() == old(Contents()) + data[..written]
    {
      var space := SpacesAvailable();
      written := WriteMessage(data, space, if isMessageBuffer then |data| + HEADER_BYTES else |data|);
    }

    /** The length in front of the oldest message. */
    method ReadLength() returns (length: nat, next: nat)
      requires Valid() && isMessageBuffer && |Contents()| > HEADER_BYTES
      ensures messages != [] && length == |messages[0]| && next == Pos(buffer.Length, tail, HEADER_BYTES)
    {
      hide Pos, Distance, Header, HeaderValue, Frames, Stretch;
      NoMessageFits(messages);
      FramesFront(messages);
      HeaderRoundTrip(|messages[0]|);
      StretchSplits(buffer[..], tail, HEADER_BYTES, |Contents()| - HEADER_BYTES);
      var header;
      header, next := ReadBytes(HEADER_BYTES, tail);
      length := HeaderValue(header);
    }

    /** prvReadMessageFromBuffer, when more is available than a header takes. */
    method ReadMessage(capacity: nat, available: nat) returns (data: seq<byte>)
      requires Valid() && available == |Contents()| > if isMessageBuffer then HEADER_BYTES else 0
      modifies this`tail, this`messages
      ensures Valid()
      ensures isMessageBuffer ==>
                && old(messages) != []
                && if |old(messages)[0]| <= capacity
                   then data == old(messages)[0] && messages == old(messages)[1..]
                   else data == [] && messages == old(messages) && tail == old(tail)
      ensures !isMessageBuffer ==> |data| == Min(capacity, available) && data + Contents() == old(Contents())
    {
      hide Pos, Distance, Elsewhere, Header, HeaderValue, Frames, Stretch;
      ghost var n, unread := buffer.Length, Contents();
      var nextTail, bytes, length := tail, available, capacity;
      ghost var skipped := 0;
      if isMessageBuffer {
        length, nextTail := ReadLength();
        FramesFront(messages);
        skipped := HEADER_BYTES;
        bytes := bytes - HEADER_BYTES;
        if length > capacity {
          length := 0;
        }
      }
      var count := Min(length, bytes);
      data := [];
      if count != 0 {
        StretchParts(buffer[..], tail, skipped, count, available);
        Shift(n, tail, skipped, count);
        DistanceAfter(n, tail, head, skipped + count);
        data, nextTail := ReadBytes(count, nextTail);
        tail := nextTail;
        if isMessageBuffer {
          messages := messages[1..];
        }
      }
    }

    /** xStreamBufferReceive that need not wait, and xStreamBufferReceiveFromISR. */
    method Receive(capacity: nat) returns (data: seq<byte>)
      requires Valid()
      modifies this`tail, this`messages
      ensures Valid()
      ensures isMessageBuffer ==>
                if old(messages) != [] && |old(messages)[0]| <= capacity
                then data == old(messages)[0] && messages == old(messages)[1..]
                else data == [] && messages == old(messages) && tail == old(tail)
      ensures !isMessageBuffer ==>
                && |data| == Min(capacity, |old(Contents())|)
                && data + Contents() == old(Contents())
    {
      var available := BytesInBuffer();
      if available > if isMessageBuffer then HEADER_BYTES else 0 {
        data := ReadMessage(capacity, available);
      } else {
        if isMessageBuffer { NoMessageFits(messages); }
        data := [];
      }
    }

    /** xStreamBufferNextMessageLengthBytes with its assertion. */
    method NextMessageLength() returns (length: nat)
      requires Valid()
      ensures length == if isMessageBuffer && messages != [] then |messages[0]| else 0
    {
      hide Pos, Distance, Header, HeaderValue, Frames, Stretch;
      length := 0;
      if isMessageBuffer {
        NoMessageFits(messages);
        var available := BytesInBuffer();
        if available > HEADER_BYTES {
          var next;
          length, next := ReadLength();
        } else {
          assert available == 0;
        }
      }
    }
  }
}
