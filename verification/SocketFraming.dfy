/** Messages with a 64-bit size prefix over the socket's byte stream
    (ddSocketSendWithSizePrefix and ddSocketReceiveWithSizePrefix). */
module SocketFraming {
  import opened Bytes
  import opened SocketStream

  type Message = seq<Byte>

  const PREFIX_SIZE: nat := 8

  function Frame(m: Message): seq<Byte> {
    LittleEndian(|m|, PREFIX_SIZE) + m
  }

  function Frames(ms: seq<Message>): seq<Byte> {
    if ms == [] then [] else Frame(ms[0]) + Frames(ms[1..])
  }

  ghost predicate Sendable(ms: seq<Message>) {
    forall i | 0 <= i < |ms| :: |ms[i]| < U32_LIMIT
  }

  // ---- Sending ------------------------------------------------------------------------------

  function SendFramed(m: Message, script: Outbound, cursor: nat): Dispatch
    requires |m| < U32_LIMIT
  {
    var p := SendAll(LittleEndian(|m|, PREFIX_SIZE), script, cursor, RETRY_TIMEOUT_MS, 0);
    if p.result == Success then
      var q := SendAll(m, script, p.cursor, RETRY_TIMEOUT_MS, 0);
      q.(packets := p.packets + q.packets)
    else
      p
  }

  /** Send the messages one after the other, up to the first failure. */
  function SendMessages(ms: seq<Message>, script: Outbound, cursor: nat): Dispatch
    requires Sendable(ms)
  {
    if ms == [] then
      Dispatch(Success, 0, [], cursor, 0)
    else
      var d := SendFramed(ms[0], script, cursor);
      if d.result == Success then
        var rest := SendMessages(ms[1..], script, d.cursor);
        rest.(packets := d.packets + rest.packets)
      else
        d
  }

  lemma SendFramedExact(m: Message, script: Outbound, cursor: nat)
    requires |m| < U32_LIMIT
    ensures var d := SendFramed(m, script, cursor);
            && Flatten(d.packets) <= Frame(m)
            && (d.result == Success <==> Flatten(d.packets) == Frame(m))
  {
    var prefix := LittleEndian(|m|, PREFIX_SIZE);
    var p := SendAll(prefix, script, cursor, RETRY_TIMEOUT_MS, 0);
    SendAllExact(prefix, script, cursor, RETRY_TIMEOUT_MS, 0);
    if p.result == Success {
      var q := SendAll(m, script, p.cursor, RETRY_TIMEOUT_MS, 0);
      SendAllExact(m, script, p.cursor, RETRY_TIMEOUT_MS, 0);
      assert Frame(m)[..PREFIX_SIZE] == prefix && Frame(m)[PREFIX_SIZE..] == m;
      JoinPackets(Frame(m), PREFIX_SIZE, p.packets, q.packets);
    }
  }

  /** Sending messages puts a prefix of their frames on the session, and all of it on success. */
  lemma {:induction false} SendMessagesExact(ms: seq<Message>, script: Outbound, cursor: nat)
    requires Sendable(ms)
    ensures var d := SendMessages(ms, script, cursor);
            && Flatten(d.packets) <= Frames(ms)
            && (d.result == Success <==> Flatten(d.packets) == Frames(ms))
  {
    if ms != [] {
      var d := SendFramed(ms[0], script, cursor);
      var frame := Frame(ms[0]);
      SendFramedExact(ms[0], script, cursor);
      if d.result == Success {
        SendMessagesExact(ms[1..], script, d.cursor);
        var rest := SendMessages(ms[1..], script, d.cursor);
        assert Frames(ms)[..|frame|] == frame && Frames(ms)[|frame|..] == Frames(ms[1..]);
        JoinPackets(Frames(ms), |frame|, d.packets, rest.packets);
      }
    }
  }

  // ---- Receiving ----------------------------------------------------------------------------

  datatype FrameReceipt = FrameReceipt(result: Result, message: Message, dropped: seq<Byte>, cache: seq<Byte>, cursor: nat)

  /** ddSocketReceiveWithSizePrefix on a 64-bit machine, into a buffer of `room` bytes. */
  function ReceiveFramed(cache: seq<Byte>, script: Inbound, cursor: nat, room: nat): FrameReceipt {
    var p := ReceiveAll(cache, script, cursor, PREFIX_SIZE, 0);
    if p.result == Success then
      var n := FromLittleEndian(p.data);
      if n <= room then
        var q := ReceiveAll(p.cache, script, p.cursor, n, 0);
        FrameReceipt(q.result, q.data, p.dropped + q.dropped, q.cache, q.cursor)
      else
        FrameReceipt(BufferTooSmall, [], p.dropped, p.cache, p.cursor)
    else
      FrameReceipt(p.result, [], p.dropped, p.cache, p.cursor)
  }

  /** The messages of successive framed receives up to the first failure, and the bytes that the
      successful calls lost to timeouts after draining the cache. */
  datatype Inbox = Inbox(result: Result, messages: seq<Message>, dropped: seq<Byte>, cache: seq<Byte>, cursor: nat)

  function ReceiveMessages(cache: seq<Byte>, script: Inbound, cursor: nat, rooms: seq<nat>): Inbox
    decreases rooms
  {
    if rooms == [] then
      Inbox(Success, [], [], cache, cursor)
    else
      var f := ReceiveFramed(cache, script, cursor, rooms[0]);
      if f.result == Success then
        var rest := ReceiveMessages(f.cache, script, f.cursor, rooms[1..]);
        rest.(messages := [f.message] + rest.messages, dropped := f.dropped + rest.dropped)
      else
        Inbox(f.result, [], [], f.cache, f.cursor)
  }

  /** A receive of k bytes and then one of n bytes, without loss, take k + n bytes off the stream. */
  lemma TwoReceives(cache: seq<Byte>, script: Inbound, cursor: nat, k: nat, n: nat, p: Receipt, q: Receipt)
    requires p == ReceiveAll(cache, script, cursor, k, 0) && p.result == Success && p.dropped == []
    requires q == ReceiveAll(p.cache, script, p.cursor, n, 0) && q.result == Success && q.dropped == []
    ensures cursor <= q.cursor && |p.data| == k && |q.data| == n
    ensures cache + Taken(script, cursor, q.cursor) == (p.data + q.data) + q.cache
  {
    ReceiveAllShape(cache, script, cursor, k, 0);
    ReceiveAllConserves(cache, script, cursor, k, 0);
    ReceiveAllShape(p.cache, script, p.cursor, n, 0);
    ReceiveAllConserves(p.cache, script, p.cursor, n, 0);
    assert [] + p.data == p.data && [] + q.data == q.data;
    TakenSplit(script, cursor, p.cursor, q.cursor);
    Compose(cache, Taken(script, cursor, p.cursor), p.data, p.cache, Taken(script, p.cursor, q.cursor), q.data, q.cache);
  }

  lemma PrefixOfMessage(prefix: seq<Byte>, m: Message)
    requires |prefix| == PREFIX_SIZE && |m| == FromLittleEndian(prefix)
    ensures prefix + m == Frame(m) && |m| < U64_LIMIT
  {
    FromLittleEndianBound(prefix);
    assert Pow256(8) == U64_LIMIT;
    FromLittleEndianRoundTrip(prefix);
  }

  /** A framed receive that succeeds without loss takes exactly one frame off the stream. */
  lemma ReceiveFramedTakesFrame(cache: seq<Byte>, script: Inbound, cursor: nat, room: nat)
    ensures var f := ReceiveFramed(cache, script, cursor, room);
            f.result == Success && f.dropped == [] ==>
              && cursor <= f.cursor && |f.message| < U64_LIMIT && |f.message| <= room
              && cache + Taken(script, cursor, f.cursor) == Frame(f.message) + f.cache
  {
    var f := ReceiveFramed(cache, script, cursor, room);
    if f.result == Success && f.dropped == [] {
      var p := ReceiveAll(cache, script, cursor, PREFIX_SIZE, 0);
      var n := FromLittleEndian(p.data);
      var q := ReceiveAll(p.cache, script, p.cursor, n, 0);
      TwoReceives(cache, script, cursor, PREFIX_SIZE, n, p, q);
      PrefixOfMessage(p.data, q.data);
    }
  }

  /** Messages received without loss are the frames at the head of the stream. */
  lemma {:induction false} ReceiveMessagesTakesFrames(cache: seq<Byte>, script: Inbound, cursor: nat, rooms: seq<nat>)
    requires ReceiveMessages(cache, script, cursor, rooms).dropped == []
    ensures var inbox := ReceiveMessages(cache, script, cursor, rooms);
            && cursor <= inbox.cursor
            && Frames(inbox.messages) <= cache + Taken(script, cursor, inbox.cursor)
            && (forall i | 0 <= i < |inbox.messages| :: |inbox.messages[i]| < U64_LIMIT)
    decreases rooms
  {
    if rooms != [] {
      var f := ReceiveFramed(cache, script, cursor, rooms[0]);
      if f.result == Success {
        var rest := ReceiveMessages(f.cache, script, f.cursor, rooms[1..]);
        ReceiveFramedTakesFrame(cache, script, cursor, rooms[0]);
        ReceiveMessagesTakesFrames(f.cache, script, f.cursor, rooms[1..]);
        TakenSplit(script, cursor, f.cursor, rest.cursor);
        FramesCons(f.message, rest.messages);
        ComposePrefix(cache, Taken(script, cursor, f.cursor), Frame(f.message), f.cache,
                      Taken(script, f.cursor, rest.cursor), Frames(rest.messages));
      } else {
        ReceiveFramedAdvances(cache, script, cursor, rooms[0]);
      }
    }
  }

  lemma ComposePrefix<T>(a: seq<T>, t1: seq<T>, d1: seq<T>, b: seq<T>, t2: seq<T>, d2: seq<T>)
    requires a + t1 == d1 + b && d2 <= b + t2
    ensures d1 + d2 <= a + (t1 + t2)
  {
    var tail := (b + t2)[|d2|..];
    assert b + t2 == d2 + tail;
    Compose(a, t1, d1, b, t2, d2, tail);
  }

  lemma FramesCons(m: Message, ms: seq<Message>)
    ensures Frames([m] + ms) == Frame(m) + Frames(ms)
  {
    assert ([m] + ms)[1..] == ms;
  }

  lemma ReceiveFramedAdvances(cache: seq<Byte>, script: Inbound, cursor: nat, room: nat)
    ensures cursor <= ReceiveFramed(cache, script, cursor, room).cursor
  {
    var p := ReceiveAll(cache, script, cursor, PREFIX_SIZE, 0);
    ReceiveAllShape(cache, script, cursor, PREFIX_SIZE, 0);
    ReceiveAllShape(p.cache, script, p.cursor, FromLittleEndian(p.data), 0);
  }

  // ---- End to end ---------------------------------------------------------------------------

  /** A frame can be read off a stream in one way only. */
  lemma FrameUnique(a: Message, x: seq<Byte>, b: Message, y: seq<Byte>)
    requires |a| < U64_LIMIT && |b| < U64_LIMIT && Frame(a) + x <= Frame(b) + y
    ensures a == b && x <= y
  {
    var s, t := Frame(a) + x, Frame(b) + y;
    assert s[..PREFIX_SIZE] == t[..PREFIX_SIZE];
    assert s[..PREFIX_SIZE] == LittleEndian(|a|, PREFIX_SIZE) && t[..PREFIX_SIZE] == LittleEndian(|b|, PREFIX_SIZE);
    assert Pow256(8) == U64_LIMIT;
    LittleEndianRoundTrip(|a|, PREFIX_SIZE);
    LittleEndianRoundTrip(|b|, PREFIX_SIZE);
    var n := PREFIX_SIZE + |a|;
    assert s[PREFIX_SIZE..n] == a && t[PREFIX_SIZE..n] == b;
    assert s[n..] == x && t[n..] == y;
  }

  /** Framing is uniquely decodable: a frame sequence inside another's prefix is its prefix. */
  lemma {:induction false} FramesPrefixFree(a: seq<Message>, b: seq<Message>)
    requires Frames(a) <= Frames(b)
    requires forall i | 0 <= i < |a| :: |a[i]| < U64_LIMIT
    requires forall i | 0 <= i < |b| :: |b[i]| < U64_LIMIT
    ensures a <= b
  {
    if a != [] {
      assert |Frames(a)| >= PREFIX_SIZE;
      assert b != [];
      FrameUnique(a[0], Frames(a[1..]), b[0], Frames(b[1..]));
      FramesPrefixFree(a[1..], b[1..]);
      assert a == [a[0]] + a[1..] && b == [b[0]] + b[1..];
    }
  }

  /** The receiving session hands out, at every point, a prefix of what the sender put on it. */
  ghost predicate InOrder(inbound: Inbound, packets: seq<seq<Byte>>) {
    forall k: nat :: Taken(inbound, 0, k) <= Flatten(packets)
  }

  /** Framing end to end, for every behaviour of both sessions: whatever the sender managed to send
      and wherever the packets were cut, the receiver's messages are the sender's first messages,
      provided no successful receive lost cached bytes to a timeout. */
  lemma FramingEndToEnd(ms: seq<Message>, outbound: Outbound, inbound: Inbound, rooms: seq<nat>)
    requires Sendable(ms)
    requires InOrder(inbound, SendMessages(ms, outbound, 0).packets)
    requires ReceiveMessages([], inbound, 0, rooms).dropped == []
    ensures ReceiveMessages([], inbound, 0, rooms).messages <= ms
  {
    var inbox := ReceiveMessages([], inbound, 0, rooms);
    SendMessagesExact(ms, outbound, 0);
    ReceiveMessagesTakesFrames([], inbound, 0, rooms);
    assert Taken(inbound, 0, inbox.cursor) <= Flatten(SendMessages(ms, outbound, 0).packets);
    FramesPrefixFree(inbox.messages, ms);
  }

  lemma {:induction false} MessageCount(cache: seq<Byte>, script: Inbound, cursor: nat, rooms: seq<nat>)
    ensures var inbox := ReceiveMessages(cache, script, cursor, rooms);
            |inbox.messages| <= |rooms| && (inbox.result == Success <==> |inbox.messages| == |rooms|)
    decreases |rooms|
  {
    if rooms != [] {
      var f := ReceiveFramed(cache, script, cursor, rooms[0]);
      MessageCount(f.cache, script, f.cursor, rooms[1..]);
    }
  }

  /** For every behaviour of both sessions, whatever packet boundaries, timeouts and retries, and as
      many receives as messages, none of which lost cached bytes: all receives succeed if and only if
      exactly the sent messages arrive. */
  lemma FramingExact(ms: seq<Message>, outbound: Outbound, inbound: Inbound, rooms: seq<nat>)
    requires Sendable(ms) && |rooms| == |ms|
    requires InOrder(inbound, SendMessages(ms, outbound, 0).packets)
    requires ReceiveMessages([], inbound, 0, rooms).dropped == []
    ensures ReceiveMessages([], inbound, 0, rooms).result == Success <==> ReceiveMessages([], inbound, 0, rooms).messages == ms
  {
    FramingEndToEnd(ms, outbound, inbound, rooms);
    MessageCount([], inbound, 0, rooms);
  }

  lemma ReceiveFramedSucceeds(cache: seq<Byte>, script: Inbound, cursor: nat, end: nat, m: Message, more: seq<Byte>, room: nat)
    requires cursor <= end && (forall i | cursor <= i < end :: script(i).Delivered?)
    requires |m| <= room && |m| < U64_LIMIT
    requires cache + Taken(script, cursor, end) == Frame(m) + more
    ensures var f := ReceiveFramed(cache, script, cursor, room);
            && f.result == Success && f.dropped == [] && f.message == m && cursor <= f.cursor <= end
            && f.cache + Taken(script, f.cursor, end) == more
  {
    var p := ReceiveAll(cache, script, cursor, PREFIX_SIZE, 0);
    ReceiveAllSucceeds(cache, script, cursor, end, PREFIX_SIZE, 0);
    ReceiveAllShape(cache, script, cursor, PREFIX_SIZE, 0);
    ReceiveAllConserves(cache, script, cursor, PREFIX_SIZE, 0);
    StreamAfter(cache, script, cursor, p.cursor, end, p.dropped + p.data, p.cache);
    assert p.dropped + p.data == p.data;
    Regroup(LittleEndian(|m|, PREFIX_SIZE), m, more);
    SplitEqual(p.data, p.cache + Taken(script, p.cursor, end), LittleEndian(|m|, PREFIX_SIZE), m + more);
    assert Pow256(8) == U64_LIMIT;
    LittleEndianRoundTrip(|m|, PREFIX_SIZE);
    var q := ReceiveAll(p.cache, script, p.cursor, |m|, 0);
    ReceiveAllSucceeds(p.cache, script, p.cursor, end, |m|, 0);
    ReceiveAllShape(p.cache, script, p.cursor, |m|, 0);
    ReceiveAllConserves(p.cache, script, p.cursor, |m|, 0);
    StreamAfter(p.cache, script, p.cursor, q.cursor, end, q.dropped + q.data, q.cache);
    assert q.dropped + q.data == q.data;
    SplitEqual(q.data, q.cache + Taken(script, q.cursor, end), m, more);
  }

  /** A message that is larger than the buffer is refused after its prefix, and nothing more of it is
      taken off the stream. */
  lemma ReceiveFramedTooSmall(cache: seq<Byte>, script: Inbound, cursor: nat, end: nat, m: Message, more: seq<Byte>, room: nat)
    requires cursor <= end && (forall i | cursor <= i < end :: script(i).Delivered?)
    requires room < |m| < U64_LIMIT && cache + Taken(script, cursor, end) == Frame(m) + more
    ensures var f := ReceiveFramed(cache, script, cursor, room);
            && f.result == BufferTooSmall && f.message == [] && f.dropped == [] && cursor <= f.cursor <= end
            && f.cache + Taken(script, f.cursor, end) == m + more
  {
    var p := ReceiveAll(cache, script, cursor, PREFIX_SIZE, 0);
    ReceiveAllSucceeds(cache, script, cursor, end, PREFIX_SIZE, 0);
    ReceiveAllShape(cache, script, cursor, PREFIX_SIZE, 0);
    ReceiveAllConserves(cache, script, cursor, PREFIX_SIZE, 0);
    StreamAfter(cache, script, cursor, p.cursor, end, p.dropped + p.data, p.cache);
    assert p.dropped + p.data == p.data;
    Regroup(LittleEndian(|m|, PREFIX_SIZE), m, more);
    SplitEqual(p.data, p.cache + Taken(script, p.cursor, end), LittleEndian(|m|, PREFIX_SIZE), m + more);
    assert Pow256(8) == U64_LIMIT;
    LittleEndianRoundTrip(|m|, PREFIX_SIZE);
  }

  lemma StreamAfter(cache: seq<Byte>, script: Inbound, a: nat, b: nat, end: nat, data: seq<Byte>, rest: seq<Byte>)
    requires a <= b <= end && cache + Taken(script, a, b) == data + rest
    ensures cache + Taken(script, a, end) == data + (rest + Taken(script, b, end))
  {
    TakenSplit(script, a, b, end);
    Regroup(cache, Taken(script, a, b), Taken(script, b, end));
    Regroup(data, rest, Taken(script, b, end));
  }

  lemma SplitEqual<T>(a: seq<T>, x: seq<T>, b: seq<T>, y: seq<T>)
    requires a + x == b + y && |a| == |b|
    ensures a == b && x == y
  {
    assert a == (a + x)[..|a|] && b == (b + y)[..|b|];
    assert x == (a + x)[|a|..] && y == (b + y)[|b|..];
  }

  lemma {:induction false} ReceiveMessagesSucceeds(cache: seq<Byte>, script: Inbound, cursor: nat, end: nat, ms: seq<Message>, rooms: seq<nat>)
    requires cursor <= end && (forall i | cursor <= i < end :: script(i).Delivered?)
    requires |rooms| == |ms| && (forall i | 0 <= i < |ms| :: |ms[i]| <= rooms[i] && |ms[i]| < U64_LIMIT)
    requires cache + Taken(script, cursor, end) == Frames(ms)
    ensures var inbox := ReceiveMessages(cache, script, cursor, rooms);
            inbox.result == Success && inbox.messages == ms && inbox.dropped == []
    decreases |ms|
  {
    if ms != [] {
      var tail := Frames(ms[1..]);
      ReceiveFramedSucceeds(cache, script, cursor, end, ms[0], tail, rooms[0]);
      var f := ReceiveFramed(cache, script, cursor, rooms[0]);
      ReceiveMessagesSucceeds(f.cache, script, f.cursor, end, ms[1..], rooms[1..]);
      ReceiveMessagesStep(cache, script, cursor, rooms, f);
      assert ms == [ms[0]] + ms[1..];
    }
  }

  lemma ReceiveMessagesStep(cache: seq<Byte>, script: Inbound, cursor: nat, rooms: seq<nat>, f: FrameReceipt)
    requires rooms != [] && f == ReceiveFramed(cache, script, cursor, rooms[0]) && f.result == Success
    ensures var rest := ReceiveMessages(f.cache, script, f.cursor, rooms[1..]);
            ReceiveMessages(cache, script, cursor, rooms)
            == rest.(messages := [f.message] + rest.messages, dropped := f.dropped + rest.dropped)
  {
  }

  /** When the session delivers what was sent without timing out, however it cuts the packets anew, and
      the buffers are large enough, every message arrives: the framed receives succeed and give back
      the very sequence sent. */
  lemma FramingComplete(ms: seq<Message>, outbound: Outbound, inbound: Inbound, end: nat, rooms: seq<nat>)
    requires Sendable(ms) && SendMessages(ms, outbound, 0).result == Success
    requires Taken(inbound, 0, end) == Flatten(SendMessages(ms, outbound, 0).packets)
    requires forall i | 0 <= i < end :: inbound(i).Delivered?
    requires |rooms| == |ms| && forall i | 0 <= i < |ms| :: |ms[i]| <= rooms[i]
    ensures ReceiveMessages([], inbound, 0, rooms).result == Success
    ensures ReceiveMessages([], inbound, 0, rooms).messages == ms
  {
    SendMessagesExact(ms, outbound, 0);
    assert [] + Taken(inbound, 0, end) == Taken(inbound, 0, end);
    ReceiveMessagesSucceeds([], inbound, 0, end, ms, rooms);
  }
}
