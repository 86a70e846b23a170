/** The client socket of apis/ddSocket/src/ddSocket.cpp: the payload cache updated in place and the
    loops of the raw, blocking and framed calls, each proved against its function in SocketStream
    and SocketFraming. */
module ClientSocket {
  import opened Bytes
  import opened SocketStream
  import opened SocketFraming

  /** The packet session under a socket, with the answers it will give. */
  class Session {
    const inbound: Inbound
    const outbound: Outbound
    var receives: nat
    var sends: nat
    var packets: seq<seq<Byte>>

    constructor (inbound: Inbound, outbound: Outbound)
      ensures this.inbound == inbound && this.outbound == outbound
      ensures receives == 0 && sends == 0 && packets == []
    {
      this.inbound, this.outbound := inbound, outbound;
      receives, sends, packets := 0, 0, [];
    }

    method Send(payload: seq<Byte>) returns (o: SendOutcome)
      modifies this
      ensures o == outbound(old(sends)) && sends == old(sends) + 1 && receives == old(receives)
      ensures packets == old(packets) + if o.Accepted? then [payload] else []
    {
      o := outbound(sends);
      sends := sends + 1;
      if o.Accepted? { packets := packets + [payload]; }
    }

    /** Receive one payload into a buffer that has room for a maximal one. */
    method Receive(buffer: array<Byte>, start: nat) returns (o: Outcome)
      requires start + MAX_PAYLOAD <= buffer.Length
      modifies this, buffer
      ensures o == inbound(old(receives)) && receives == old(receives) + 1
      ensures sends == old(sends) && packets == old(packets)
      ensures buffer[..] == Written(old(buffer[..]), start, PayloadOf(o))
    {
      o := inbound(receives);
      receives := receives + 1;
      CopyInto(buffer, start, PayloadOf(o));
    }
  }

  /** A buffer whose head holds these bytes and which is as it was from a position on. */
  ghost predicate HeadOnly(buf: seq<Byte>, head: seq<Byte>, hi: nat, was: seq<Byte>) {
    |head| <= hi <= |buf| == |was| && buf[..|head|] == head && buf[hi..] == was[hi..]
  }

  /** Writing src behind the bytes done extends them and touches nothing from hi on. */
  lemma WrittenBehind(s: seq<Byte>, done: seq<Byte>, src: seq<Byte>, hi: nat, was: seq<Byte>, after: seq<Byte>)
    requires HeadOnly(s, done, hi, was) && |done| + |src| <= hi && after == Written(s, |done|, src)
    ensures HeadOnly(after, done, hi, was) && HeadOnly(after, done + [], hi, was) && HeadOnly(after, done + src, hi, was)
  {
    assert done + [] == done;
  }

  /** The rest of a blocking receive: `all` is what remains to come, after the bytes done. */
  ghost predicate Pending(all: Receipt, done: seq<Byte>, cache: seq<Byte>, script: Inbound, cursor: nat, left: nat, retries: nat) {
    var rest := ReceiveAll(cache, script, cursor, left, retries);
    all.result == rest.result && all.data == done + rest.data && all.cache == rest.cache && all.cursor == rest.cursor
  }

  lemma PendingStep(all: Receipt, done: seq<Byte>, cache: seq<Byte>, script: Inbound, cursor: nat, left: nat, retries: nat)
    requires left > 0 && Pending(all, done, cache, script, cursor, left, retries)
    ensures var r := SocketStream.ReceiveRaw(cache, script, cursor, left);
            && (r.result == Success ==> 0 < |r.data| <= left && r.dropped == []
                                        && Pending(all, done + r.data, r.cache, script, r.cursor, left - |r.data|, retries))
            && (r.result == NotReady && retries < MAX_RETRIES ==> Pending(all, done + [], r.cache, script, r.cursor, left, retries + 1))
            && (!Continues(r.result, retries) ==> all.result == r.result && all.cache == r.cache && all.cursor == r.cursor)
  {
    var r := SocketStream.ReceiveRaw(cache, script, cursor, left);
    ReceiveRawShape(cache, script, cursor, left);
    assert done + [] == done;
    if r.result == Success {
      Regroup(done, r.data, ReceiveAll(r.cache, script, r.cursor, left - |r.data|, retries).data);
    }
  }

  /** The state of the blocking receive between two rounds. */
  ghost predicate Looping(all: Receipt, done: seq<Byte>, cache: seq<Byte>, script: Inbound, cursor: nat, left: nat, retries: nat, r: Result) {
    if r == Success then Pending(all, done, cache, script, cursor, left, retries)
    else r == all.result && cache == all.cache && cursor == all.cursor
  }

  lemma HeadSlices(buf: seq<Byte>, head: seq<Byte>, hi: nat, was: seq<Byte>)
    requires HeadOnly(buf, head, hi, was)
    ensures buf[hi..] == was[hi..] && (|head| == hi ==> buf[..hi] == head)
  {
  }

  lemma PendingStart(all: Receipt, cache: seq<Byte>, script: Inbound, cursor: nat, want: nat)
    requires all == ReceiveAll(cache, script, cursor, want, 0)
    ensures Pending(all, [], cache, script, cursor, want, 0)
  {
    assert [] + all.data == all.data;
  }

  lemma PendingDone(all: Receipt, done: seq<Byte>, cache: seq<Byte>, script: Inbound, cursor: nat, retries: nat)
    requires Pending(all, done, cache, script, cursor, 0, retries)
    ensures all.result == Success && all.data == done && all.cache == cache && all.cursor == cursor
  {
    assert done + [] == done;
  }

  /** A raw receive leads to the next state: with its data, with one more retry, or to the failure. */
  lemma PendingRound(all: Receipt, done: seq<Byte>, cache: seq<Byte>, script: Inbound, cursor: nat, left: nat, tries: nat, raw: Receipt)
    requires left > 0 && Pending(all, done, cache, script, cursor, left, tries) && raw == SocketStream.ReceiveRaw(cache, script, cursor, left)
    ensures raw.result == Success ==>
              0 < |raw.data| <= left && raw.dropped == [] && Looping(all, done + raw.data, raw.cache, script, raw.cursor, left - |raw.data|, tries, Success)
    ensures raw.result == NotReady && tries < MAX_RETRIES ==> Looping(all, done + [], raw.cache, script, raw.cursor, left, tries + 1, Success)
    ensures !Continues(raw.result, tries) ==> Looping(all, done + [], raw.cache, script, raw.cursor, left, tries, raw.result)
  {
    PendingStep(all, done, cache, script, cursor, left, tries);
  }

  ghost predicate PendingSend(all: Dispatch, out: seq<seq<Byte>>, left: seq<Byte>, script: Outbound, cursor: nat, timeout: nat, retries: nat)
    requires |left| < U32_LIMIT
  {
    var rest := SendAll(left, script, cursor, timeout, retries);
    all.result == rest.result && all.packets == out + rest.packets && all.cursor == rest.cursor
  }

  lemma PendingSendStep(all: Dispatch, out: seq<seq<Byte>>, left: seq<Byte>, script: Outbound, cursor: nat, timeout: nat, retries: nat)
    requires 0 < |left| < U32_LIMIT && PendingSend(all, out, left, script, cursor, timeout, retries)
    ensures var d := SocketStream.SendRaw(left, script, cursor, timeout);
            && (d.result == Success ==> 0 < d.sent <= |left|
                                        && PendingSend(all, out + d.packets, left[d.sent..], script, d.cursor, timeout, retries))
            && (d.result == NotReady && retries < MAX_RETRIES ==>
                  PendingSend(all, out + d.packets, left, script, d.cursor, timeout, retries + 1))
            && (!Continues(d.result, retries) ==> all.result == d.result && all.packets == out + d.packets && all.cursor == d.cursor)
  {
    SendRawExact(left, script, cursor, timeout);
    var d := SocketStream.SendRaw(left, script, cursor, timeout);
    if d.result == Success {
      Regroup(out, d.packets, SendAll(left[d.sent..], script, d.cursor, timeout, retries).packets);
    } else if d.result == NotReady && retries < MAX_RETRIES {
      Regroup(out, d.packets, SendAll(left, script, d.cursor, timeout, retries + 1).packets);
    }
  }

  lemma WrittenTwice(s: seq<Byte>, start: nat, a: seq<Byte>, b: seq<Byte>)
    requires start + |a| + |b| <= |s|
    ensures Written(Written(s, start, a), start + |a|, b) == Written(s, start, a + b)
  {
  }

  class ClientSocketContext {
    const session: Session
    const payloadCache: array<Byte>
    var payloadCacheOffset: nat
    var payloadCacheSize: nat

    ghost predicate Valid()
      reads this
    {
      payloadCache.Length == MAX_PAYLOAD && payloadCacheOffset + payloadCacheSize <= MAX_PAYLOAD
    }

    function Cache(): seq<Byte>
      requires Valid()
      reads this, payloadCache
    {
      payloadCache[payloadCacheOffset..payloadCacheOffset + payloadCacheSize]
    }

    constructor (session: Session)
      ensures Valid() && fresh(payloadCache) && this.session == session && Cache() == []
    {
      this.session := session;
      payloadCache := new Byte[MAX_PAYLOAD](_ => 0);
      payloadCacheOffset, payloadCacheSize := 0, 0;
    }

    /** Move up to `size` cached bytes into the caller's buffer. */
    method DrainCache(buffer: array<Byte>, start: nat, size: nat) returns (n: nat)
      requires Valid() && start + size <= buffer.Length && buffer != payloadCache
      modifies this, buffer
      ensures Valid() && n == Min(size, |old(Cache())|)
      ensures Cache() == old(Cache())[n..]
      ensures buffer[..] == Written(old(buffer[..]), start, old(Cache())[..n])
    {
      n := 0;
      if size > 0 && payloadCacheSize > 0 {
        n := Min(size, payloadCacheSize);
        ghost var cached := Cache();
        assert payloadCache[payloadCacheOffset..payloadCacheOffset + n] == cached[..n];
        CopyInto(buffer, start, payloadCache[payloadCacheOffset..payloadCacheOffset + n]);
        payloadCacheOffset := payloadCacheOffset + n;
        payloadCacheSize := payloadCacheSize - n;
        assert Cache() == cached[n..];
      } else {
        assert buffer[..] == Written(buffer[..], start, []);
      }
    }

    /** Receive a payload through the cache, for a caller whose buffer cannot take a maximal one. */
    method ReceiveThroughCache(buffer: array<Byte>, start: nat, room: nat) returns (o: Outcome, n: nat)
      requires Valid() && payloadCacheSize == 0 && room < MAX_PAYLOAD
      requires start + room <= buffer.Length && buffer != payloadCache
      modifies this, payloadCache, buffer, session
      ensures Valid() && o == session.inbound(old(session.receives)) && session.receives == old(session.receives) + 1
      ensures session.sends == old(session.sends) && session.packets == old(session.packets)
      ensures n == Min(room, |PayloadOf(o)|) && Cache() == PayloadOf(o)[n..]
      ensures buffer[..] == Written(old(buffer[..]), start, PayloadOf(o)[..n])
    {
      o := session.Receive(payloadCache, 0);
      if o.Delivered? {
        payloadCacheSize := payloadCacheSize + |o.payload|;
        payloadCacheOffset := 0;
        assert Cache() == o.payload;
      }
      n := DrainCache(buffer, start, room);
    }

    /** Receive a payload straight into a buffer with room for a maximal one, else through the cache. */
    method ReceivePayload(buffer: array<Byte>, start: nat, room: nat) returns (o: Outcome, n: nat)
      requires Valid() && payloadCacheSize == 0 && room > 0
      requires start + room <= buffer.Length && buffer != payloadCache
      modifies this, payloadCache, buffer, session
      ensures Valid() && o == session.inbound(old(session.receives)) && session.receives == old(session.receives) + 1
      ensures session.sends == old(session.sends) && session.packets == old(session.packets)
      ensures n == Min(room, |PayloadOf(o)|) && Cache() == PayloadOf(o)[n..]
      ensures buffer[..] == Written(old(buffer[..]), start, PayloadOf(o)[..n])
    {
      if room >= MAX_PAYLOAD {
        o := session.Receive(buffer, start);
        n := |PayloadOf(o)|;
        assert PayloadOf(o)[..n] == PayloadOf(o);
      } else {
        o, n := ReceiveThroughCache(buffer, start, room);
      }
    }

    /** A failing call leaves the cached bytes it drained in the caller's buffer, unreported. */
    method ReceiveRaw(buffer: array<Byte>, start: nat, size: nat) returns (r: Result, bytesReceived: nat)
      requires Valid() && start + size <= buffer.Length && buffer != payloadCache
      modifies this, payloadCache, buffer, session
      ensures Valid() && session.sends == old(session.sends) && session.packets == old(session.packets)
      ensures var spec := SocketStream.ReceiveRaw(old(Cache()), session.inbound, old(session.receives), size);
              && r == spec.result && Cache() == spec.cache && session.receives == spec.cursor
              && |spec.dropped + spec.data| <= size
              && buffer[..] == Written(old(buffer[..]), start, spec.dropped + spec.data)
              && (r == Success ==> bytesReceived == |spec.data|)
    {
      ghost var cached, contents, cursor := Cache(), buffer[..], session.receives;
      r := Success;
      bytesReceived := DrainCache(buffer, start, size);
      var bytesRemaining := size - bytesReceived;
      if bytesRemaining == 0 {
        RawFromCache(cached, session.inbound, cursor, size, contents, start, buffer[..]);
      } else {
        assert cached[..bytesReceived] == cached;
        ghost var drained := buffer[..];
        var o, n := ReceivePayload(buffer, start + bytesReceived, bytesRemaining);
        r := ResultOf(o);
        if r == Success { bytesReceived := bytesReceived + n; }
        RawFromSession(cached, session.inbound, cursor, size, o, n, contents, start, drained, buffer[..]);
      }
    }

    /** A raw receive behind the bytes `done`, whose outcome is `raw`. */
    method ReceiveBehind(buffer: array<Byte>, size: nat, bytesLeft: nat, ghost done: seq<Byte>, ghost was: seq<Byte>, ghost raw: Receipt)
      returns (r: Result, bytesRecv: nat)
      requires Valid() && |done| + bytesLeft == size <= buffer.Length && buffer != payloadCache && HeadOnly(buffer[..], done, size, was)
      requires raw == SocketStream.ReceiveRaw(Cache(), session.inbound, session.receives, bytesLeft)
      modifies this, payloadCache, buffer, session
      ensures Valid() && session.sends == old(session.sends) && session.packets == old(session.packets)
      ensures r == raw.result && Cache() == raw.cache && session.receives == raw.cursor && (r == Success ==> bytesRecv == |raw.data|)
      ensures HeadOnly(buffer[..], done + [], size, was) && (raw.dropped == [] ==> HeadOnly(buffer[..], done + raw.data, size, was))
    {
      ghost var before := buffer[..];
      r, bytesRecv := ReceiveRaw(buffer, size - bytesLeft, bytesLeft);
      WrittenBehind(before, done, raw.dropped + raw.data, size, was, buffer[..]);
      assert [] + raw.data == raw.data;
    }

    /** One round of the blocking receive, which has put the bytes `done` at the head of the buffer:
        a raw receive whose timeout is forgiven while retries are left. */
    method ReceiveRound(buffer: array<Byte>, size: nat, bytesLeft: nat, retryCount: nat, ghost all: Receipt, ghost done: seq<Byte>, ghost was: seq<Byte>)
      returns (r: Result, bytesRecv: nat, retries: nat, ghost got: seq<Byte>)
      requires Valid() && |done| + bytesLeft == size <= buffer.Length && buffer != payloadCache && bytesLeft > 0
      requires HeadOnly(buffer[..], done, size, was)
      requires Pending(all, done, Cache(), session.inbound, session.receives, bytesLeft, retryCount)
      modifies this, payloadCache, buffer, session
      ensures Valid() && session.sends == old(session.sends) && session.packets == old(session.packets)
      ensures bytesRecv == |got| <= bytesLeft && HeadOnly(buffer[..], done + got, size, was)
      ensures r == Success ==> bytesRecv > 0 || retryCount < retries <= MAX_RETRIES
      ensures Looping(all, done + got, Cache(), session.inbound, session.receives, bytesLeft - bytesRecv, retries, r)
    {
      ghost var raw := SocketStream.ReceiveRaw(Cache(), session.inbound, session.receives, bytesLeft);
      PendingRound(all, done, Cache(), session.inbound, session.receives, bytesLeft, retryCount, raw);
      r, bytesRecv := ReceiveBehind(buffer, size, bytesLeft, done, was, raw);
      if r == Success {
        retries, got := retryCount, raw.data;
      } else if r == NotReady && retryCount < MAX_RETRIES {
        r, bytesRecv, retries, got := Success, 0, retryCount + 1, [];
      } else {
        bytesRecv, retries, got := 0, retryCount, [];
      }
    }

    /** The blocking receive: on success the first `size` bytes of the buffer are the spec's data;
        nothing behind them changes in any case. */
    method ReceiveWithTimeout(buffer: array<Byte>, size: nat) returns (r: Result)
      requires Valid() && size <= buffer.Length && buffer != payloadCache
      modifies this, payloadCache, buffer, session
      ensures Valid() && session.sends == old(session.sends) && session.packets == old(session.packets)
      ensures var spec := ReceiveAll(old(Cache()), session.inbound, old(session.receives), size, 0);
              && r == spec.result && Cache() == spec.cache && session.receives == spec.cursor
              && (r == Success ==> buffer[..size] == spec.data)
      ensures buffer[size..] == old(buffer[size..])
    {
      ghost var all, was := ReceiveAll(Cache(), session.inbound, session.receives, size, 0), buffer[..];
      PendingStart(all, Cache(), session.inbound, session.receives, size);
      r := ReceiveLoop(buffer, size, all, was);
      HeadSlices(buffer[..], if r == Success then all.data else [], size, was);
    }

    /** Its loop: what is received lies at the head of the buffer, what is not is still pending. */
    method ReceiveLoop(buffer: array<Byte>, size: nat, ghost all: Receipt, ghost was: seq<Byte>) returns (r: Result)
      requires Valid() && size <= buffer.Length && buffer != payloadCache && HeadOnly(buffer[..], [], size, was)
      requires Pending(all, [], Cache(), session.inbound, session.receives, size, 0)
      modifies this, payloadCache, buffer, session
      ensures Valid() && session.sends == old(session.sends) && session.packets == old(session.packets)
      ensures r == all.result && Cache() == all.cache && session.receives == all.cursor
      ensures r == Success ==> |all.data| == size
      ensures HeadOnly(buffer[..], if r == Success then all.data else [], size, was)
    {
      r := Success;
      var bytesLeft: nat, retryCount: nat := size, 0;
      ghost var done := [];
      while r == Success && bytesLeft > 0
        invariant Valid() && session.sends == old(session.sends) && session.packets == old(session.packets)
        invariant |done| + bytesLeft == size && HeadOnly(buffer[..], done, size, was)
        invariant Looping(all, done, Cache(), session.inbound, session.receives, bytesLeft, retryCount, r)
        decreases r == Success, bytesLeft, MAX_RETRIES - retryCount
      {
        var bytesRecv;
        ghost var got;
        r, bytesRecv, retryCount, got := ReceiveRound(buffer, size, bytesLeft, retryCount, all, done, was);
        done := done + got;
        bytesLeft := bytesLeft - bytesRecv;
      }
      if r == Success { PendingDone(all, done, Cache(), session.inbound, session.receives, retryCount); }
    }

    /** The raw send; beyond 2^32 bytes its loop need not end (see NarrowingStopsTheSend). */
    method SendRaw(data: seq<Byte>, timeoutInMs: nat) returns (r: Result, bytesSent: nat)
      requires |data| < U32_LIMIT
      modifies session
      ensures session.receives == old(session.receives)
      ensures var spec := SocketStream.SendRaw(data, session.outbound, old(session.sends), timeoutInMs);
              && r == spec.result && session.packets == old(session.packets) + spec.packets && session.sends == spec.cursor
              && (r == Success ==> bytesSent == spec.sent)
    {
      r, bytesSent := Success, 0;
      var bytesRemaining, timeoutRemaining := |data|, timeoutInMs;
      ghost var s := SendState(Success, 0, timeoutInMs, [], session.sends);
      while bytesRemaining > 0 && r == Success
        invariant session.receives == old(session.receives)
        invariant bytesSent <= |data| && bytesRemaining == |data| - bytesSent
        invariant s == SendState(r, bytesSent, timeoutRemaining, s.packets, session.sends)
        invariant session.packets == old(session.packets) + s.packets
        invariant SendLoop(data, session.outbound, s)
               == SendLoop(data, session.outbound, SendState(Success, 0, timeoutInMs, [], old(session.sends)))
        decreases bytesRemaining, r == Success
      {
        var bytesToSend := Min(bytesRemaining % U32_LIMIT, MAX_PAYLOAD);
        s := SendStep(data, session.outbound, s);
        var o := session.Send(data[bytesSent..bytesSent + bytesToSend]);
        match o {
          case Accepted(elapsed) =>
            bytesSent := bytesSent + bytesToSend;
            bytesRemaining := |data| - bytesSent;
            if elapsed < timeoutRemaining {
              timeoutRemaining := timeoutRemaining - elapsed;
            } else if bytesRemaining > 0 {
              r := NotReady;
            }
          case Full => r := NotReady;
          case Refused(code) => r := Error(code);
        }
      }
      if bytesSent > 0 && r == NotReady { r := Success; }
    }

    method SendWithTimeout(data: seq<Byte>, timeoutMillis: nat) returns (r: Result)
      requires |data| < U32_LIMIT
      modifies session
      ensures session.receives == old(session.receives)
      ensures var timeout := if timeoutMillis == 0 then RETRY_TIMEOUT_MS else timeoutMillis;
              var spec := SendAll(data, session.outbound, old(session.sends), timeout, 0);
              r == spec.result && session.packets == old(session.packets) + spec.packets && session.sends == spec.cursor
    {
      var timeout := if timeoutMillis == 0 then RETRY_TIMEOUT_MS else timeoutMillis;
      r := Success;
      var left, retryCount := data, 0;
      ghost var all := SendAll(data, session.outbound, session.sends, timeout, 0);
      ghost var out: seq<seq<Byte>> := [];
      while r == Success && |left| > 0
        invariant session.receives == old(session.receives) && |left| < U32_LIMIT && retryCount <= MAX_RETRIES
        invariant session.packets == old(session.packets) + out
        invariant r == Success ==> PendingSend(all, out, left, session.outbound, session.sends, timeout, retryCount)
        invariant r != Success ==> r == all.result && out == all.packets && session.sends == all.cursor
        decreases r == Success, |left|, MAX_RETRIES - retryCount
      {
        ghost var raw := SocketStream.SendRaw(left, session.outbound, session.sends, timeout);
        PendingSendStep(all, out, left, session.outbound, session.sends, timeout, retryCount);
        var bytesSent;
        r, bytesSent := SendRaw(left, timeout);
        Regroup(old(session.packets), out, raw.packets);
        out := out + raw.packets;
        if r == Success {
          left := left[bytesSent..];
        } else if r == NotReady && retryCount < MAX_RETRIES {
          r := Success;
          retryCount := retryCount + 1;
        }
      }
    }

    method SendWithSizePrefix(data: seq<Byte>) returns (r: Result)
      requires |data| < U32_LIMIT
      modifies session
      ensures session.receives == old(session.receives)
      ensures var spec := SendFramed(data, session.outbound, old(session.sends));
              r == spec.result && session.packets == old(session.packets) + spec.packets && session.sends == spec.cursor
    {
      ghost var p := SendAll(LittleEndian(|data|, PREFIX_SIZE), session.outbound, session.sends, RETRY_TIMEOUT_MS, 0);
      ghost var q := SendAll(data, session.outbound, p.cursor, RETRY_TIMEOUT_MS, 0);
      FramedParts(data, session.outbound, session.sends, session.packets, p, q);
      r := SendWithTimeout(LittleEndian(|data|, PREFIX_SIZE), RETRY_TIMEOUT_MS);
      if r == Success {
        r := SendWithTimeout(data, RETRY_TIMEOUT_MS);
      }
    }

    /** Receive one message into a buffer; on success its size is the returned prefix. */
    method ReceiveWithSizePrefix(buffer: array<Byte>) returns (r: Result, sizePrefix: nat)
      requires Valid() && buffer != payloadCache
      modifies this, payloadCache, buffer, session
      ensures Valid() && session.sends == old(session.sends) && session.packets == old(session.packets)
      ensures var spec := ReceiveFramed(old(Cache()), session.inbound, old(session.receives), buffer.Length);
              && r == spec.result && Cache() == spec.cache && session.receives == spec.cursor
              && (r == Success ==> sizePrefix == |spec.message| <= buffer.Length && buffer[..sizePrefix] == spec.message)
    {
      var prefix := new Byte[PREFIX_SIZE](_ => 0);
      sizePrefix := 0;
      r := ReceiveWithTimeout(prefix, PREFIX_SIZE);
      if r == Success {
        assert prefix[..PREFIX_SIZE] == prefix[..];
        var n := FromLittleEndian(prefix[..]);
        if n <= buffer.Length {
          ReceiveAllShape(Cache(), session.inbound, session.receives, n, 0);
          r := ReceiveWithTimeout(buffer, n);
          if r == Success { sizePrefix := n; }
        } else {
          r := BufferTooSmall;
        }
      }
    }
  }

  /** Prefix and message are two dispatches one behind the other. */
  lemma FramedParts(m: seq<Byte>, script: Outbound, cursor: nat, before: seq<seq<Byte>>, p: Dispatch, q: Dispatch)
    requires |m| < U32_LIMIT
    requires p == SendAll(LittleEndian(|m|, PREFIX_SIZE), script, cursor, RETRY_TIMEOUT_MS, 0)
    requires q == SendAll(m, script, p.cursor, RETRY_TIMEOUT_MS, 0)
    ensures var spec := SendFramed(m, script, cursor);
            if p.result == Success
            then spec.result == q.result && spec.cursor == q.cursor && before + spec.packets == (before + p.packets) + q.packets
            else spec == p
  {
    Regroup(before, p.packets, q.packets);
  }

  lemma RawFromCache(cache: seq<Byte>, script: Inbound, cursor: nat, size: nat, contents: seq<Byte>, start: nat, after: seq<Byte>)
    requires size <= |cache| && start + size <= |contents| && after == Written(contents, start, cache[..size])
    ensures var spec := SocketStream.ReceiveRaw(cache, script, cursor, size);
            && spec == Receipt(Success, cache[..size], [], cache[size..], cursor, 1)
            && |spec.dropped + spec.data| <= size && after == Written(contents, start, spec.dropped + spec.data)
  {
    assert [] + cache[..size] == cache[..size];
  }

  lemma RawFromSession(cache: seq<Byte>, script: Inbound, cursor: nat, size: nat, o: Outcome, n: nat,
                       contents: seq<Byte>, start: nat, drained: seq<Byte>, after: seq<Byte>)
    requires |cache| < size && o == script(cursor) && n == Min(size - |cache|, |PayloadOf(o)|) && start + size <= |contents|
    requires drained == Written(contents, start, cache) && after == Written(drained, start + |cache|, PayloadOf(o)[..n])
    ensures var spec := SocketStream.ReceiveRaw(cache, script, cursor, size);
            && spec.result == ResultOf(o) && spec.cache == PayloadOf(o)[n..] && spec.cursor == cursor + 1
            && (o.Delivered? ==> |spec.data| == |cache| + n)
            && |spec.dropped + spec.data| <= size && after == Written(contents, start, spec.dropped + spec.data)
  {
    assert cache[..|cache|] == cache;
    WrittenTwice(contents, start, cache, PayloadOf(o)[..n]);
    var spec := SocketStream.ReceiveRaw(cache, script, cursor, size);
    assert spec.dropped + spec.data == cache + PayloadOf(o)[..n];
  }

  function ResultOf(o: Outcome): Result {
    match o
    case Delivered(_) => Success
    case TimedOut => NotReady
    case Broken(code) => Error(code)
  }
}
