/** How the blocking operations of a socket end, told from the answers of the session alone
    (apis/ddSocket/src/ddSocket.cpp): which error they return, and after which timeout they give up. */
module SocketEndings {
  import opened Bytes
  import opened SocketStream
  import opened SocketFraming

  // ---- Receiving ------------------------------------------------------------------------------

  /** How often the session timed out in its calls from..to. */
  function TimeoutCount(script: Inbound, from: nat, to: nat): nat
    decreases to
  {
    if to <= from then 0 else TimeoutCount(script, from, to - 1) + if script(to - 1).TimedOut? then 1 else 0
  }

  lemma {:induction false} TimeoutSplit(script: Inbound, a: nat, b: nat, c: nat)
    requires a <= b <= c
    ensures TimeoutCount(script, a, c) == TimeoutCount(script, a, b) + TimeoutCount(script, b, c)
    decreases c
  {
    if b < c { TimeoutSplit(script, a, b, c - 1); }
  }

  lemma OneTimeout(script: Inbound, i: nat)
    ensures TimeoutCount(script, i, i) == 0
    ensures TimeoutCount(script, i, i + 1) == if script(i).TimedOut? then 1 else 0
  {
  }

  /** A receive ended as its last session call says: with that call's error, or with the ninth timeout;
      no earlier call was an error, and otherwise it succeeded. */
  ghost predicate EndsReceive(result: Result, script: Inbound, from: nat, to: nat, timeouts: nat) {
    && from <= to && (forall i | from <= i < to - 1 :: !script(i).Broken?)
    && (forall code :: result == Error(code) <==> from < to && script(to - 1) == Broken(code))
    && (result == NotReady <==> from < to && script(to - 1) == TimedOut && timeouts == 9)
    && timeouts <= 9 && result != BufferTooSmall && (result == Success && from < to ==> !script(to - 1).Broken?)
  }

  /** One more session call in front, which the receive went on after. */
  lemma EndsLater(result: Result, script: Inbound, from: nat, to: nat, timeouts: nat)
    requires EndsReceive(result, script, from + 1, to, timeouts) && !script(from).Broken?
    requires from + 1 == to ==> result == Success && script(from).Delivered?
    ensures EndsReceive(result, script, from, to, timeouts)
  {
  }

  /** A failing session is asked once, and its error is returned. */
  lemma BrokenEndsAtOnce(cache: seq<Byte>, script: Inbound, cursor: nat, want: nat, code: nat)
    requires |cache| < want && script(cursor) == Broken(code)
    ensures var r := ReceiveAll(cache, script, cursor, want, 0);
            r.result == Error(code) && r.calls == 1 && r.cursor == cursor + 1 && r.data == []
  {
  }

  /** The raw receive, from its session call: the error of the session, or NotReady for a timeout. */
  lemma RawEnds(cache: seq<Byte>, script: Inbound, cursor: nat, size: nat)
    ensures var r := ReceiveRaw(cache, script, cursor, size);
            if size <= |cache| then r.result == Success && r.cursor == cursor
            else
              && r.cursor == cursor + 1
              && (r.result == Success <==> script(cursor).Delivered?)
              && (r.result == NotReady <==> script(cursor) == TimedOut)
              && (forall code :: r.result == Error(code) <==> script(cursor) == Broken(code))
              && (r.result != Success ==> r.cache == [])
  {
  }

  /** Without a cache there is at least one more call. */
  lemma CallsAgain(script: Inbound, cursor: nat, want: nat, retries: nat)
    requires want > 0
    ensures ReceiveAll([], script, cursor, want, retries).cursor > cursor
  {
    var r := ReceiveRaw([], script, cursor, want);
    RawEnds([], script, cursor, want);
    if r.result == Success {
      ReceiveRawShape([], script, cursor, want);
      ReceiveAllShape(r.cache, script, r.cursor, want - |r.data|, retries);
    } else if r.result == NotReady && retries < MAX_RETRIES {
      ReceiveAllShape(r.cache, script, r.cursor, want, retries + 1);
    }
  }

  /** The ending of one blocking receive. */
  ghost predicate ReceiveEnding(cache: seq<Byte>, script: Inbound, cursor: nat, want: nat, retries: nat) {
    var r := ReceiveAll(cache, script, cursor, want, retries);
    EndsReceive(r.result, script, cursor, r.cursor, retries + TimeoutCount(script, cursor, r.cursor))
  }

  lemma EndingAfterCache(cache: seq<Byte>, script: Inbound, cursor: nat, want: nat, retries: nat, r: Receipt)
    requires 0 < want <= |cache| && r == ReceiveRaw(cache, script, cursor, want)
    requires ReceiveEnding(r.cache, script, r.cursor, want - |r.data|, retries)
    ensures ReceiveEnding(cache, script, cursor, want, retries)
  {
    RawEnds(cache, script, cursor, want);
  }

  lemma AllAfterData(cache: seq<Byte>, script: Inbound, cursor: nat, want: nat, retries: nat, r: Receipt, left: nat)
    requires |cache| < want && script(cursor).Delivered? && r == ReceiveRaw(cache, script, cursor, want) && left + |r.data| == want
    ensures var all, rest := ReceiveAll(cache, script, cursor, want, retries), ReceiveAll(r.cache, script, cursor + 1, left, retries);
            all.result == rest.result && all.cursor == rest.cursor
    ensures left > 0 ==> r.cache == []
  {
    RawEnds(cache, script, cursor, want);
    ReceiveRawShape(cache, script, cursor, want);
  }

  lemma EndingAfterData(cache: seq<Byte>, script: Inbound, cursor: nat, want: nat, retries: nat, r: Receipt, left: nat)
    requires |cache| < want && script(cursor).Delivered? && r == ReceiveRaw(cache, script, cursor, want) && left + |r.data| == want
    requires ReceiveEnding(r.cache, script, cursor + 1, left, retries)
    ensures ReceiveEnding(cache, script, cursor, want, retries)
  {
    AllAfterData(cache, script, cursor, want, retries, r, left);
    var rest := ReceiveAll(r.cache, script, cursor + 1, left, retries);
    EndingOfRest(r.cache, script, cursor + 1, left, retries, rest);
    OneTimeout(script, cursor);
    TimeoutSplit(script, cursor, cursor + 1, rest.cursor);
    EndsLater(rest.result, script, cursor, rest.cursor, retries + TimeoutCount(script, cursor, rest.cursor));
  }

  /** An ending as values; without calls there was nothing to receive. */
  lemma EndingOfRest(cache: seq<Byte>, script: Inbound, cursor: nat, left: nat, retries: nat, rest: Receipt)
    requires ReceiveEnding(cache, script, cursor, left, retries) && rest == ReceiveAll(cache, script, cursor, left, retries)
    requires left > 0 ==> cache == []
    ensures EndsReceive(rest.result, script, cursor, rest.cursor, retries + TimeoutCount(script, cursor, rest.cursor))
    ensures cursor == rest.cursor ==> rest.result == Success
  {
    if left > 0 { CallsAgain(script, cursor, left, retries); }
  }

  lemma EndingAfterTimeout(cache: seq<Byte>, script: Inbound, cursor: nat, want: nat, retries: nat, r: Receipt)
    requires |cache| < want && script(cursor).TimedOut? && r == ReceiveRaw(cache, script, cursor, want) && retries < MAX_RETRIES
    requires ReceiveEnding(r.cache, script, r.cursor, want, retries + 1)
    ensures ReceiveEnding(cache, script, cursor, want, retries)
  {
    RawEnds(cache, script, cursor, want);
    var rest := ReceiveAll([], script, cursor + 1, want, retries + 1);
    CallsAgain(script, cursor + 1, want, retries + 1);
    OneTimeout(script, cursor);
    TimeoutSplit(script, cursor, cursor + 1, rest.cursor);
    EndsLater(rest.result, script, cursor, rest.cursor, retries + TimeoutCount(script, cursor, rest.cursor));
  }

  lemma EndingAtOnce(cache: seq<Byte>, script: Inbound, cursor: nat, want: nat, retries: nat)
    requires want == 0 || (|cache| < want && (script(cursor).Broken? || (script(cursor).TimedOut? && retries == 8)))
    requires retries <= 8
    ensures ReceiveEnding(cache, script, cursor, want, retries)
  {
    OneTimeout(script, cursor);
    if want > 0 { RawEnds(cache, script, cursor, want); }
  }

  /** How a blocking receive ends, for every session: with an error exactly if the last session call
      answered that error, with NotReady exactly if the last call was the ninth timeout, and else with
      success. Cached bytes alone never fail. */
  lemma {:induction false} ReceiveEnds(cache: seq<Byte>, script: Inbound, cursor: nat, want: nat, retries: nat)
    requires retries <= 8
    ensures ReceiveEnding(cache, script, cursor, want, retries)
    decreases want, MAX_RETRIES - retries
  {
    if want == 0 || (|cache| < want && (script(cursor).Broken? || (script(cursor).TimedOut? && retries == 8))) {
      EndingAtOnce(cache, script, cursor, want, retries);
    } else {
      var r := ReceiveRaw(cache, script, cursor, want);
      ReceiveRawShape(cache, script, cursor, want);
      RawEnds(cache, script, cursor, want);
      if |cache| < want && script(cursor).TimedOut? {
        ReceiveEnds(r.cache, script, r.cursor, want, retries + 1);
        EndingAfterTimeout(cache, script, cursor, want, retries, r);
      } else {
        ReceiveEnds(r.cache, script, r.cursor, want - |r.data|, retries);
        if want <= |cache| { EndingAfterCache(cache, script, cursor, want, retries, r); } else { EndingAfterData(cache, script, cursor, want, retries, r, want - |r.data|); }
      }
    }
  }

  /** The same written out for the call as it is made: its result in terms of the session's answers. */
  lemma BlockingReceiveEnds(cache: seq<Byte>, script: Inbound, cursor: nat, want: nat)
    ensures var r := ReceiveAll(cache, script, cursor, want, 0);
            && cursor <= r.cursor && (forall i | cursor <= i < r.cursor - 1 :: !script(i).Broken?)
            && (forall code :: r.result == Error(code) <==> cursor < r.cursor && script(r.cursor - 1) == Broken(code))
            && (r.result == NotReady <==> cursor < r.cursor && script(r.cursor - 1) == TimedOut && TimeoutCount(script, cursor, r.cursor) == 9)
            && (r.result == Success || r.result == NotReady || r.result.Error?)
  {
    ReceiveEnds(cache, script, cursor, want, 0);
  }

  /** Up to eight timeouts are forgiven: a session that does not break and hands out enough bytes is
      received from in full, whatever the cache held. */
  lemma {:induction false} ReceiveForgives(cache: seq<Byte>, script: Inbound, cursor: nat, end: nat, want: nat, retries: nat)
    requires cursor <= end && (forall i | cursor <= i < end :: !script(i).Broken?)
    requires retries + TimeoutCount(script, cursor, end) <= 8 && want <= |Taken(script, cursor, end)|
    ensures var r := ReceiveAll(cache, script, cursor, want, retries);
            r.result == Success && |r.data| == want && r.cursor <= end
    decreases want, MAX_RETRIES - retries
  {
    if want > 0 {
      var r := ReceiveRaw(cache, script, cursor, want);
      RawEnds(cache, script, cursor, want);
      ReceiveRawShape(cache, script, cursor, want);
      if want <= |cache| {
        assert r.data == cache[..want];
      } else {
        assert cursor < end by { assert cursor == end ==> Taken(script, cursor, end) == []; }
        OneTimeout(script, cursor);
        TakenOne(script, cursor);
        TimeoutSplit(script, cursor, cursor + 1, end);
        TakenSplit(script, cursor, cursor + 1, end);
        if script(cursor).Delivered? {
          assert |r.data| == want || |r.data| >= |script(cursor).payload|;
          ReceiveForgives(r.cache, script, r.cursor, end, want - |r.data|, retries);
        } else {
          ReceiveForgives(r.cache, script, r.cursor, end, want, retries + 1);
        }
      }
    }
  }

  /** A receive behind one that succeeded. */
  lemma ChainReceive(script: Inbound, from: nat, mid: nat, to: nat, result: Result, timeouts: nat)
    requires from <= mid && (forall i | from <= i < mid :: !script(i).Broken?)
    requires EndsReceive(result, script, mid, to, timeouts)
    ensures from <= to && forall i | from <= i < to - 1 :: !script(i).Broken?
    ensures forall code :: result == Error(code) <==> from < to && script(to - 1) == Broken(code)
    ensures result == NotReady ==> from < to && script(to - 1) == TimedOut && timeouts == 9
  {
  }

  /** A call that succeeded had no error. */
  lemma NoneBroken(script: Inbound, from: nat, to: nat, timeouts: nat)
    requires EndsReceive(Success, script, from, to, timeouts)
    ensures forall i | from <= i < to :: !script(i).Broken?
  {
  }

  /** A framed receive ends with an error exactly if the last session call answered that error. */
  lemma FramedReceiveEnds(cache: seq<Byte>, script: Inbound, cursor: nat, room: nat)
    ensures var f := ReceiveFramed(cache, script, cursor, room);
            && cursor <= f.cursor && (forall i | cursor <= i < f.cursor - 1 :: !script(i).Broken?)
            && (forall code :: f.result == Error(code) <==> cursor < f.cursor && script(f.cursor - 1) == Broken(code))
            && (f.result == NotReady ==> cursor < f.cursor && script(f.cursor - 1) == TimedOut)
  {
    var p := ReceiveAll(cache, script, cursor, 8, 0);
    ReceiveEnds(cache, script, cursor, 8, 0);
    if p.result == Success {
      NoneBroken(script, cursor, p.cursor, 0 + TimeoutCount(script, cursor, p.cursor));
      var n := FromLittleEndian(p.data);
      if n <= room {
        var q := ReceiveAll(p.cache, script, p.cursor, n, 0);
        ReceiveEnds(p.cache, script, p.cursor, n, 0);
        ChainReceive(script, cursor, p.cursor, q.cursor, q.result, 0 + TimeoutCount(script, p.cursor, q.cursor));
      }
    }
  }

  // ---- Sending --------------------------------------------------------------------------------

  /** The clock of a blocking send: the time left to the raw send in progress, whether that has put
      nothing on the session yet, and how many raw sends ended so. */
  datatype Clock = Clock(left: nat, unsent: bool, idle: nat)

  function Tick(c: Clock, o: SendOutcome, timeout: nat): Clock {
    match o
    case Accepted(elapsed) => if elapsed < c.left then Clock(c.left - elapsed, false, c.idle) else Clock(timeout, true, c.idle)
    case Full => Clock(timeout, true, if c.unsent then c.idle + 1 else c.idle)
    case Refused(_) => c
  }

  function Clocked(script: Outbound, from: nat, to: nat, timeout: nat): Clock
    decreases to
  {
    if to <= from then Clock(timeout, true, 0) else Tick(Clocked(script, from, to - 1, timeout), script(to - 1), timeout)
  }

  /** A loop of a raw send in step with the clock. */
  ghost predicate InStep(s: SendState, c: Clock, idle: nat) {
    c == Clock(s.timeout, s.sent == 0, idle)
  }

  /** A raw send, from its state at some call to its end. */
  ghost predicate EndsRaw(e: SendState, script: Outbound, from: nat, at: nat, timeout: nat, idle: nat) {
    && at < e.cursor && (forall i | at <= i < e.cursor - 1 :: !script(i).Refused?)
    && (forall code :: e.result == Error(code) <==> script(e.cursor - 1) == Refused(code))
    && (e.result == NotReady ==> Clocked(script, from, e.cursor, timeout) == Clock(timeout, true, if e.sent == 0 then idle + 1 else idle))
    && (e.result == NotReady && e.sent == 0 ==> script(e.cursor - 1) == Full)
    && (e.result == Success ==> script(e.cursor - 1).Accepted?)
    && e.result != BufferTooSmall
  }

  lemma StepKeepsTime(data: seq<Byte>, script: Outbound, s: SendState, from: nat, timeout: nat, idle: nat)
    requires s.sent < |data| < U32_LIMIT && s.result == Success && from <= s.cursor
    requires InStep(s, Clocked(script, from, s.cursor, timeout), idle)
    ensures var s', o := SendStep(data, script, s), script(s.cursor);
            && s'.cursor == s.cursor + 1 && s.sent <= s'.sent
            && (s'.result == Success && s'.sent < |data| ==> o.Accepted? && InStep(s', Clocked(script, from, s'.cursor, timeout), idle))
            && (s'.result == Success ==> o.Accepted?)
            && (s'.result == NotReady ==> !o.Refused? && Clocked(script, from, s'.cursor, timeout) == Clock(timeout, true, if s'.sent == 0 then idle + 1 else idle))
            && (s'.result == NotReady && s'.sent == 0 ==> o == Full)
            && (forall code :: s'.result == Error(code) <==> o == Refused(code)) && s'.result != BufferTooSmall
  {
  }

  lemma {:induction false} LoopKeepsTime(data: seq<Byte>, script: Outbound, s: SendState, from: nat, timeout: nat, idle: nat)
    requires s.sent < |data| < U32_LIMIT && s.result == Success && from <= s.cursor
    requires InStep(s, Clocked(script, from, s.cursor, timeout), idle)
    ensures EndsRaw(SendLoop(data, script, s), script, from, s.cursor, timeout, idle)
    decreases |data| - s.sent
  {
    var s' := SendStep(data, script, s);
    StepKeepsTime(data, script, s, from, timeout, idle);
    if s'.result == Success && s'.sent < |data| {
      LoopKeepsTime(data, script, s', from, timeout, idle);
    }
  }

  /** A send ended as its last session call says: with that call's error, or with the ninth raw send that
      found the session full at once; no earlier call was an error, and otherwise it succeeded. */
  ghost predicate EndsSend(result: Result, script: Outbound, from: nat, at: nat, to: nat, timeout: nat) {
    && at <= to && (forall i | at <= i < to - 1 :: !script(i).Refused?)
    && (forall code :: result == Error(code) <==> at < to && script(to - 1) == Refused(code))
    && (result == NotReady <==> at < to && script(to - 1) == Full && Clocked(script, from, to, timeout).idle == 9)
    && result != BufferTooSmall && (result == Success && at < to ==> !script(to - 1).Refused?)
  }

  /** The end of the rest, after a raw send that was no error. */
  lemma EndsSendLater(result: Result, script: Outbound, from: nat, at: nat, mid: nat, to: nat, timeout: nat)
    requires at < mid < to && (forall i | at <= i < mid :: !script(i).Refused?)
    requires EndsSend(result, script, from, mid, to, timeout)
    ensures EndsSend(result, script, from, at, to, timeout)
  {
  }

  ghost predicate SendEnding(data: seq<Byte>, script: Outbound, from: nat, cursor: nat, timeout: nat, retries: nat)
    requires |data| < U32_LIMIT
  {
    var d := SendAll(data, script, cursor, timeout, retries);
    EndsSend(d.result, script, from, cursor, d.cursor, timeout) && (data != [] ==> cursor < d.cursor)
  }

  /** What SendAll makes of its first raw send. */
  lemma SendAllFirst(data: seq<Byte>, script: Outbound, cursor: nat, timeout: nat, retries: nat, e: SendState)
    requires 0 < |data| < U32_LIMIT && e == SendLoop(data, script, SendState(Success, 0, timeout, [], cursor))
    ensures var all := SendAll(data, script, cursor, timeout, retries);
            && e.sent <= |data|
            && (e.sent > 0 && !e.result.Error? && e.result != BufferTooSmall ==>
                  var rest := SendAll(data[e.sent..], script, e.cursor, timeout, retries);
                  all.result == rest.result && all.cursor == rest.cursor)
            && (e.sent == 0 && e.result == NotReady && retries < MAX_RETRIES ==>
                  var rest := SendAll(data, script, e.cursor, timeout, retries + 1);
                  all.result == rest.result && all.cursor == rest.cursor)
            && (e.result.Error? || (e.sent == 0 && e.result == NotReady && retries >= MAX_RETRIES) ==>
                  all.result == e.result && all.cursor == e.cursor)
            && (e.result == Success <==> e.sent == |data|)
            && (e.result == Success ==> all.result == Success && all.cursor == e.cursor)
  {
    SendLoopCarriesPrefix(data, script, SendState(Success, 0, timeout, [], cursor));
    SendRawExact(data, script, cursor, timeout);
  }

  /** Where the first raw send is the last. */
  lemma RawIsAll(e: SendState, script: Outbound, from: nat, at: nat, timeout: nat, idle: nat)
    requires EndsRaw(e, script, from, at, timeout, idle) && idle <= 8
    requires e.result == NotReady ==> e.sent == 0 && idle == 8
    ensures EndsSend(e.result, script, from, at, e.cursor, timeout)
  {
  }

  /** Where it is not. */
  lemma RawThenRest(e: SendState, script: Outbound, from: nat, at: nat, timeout: nat, idle: nat, result: Result, to: nat)
    requires EndsRaw(e, script, from, at, timeout, idle) && e.result == NotReady
    requires e.cursor < to && EndsSend(result, script, from, e.cursor, to, timeout)
    ensures EndsSend(result, script, from, at, to, timeout)
  {
    EndsSendLater(result, script, from, at, e.cursor, to, timeout);
  }

  /** How a blocking send ends, for every session and clock: with an error exactly if the last session
      call was refused with it, with NotReady exactly if the last call found the session full, for the
      ninth time before anything was sent, and else with success. */
  lemma {:induction false} SendEnds(data: seq<Byte>, script: Outbound, from: nat, cursor: nat, timeout: nat, retries: nat)
    requires |data| < U32_LIMIT && from <= cursor && retries <= 8
    requires Clocked(script, from, cursor, timeout) == Clock(timeout, true, retries)
    ensures SendEnding(data, script, from, cursor, timeout, retries)
    decreases |data|, MAX_RETRIES - retries
  {
    if data != [] {
      var s := SendState(Success, 0, timeout, [], cursor);
      var e := SendLoop(data, script, s);
      LoopKeepsTime(data, script, s, from, timeout, retries);
      SendAllFirst(data, script, cursor, timeout, retries, e);
      var all := SendAll(data, script, cursor, timeout, retries);
      if e.result == NotReady && e.sent > 0 {
        SendEnds(data[e.sent..], script, from, e.cursor, timeout, retries);
        RawThenRest(e, script, from, cursor, timeout, retries, all.result, all.cursor);
      } else if e.result == NotReady && retries < 8 {
        SendEnds(data, script, from, e.cursor, timeout, retries + 1);
        RawThenRest(e, script, from, cursor, timeout, retries, all.result, all.cursor);
      } else {
        RawIsAll(e, script, from, cursor, timeout, retries);
      }
    }
  }

  /** The same written out for the call as it is made. */
  lemma BlockingSendEnds(data: seq<Byte>, script: Outbound, cursor: nat, timeout: nat)
    requires |data| < U32_LIMIT
    ensures var d := SendAll(data, script, cursor, timeout, 0);
            && cursor <= d.cursor && (forall i | cursor <= i < d.cursor - 1 :: !script(i).Refused?)
            && (forall code :: d.result == Error(code) <==> cursor < d.cursor && script(d.cursor - 1) == Refused(code))
            && (d.result == NotReady <==> cursor < d.cursor && script(d.cursor - 1) == Full && Clocked(script, cursor, d.cursor, timeout).idle == 9)
            && (d.result == Success || d.result == NotReady || d.result.Error?)
  {
    SendEnds(data, script, cursor, cursor, timeout, 0);
  }

  /** So a session that refuses nothing and is found full at most eight times takes everything. */
  lemma SendForgives(data: seq<Byte>, script: Outbound, cursor: nat, timeout: nat)
    requires |data| < U32_LIMIT && forall i: nat :: !script(i).Refused?
    requires forall to: nat :: Clocked(script, cursor, to, timeout).idle <= 8
    ensures SendAll(data, script, cursor, timeout, 0).result == Success
    ensures Flatten(SendAll(data, script, cursor, timeout, 0).packets) == data
  {
    BlockingSendEnds(data, script, cursor, timeout);
    SendAllExact(data, script, cursor, timeout, 0);
  }

  /** A send behind one that succeeded. */
  lemma ChainSend(script: Outbound, from: nat, mid: nat, to: nat, result: Result, timeout: nat)
    requires EndsSend(Success, script, from, from, mid, timeout) && EndsSend(result, script, mid, mid, to, timeout)
    ensures from <= to && forall i | from <= i < to - 1 :: !script(i).Refused?
    ensures forall code :: result == Error(code) <==> from < to && script(to - 1) == Refused(code)
    ensures result == NotReady ==> from < to && script(to - 1) == Full
  {
  }

  /** A framed send ends with an error exactly if the last session call was refused with it. */
  lemma FramedSendEnds(m: Message, script: Outbound, cursor: nat)
    requires |m| < U32_LIMIT
    ensures var d := SendFramed(m, script, cursor);
            && cursor <= d.cursor && (forall i | cursor <= i < d.cursor - 1 :: !script(i).Refused?)
            && (forall code :: d.result == Error(code) <==> cursor < d.cursor && script(d.cursor - 1) == Refused(code))
            && (d.result == NotReady ==> cursor < d.cursor && script(d.cursor - 1) == Full)
  {
    var prefix := LittleEndian(|m|, 8);
    var p := SendAll(prefix, script, cursor, RETRY_TIMEOUT_MS, 0);
    SendEnds(prefix, script, cursor, cursor, RETRY_TIMEOUT_MS, 0);
    if p.result == Success {
      var q := SendAll(m, script, p.cursor, RETRY_TIMEOUT_MS, 0);
      SendEnds(m, script, p.cursor, p.cursor, RETRY_TIMEOUT_MS, 0);
      ChainSend(script, cursor, p.cursor, q.cursor, q.result, RETRY_TIMEOUT_MS);
    }
  }

  // ---- Packets --------------------------------------------------------------------------------

  /** Every packet is as large as the session and the data behind it allow. */
  ghost predicate FullPackets(packets: seq<seq<Byte>>, total: nat) {
    forall i | 0 <= i < |packets| :: Offset(packets, i) <= total && |packets[i]| == Min(1384, total - Offset(packets, i))
  }

  lemma OffsetConcat(a: seq<seq<Byte>>, b: seq<seq<Byte>>, i: nat)
    requires i <= |a| + |b|
    ensures Offset(a + b, i) == if i <= |a| then Offset(a, i) else |Flatten(a)| + Offset(b, i - |a|)
  {
    if i <= |a| {
      assert (a + b)[..i] == a[..i];
    } else {
      assert (a + b)[..i] == a + b[..i - |a|];
      FlattenConcat(a, b[..i - |a|]);
    }
  }

  lemma FullConcat(a: seq<seq<Byte>>, b: seq<seq<Byte>>, total: nat)
    requires FullPackets(a, total) && |Flatten(a)| <= total && FullPackets(b, total - |Flatten(a)|)
    ensures FullPackets(a + b, total)
  {
    forall i | 0 <= i < |a + b| ensures Offset(a + b, i) <= total && |(a + b)[i]| == Min(1384, total - Offset(a + b, i)) {
      OffsetConcat(a, b, i);
      if i >= |a| {
        FlattenWhole(a);
        assert b[..0] == [];
        assert (a + b)[i] == b[i - |a|] && Offset(a + b, i) == |Flatten(a)| + Offset(b, i - |a|);
      }
    }
  }

  lemma OnePacket(p: seq<Byte>, total: nat)
    requires |p| == Min(1384, total)
    ensures FullPackets([p], total)
  {
    var none: seq<seq<Byte>> := [];
    assert [p][..0] == none;
  }

  lemma StepPackets(data: seq<Byte>, script: Outbound, s: SendState)
    requires s.sent < |data| < U32_LIMIT && |Flatten(s.packets)| == s.sent && FullPackets(s.packets, |data|)
    ensures FullPackets(SendStep(data, script, s).packets, |data|)
  {
    if script(s.cursor).Accepted? {
      var p := data[s.sent..s.sent + NextPacketSize(|data| - s.sent)];
      OnePacket(p, |data| - s.sent);
      FullConcat(s.packets, [p], |data|);
    }
  }

  lemma {:induction false} LoopPackets(data: seq<Byte>, script: Outbound, s: SendState)
    requires |data| < U32_LIMIT && CarriesPrefix(data, s) && FullPackets(s.packets, |data|)
    ensures FullPackets(SendLoop(data, script, s).packets, |data|)
    decreases |data| - s.sent, s.result == Success
  {
    if s.sent < |data| && s.result == Success {
      SendStepCarriesPrefix(data, script, s);
      StepPackets(data, script, s);
      LoopPackets(data, script, SendStep(data, script, s));
    }
  }

  /** A blocking send cuts its data as coarsely as the session allows: every packet has 1384 bytes, or
      all that is left. */
  lemma {:induction false} SendAllPackets(data: seq<Byte>, script: Outbound, cursor: nat, timeout: nat, retries: nat)
    requires |data| < U32_LIMIT
    ensures FullPackets(SendAll(data, script, cursor, timeout, retries).packets, |data|)
    decreases |data|, MAX_RETRIES - retries
  {
    if data != [] {
      var d := SendRaw(data, script, cursor, timeout);
      LoopPackets(data, script, SendState(Success, 0, timeout, [], cursor));
      SendRawExact(data, script, cursor, timeout);
      if Continues(d.result, retries) {
        var rest, tries := SendAllUnfold(data, script, cursor, timeout, retries, d);
        SendAllPackets(data[d.sent..], script, d.cursor, timeout, tries);
        FullConcat(d.packets, rest.packets, |data|);
      }
    }
  }
}
