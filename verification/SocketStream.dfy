/** The byte stream that a client socket builds on a packet session, as functions of what the
    session answers (apis/ddSocket/src/ddSocket.cpp). A session is a reliable in-order packet queue
    of which every single Send and Receive may succeed, time out or fail; `script(i)` is the answer
    to its i-th call, so a statement about every script is one about every behaviour. */
module SocketStream {
  import opened Bytes

  const MAX_PAYLOAD: nat := 1384
  const MAX_RETRIES: nat := 8
  const RETRY_TIMEOUT_MS: nat := 250

  type Packet = p: seq<Byte> | 0 < |p| <= MAX_PAYLOAD witness [0]

  datatype Result = Success | NotReady | BufferTooSmall | Error(code: nat)

  // ============================================================================================
  // Receiving
  // ============================================================================================

  datatype Outcome = Delivered(payload: Packet) | TimedOut | Broken(code: nat)

  type Inbound = nat -> Outcome

  function PayloadOf(o: Outcome): seq<Byte> {
    if o.Delivered? then o.payload else []
  }

  /** The bytes that the session has handed out in its calls from..to. */
  function Taken(script: Inbound, from: nat, to: nat): seq<Byte>
    decreases to
  {
    if to <= from then [] else Taken(script, from, to - 1) + PayloadOf(script(to - 1))
  }

  /** What a receiving call leaves behind: its result, the bytes it reported to its caller, the
      cached bytes it consumed without reporting them, the cache, and the session's position. */
  datatype Receipt = Receipt(result: Result, data: seq<Byte>, dropped: seq<Byte>, cache: seq<Byte>, cursor: nat, calls: nat)

  /** ddSocketReceiveRaw. Cached bytes are drained first; a session call follows only while there
      is room left, and its failure discards what was drained. */
  function ReceiveRaw(cache: seq<Byte>, script: Inbound, cursor: nat, size: nat): Receipt {
    var drained := cache[..Min(size, |cache|)];
    var room := size - |drained|;
    if room == 0 then
      Receipt(Success, drained, [], cache[|drained|..], cursor, 1)
    else
      match script(cursor)
      case Delivered(payload) =>
        var n := Min(room, |payload|);
        Receipt(Success, drained + payload[..n], [], payload[n..], cursor + 1, 1)
      case TimedOut => Receipt(NotReady, [], drained, [], cursor + 1, 1)
      case Broken(code) => Receipt(Error(code), [], drained, [], cursor + 1, 1)
  }

  /** ddSocketReceiveWithTimeout: raw receives until `want` bytes have arrived, with at most
      MAX_RETRIES timeouts forgiven over the whole call. */
  function ReceiveAll(cache: seq<Byte>, script: Inbound, cursor: nat, want: nat, retries: nat): Receipt
    decreases want, MAX_RETRIES - retries, cache
  {
    if want == 0 then
      Receipt(Success, [], [], cache, cursor, 0)
    else
      var r := ReceiveRaw(cache, script, cursor, want);
      if r.result == Success then
        var rest := ReceiveAll(r.cache, script, r.cursor, want - |r.data|, retries);
        rest.(data := r.data + rest.data, calls := 1 + rest.calls)
      else if r.result == NotReady && retries < MAX_RETRIES then
        var rest := ReceiveAll(r.cache, script, r.cursor, want, retries + 1);
        rest.(dropped := r.dropped + rest.dropped, calls := 1 + rest.calls)
      else
        r
  }

  // ---- Conservation -------------------------------------------------------------------------

  lemma {:induction false} TakenSplit(script: Inbound, a: nat, b: nat, c: nat)
    requires a <= b <= c
    ensures Taken(script, a, c) == Taken(script, a, b) + Taken(script, b, c)
    decreases c
  {
    if b < c { TakenSplit(script, a, b, c - 1); }
  }

  lemma ReceiveRawShape(cache: seq<Byte>, script: Inbound, cursor: nat, size: nat)
    ensures var r := ReceiveRaw(cache, script, cursor, size);
            && cursor <= r.cursor
            && |r.data| <= size
            && (r.result == Success && size > 0 ==> |r.data| > 0)
            && (r.result == Success && |r.data| < size ==> r.cache == [])
            && (r.result == Success ==> r.dropped == [])
            && (r.result != Success ==> r.data == [] && r.dropped == cache && r.cache == [] && |cache| < size)
            && r.result != BufferTooSmall
  {
    assert cache[..|cache|] == cache;
  }

  lemma TakenOne(script: Inbound, cursor: nat)
    ensures Taken(script, cursor, cursor) == [] && Taken(script, cursor, cursor + 1) == PayloadOf(script(cursor))
  {
  }

  /** A drained cache and a payload, cut where the caller's buffer ends. */
  lemma CutPayload(cache: seq<Byte>, payload: seq<Byte>, n: nat)
    requires n <= |payload|
    ensures cache + payload == ([] + (cache + payload[..n])) + payload[n..]
  {
    assert payload == payload[..n] + payload[n..];
  }

  /** Every raw receive conserves bytes, whatever the session answers. */
  lemma ReceiveRawConserves(cache: seq<Byte>, script: Inbound, cursor: nat, size: nat)
    ensures var r := ReceiveRaw(cache, script, cursor, size);
            cache + Taken(script, cursor, r.cursor) == (r.dropped + r.data) + r.cache
  {
    TakenOne(script, cursor);
    assert cache[..|cache|] == cache;
    if size <= |cache| {
      assert cache == cache[..size] + cache[size..];
    } else if script(cursor).Delivered? {
      var payload := PayloadOf(script(cursor));
      CutPayload(cache, payload, Min(size - |cache|, |payload|));
    }
  }

  datatype Piece = Reported(bytes: seq<Byte>) | Discarded(bytes: seq<Byte>)

  function PieceBytes(ledger: seq<Piece>): seq<Byte> {
    if ledger == [] then [] else PieceBytes(ledger[..|ledger| - 1]) + ledger[|ledger| - 1].bytes
  }

  function ReportedBytes(ledger: seq<Piece>): seq<Byte> {
    if ledger == [] then []
    else ReportedBytes(ledger[..|ledger| - 1]) + (if ledger[|ledger| - 1].Reported? then ledger[|ledger| - 1].bytes else [])
  }

  /** A run of raw receives with the given buffer sizes on a fresh socket: the ledger of what each
      call reported or discarded, the cache and the session's position. */
  datatype ReceiveRun = ReceiveRun(ledger: seq<Piece>, cache: seq<Byte>, cursor: nat)

  function RunStep(script: Inbound, before: ReceiveRun, size: nat): ReceiveRun {
    var r := ReceiveRaw(before.cache, script, before.cursor, size);
    ReceiveRun(before.ledger + [if r.result == Success then Reported(r.data) else Discarded(r.dropped)], r.cache, r.cursor)
  }

  function RunRaw(script: Inbound, sizes: seq<nat>): ReceiveRun {
    if sizes == [] then ReceiveRun([], [], 0) else RunStep(script, RunRaw(script, sizes[..|sizes| - 1]), sizes[|sizes| - 1])
  }

  lemma {:induction false} RunRawShape(script: Inbound, sizes: seq<nat>)
    ensures var run := RunRaw(script, sizes);
            && |run.cache| < MAX_PAYLOAD
            && |run.ledger| == |sizes|
            && (forall i | 0 <= i < |sizes| && run.ledger[i].Reported? :: |run.ledger[i].bytes| <= sizes[i])
  {
    if sizes != [] {
      var k := |sizes| - 1;
      RunRawShape(script, sizes[..k]);
      var before, run := RunRaw(script, sizes[..k]), RunRaw(script, sizes);
      ReceiveRawShape(before.cache, script, before.cursor, sizes[k]);
      assert run.ledger[..k] == before.ledger;
    }
  }

  /** All bytes taken from the session are in the ledger, in order, or still in the cache. */
  ghost predicate Conserved(script: Inbound, run: ReceiveRun) {
    Taken(script, 0, run.cursor) == PieceBytes(run.ledger) + run.cache
  }

  lemma PieceBytesSnoc(ledger: seq<Piece>, piece: Piece)
    ensures PieceBytes(ledger + [piece]) == PieceBytes(ledger) + piece.bytes
  {
    assert (ledger + [piece])[..|ledger|] == ledger;
  }

  lemma StepConserves(script: Inbound, before: ReceiveRun, size: nat)
    requires Conserved(script, before)
    ensures Conserved(script, RunStep(script, before, size))
  {
    var r := ReceiveRaw(before.cache, script, before.cursor, size);
    var piece := if r.result == Success then Reported(r.data) else Discarded(r.dropped);
    ReceiveRawConserves(before.cache, script, before.cursor, size);
    ReceiveRawShape(before.cache, script, before.cursor, size);
    assert r.dropped + r.data == piece.bytes;
    TakenSplit(script, 0, before.cursor, r.cursor);
    PieceBytesSnoc(before.ledger, piece);
    Compose([], Taken(script, 0, before.cursor), PieceBytes(before.ledger), before.cache,
            Taken(script, before.cursor, r.cursor), piece.bytes, r.cache);
  }

  /** Receive conservation, for every session behaviour and all buffer sizes: the bytes taken from
      the session are the in-order merge of the reported and the discarded ones, followed by the
      cache. */
  lemma {:induction false} ReceiveConservation(script: Inbound, sizes: seq<nat>)
    ensures Taken(script, 0, RunRaw(script, sizes).cursor) == PieceBytes(RunRaw(script, sizes).ledger) + RunRaw(script, sizes).cache
  {
    if sizes != [] {
      var k := |sizes| - 1;
      ReceiveConservation(script, sizes[..k]);
      StepConserves(script, RunRaw(script, sizes[..k]), sizes[k]);
    }
  }

  lemma {:induction false} NothingDiscarded(ledger: seq<Piece>)
    requires forall i | 0 <= i < |ledger| :: ledger[i].bytes == [] || ledger[i].Reported?
    ensures ReportedBytes(ledger) == PieceBytes(ledger)
  {
    if ledger != [] { NothingDiscarded(ledger[..|ledger| - 1]); }
  }

  /** With no failing call that had drained the cache, the reported bytes are exactly a prefix of
      the stream. */
  lemma ReportedIsPrefix(script: Inbound, sizes: seq<nat>)
    requires forall i | 0 <= i < |RunRaw(script, sizes).ledger| ::
               RunRaw(script, sizes).ledger[i].Reported? || RunRaw(script, sizes).ledger[i].bytes == []
    ensures ReportedBytes(RunRaw(script, sizes).ledger) <= Taken(script, 0, RunRaw(script, sizes).cursor)
  {
    ReceiveConservation(script, sizes);
    NothingDiscarded(RunRaw(script, sizes).ledger);
  }

  // ---- The blocking receive -----------------------------------------------------------------

  /** A blocking receive discards bytes at most once, before it reports any, and then exactly the
      whole cache it started with: when that cache did not suffice and the first session call
      failed. It succeeds exactly when it has reported all it was asked for. */
  lemma {:induction false} ReceiveAllShape(cache: seq<Byte>, script: Inbound, cursor: nat, want: nat, retries: nat)
    ensures var r := ReceiveAll(cache, script, cursor, want, retries);
            && cursor <= r.cursor
            && r.dropped == (if |cache| < want && !script(cursor).Delivered? then cache else [])
            && |r.data| <= want
            && (r.result == Success <==> |r.data| == want)
    decreases want, MAX_RETRIES - retries
  {
    if want > 0 {
      var r := ReceiveRaw(cache, script, cursor, want);
      ReceiveRawShape(cache, script, cursor, want);
      if r.result == Success {
        ReceiveAllShape(r.cache, script, r.cursor, want - |r.data|, retries);
      } else if r.result == NotReady && retries < MAX_RETRIES {
        ReceiveAllShape(r.cache, script, r.cursor, want, retries + 1);
      }
    }
  }

  /** A blocking receive continues after a raw receive that succeeded or may be retried. */
  predicate Continues(result: Result, retries: nat) {
    result == Success || (result == NotReady && retries < MAX_RETRIES)
  }

  lemma ReceiveAllUnfold(cache: seq<Byte>, script: Inbound, cursor: nat, want: nat, retries: nat, r: Receipt) returns (rest: Receipt, left: nat, tries: nat)
    requires want > 0 && r == ReceiveRaw(cache, script, cursor, want) && Continues(r.result, retries)
    ensures left <= want && (left < want || (left == want && retries < tries <= MAX_RETRIES))
    ensures rest == ReceiveAll(r.cache, script, r.cursor, left, tries)
    ensures var all := ReceiveAll(cache, script, cursor, want, retries);
            && all.dropped == r.dropped && rest.dropped == []
            && all.data == r.data + rest.data
            && all.cache == rest.cache && cursor <= r.cursor <= all.cursor == rest.cursor
  {
    ReceiveRawShape(cache, script, cursor, want);
    left := want - |r.data|;
    tries := if r.result == Success then retries else retries + 1;
    rest := ReceiveAll(r.cache, script, r.cursor, left, tries);
    ReceiveAllShape(r.cache, script, r.cursor, left, tries);
  }

  /** A blocking receive conserves bytes too. */
  lemma {:induction false} ReceiveAllConserves(cache: seq<Byte>, script: Inbound, cursor: nat, want: nat, retries: nat)
    ensures var r := ReceiveAll(cache, script, cursor, want, retries);
            cache + Taken(script, cursor, r.cursor) == (r.dropped + r.data) + r.cache
    decreases want, MAX_RETRIES - retries
  {
    if want == 0 {
      assert Taken(script, cursor, cursor) == [];
    } else {
      var r := ReceiveRaw(cache, script, cursor, want);
      ReceiveRawConserves(cache, script, cursor, want);
      if Continues(r.result, retries) {
        var rest, left, tries := ReceiveAllUnfold(cache, script, cursor, want, retries, r);
        ReceiveAllConserves(r.cache, script, r.cursor, left, tries);
        TakenSplit(script, cursor, r.cursor, rest.cursor);
        assert rest.dropped + rest.data == rest.data;
        Compose(cache, Taken(script, cursor, r.cursor), r.dropped + r.data, r.cache,
                Taken(script, r.cursor, rest.cursor), rest.data, rest.cache);
        Regroup(r.dropped, r.data, rest.data);
      }
    }
  }

  /** The loop ends within want + MAX_RETRIES raw calls. */
  lemma {:induction false} ReceiveAllCalls(cache: seq<Byte>, script: Inbound, cursor: nat, want: nat, retries: nat)
    requires retries <= MAX_RETRIES
    ensures ReceiveAll(cache, script, cursor, want, retries).calls <= if want == 0 then 0 else want + MAX_RETRIES - retries
    decreases want, MAX_RETRIES - retries
  {
    if want > 0 {
      var r := ReceiveRaw(cache, script, cursor, want);
      ReceiveRawShape(cache, script, cursor, want);
      if r.result == Success {
        ReceiveAllCalls(r.cache, script, r.cursor, want - |r.data|, retries);
      } else if r.result == NotReady && retries < MAX_RETRIES {
        ReceiveAllCalls(r.cache, script, r.cursor, want, retries + 1);
      }
    }
  }

  /** The property one expects of a blocking receive: on success its data are the next `want` bytes
      of the stream. */
  ghost predicate DeliversInOrder(cache: seq<Byte>, script: Inbound, want: nat) {
    var r := ReceiveAll(cache, script, 0, want, 0);
    r.result == Success ==> r.data <= cache + Taken(script, 0, r.cursor)
  }

  function OneTimeoutThen(x: Byte): Inbound {
    i => if i == 0 then TimedOut else Delivered([x])
  }

  lemma {:induction false} OneByteAtATime(x: Byte, cursor: nat, want: nat, retries: nat)
    requires cursor > 0
    ensures var r := ReceiveAll([], OneTimeoutThen(x), cursor, want, retries);
            r.result == Success && (want > 0 ==> r.data != [] && r.data[0] == x)
    decreases want
  {
    if want > 0 {
      var script := OneTimeoutThen(x);
      assert script(cursor) == Delivered([x]);
      var r := ReceiveRaw([], script, cursor, want);
      assert r == Receipt(Success, [x], [], [], cursor + 1, 1);
      OneByteAtATime(x, cursor + 1, want - 1, retries);
    }
  }

  /** The expected property does not hold in general: a timeout that follows the draining of a
      partial cache loses those bytes although the call succeeds in the end. */
  lemma TimeoutLosesCache(cache: seq<Byte>, want: nat)
    requires 0 < |cache| < want
    ensures exists script: Inbound :: !DeliversInOrder(cache, script, want)
  {
    var x: Byte := if cache[0] == 0 then 1 else 0;
    var script := OneTimeoutThen(x);
    var r := ReceiveRaw(cache, script, 0, want);
    assert script(0) == TimedOut;
    assert r == Receipt(NotReady, [], cache, [], 1, 1) by { assert cache[..|cache|] == cache; }
    OneByteAtATime(x, 1, want, 1);
    var all := ReceiveAll(cache, script, 0, want, 0);
    assert (cache + Taken(script, 0, all.cursor))[0] == cache[0];
    assert all.data[0] == x;
    assert !DeliversInOrder(cache, script, want);
  }

  /** It holds against every session exactly when the cache is empty or covers the request. */
  lemma DeliversInOrderExactly(cache: seq<Byte>, want: nat)
    ensures (forall script: Inbound :: DeliversInOrder(cache, script, want)) <==> (cache == [] || want <= |cache|)
  {
    if cache == [] || want <= |cache| {
      forall script: Inbound ensures DeliversInOrder(cache, script, want) {
        ReceiveAllConserves(cache, script, 0, want, 0);
        ReceiveAllShape(cache, script, 0, want, 0);
      }
    } else {
      TimeoutLosesCache(cache, want);
    }
  }

  /** Without timeouts a blocking receive succeeds as soon as the session has enough bytes, and
      reads no further than it needs to. */
  lemma {:induction false} ReceiveAllSucceeds(cache: seq<Byte>, script: Inbound, cursor: nat, end: nat, want: nat, retries: nat)
    requires cursor <= end && (forall i | cursor <= i < end :: script(i).Delivered?)
    requires want <= |cache| + |Taken(script, cursor, end)|
    ensures var r := ReceiveAll(cache, script, cursor, want, retries);
            r.result == Success && r.dropped == [] && r.cursor <= end
    decreases want
  {
    if want > 0 {
      var r := ReceiveRaw(cache, script, cursor, want);
      ReceiveRawConserves(cache, script, cursor, want);
      ReceiveRawShape(cache, script, cursor, want);
      if |cache| < want {
        assert cursor < end by { assert cursor == end ==> Taken(script, cursor, end) == []; }
      }
      TakenSplit(script, cursor, r.cursor, end);
      assert |cache| + |Taken(script, cursor, end)| == |r.data| + |r.cache| + |Taken(script, r.cursor, end)|;
      ReceiveAllSucceeds(r.cache, script, r.cursor, end, want - |r.data|, retries);
    }
  }

  // ============================================================================================
  // Sending
  // ============================================================================================

  /** An accepted packet comes with the time elapsed since the raw send began. */
  datatype SendOutcome = Accepted(elapsed: nat) | Full | Refused(code: nat)

  type Outbound = nat -> SendOutcome

  /** The loop state of ddSocketSendRaw. */
  datatype SendState = SendState(result: Result, sent: nat, timeout: nat, packets: seq<seq<Byte>>, cursor: nat)

  /** The size of the next packet: the remaining count narrowed to 32 bits, then cut. */
  function NextPacketSize(remaining: nat): nat {
    Min(remaining % U32_LIMIT, MAX_PAYLOAD)
  }

  /** One iteration of the raw send loop. */
  function SendStep(data: seq<Byte>, script: Outbound, s: SendState): (s': SendState)
    requires s.sent <= |data|
    ensures s'.sent <= |data|
  {
    var n := NextPacketSize(|data| - s.sent);
    match script(s.cursor)
    case Accepted(elapsed) =>
      var sent := s.sent + n;
      SendState(if elapsed < s.timeout || sent == |data| then Success else NotReady,
                sent,
                if elapsed < s.timeout then s.timeout - elapsed else s.timeout,
                s.packets + [data[s.sent..sent]],
                s.cursor + 1)
    case Full => s.(result := NotReady, cursor := s.cursor + 1)
    case Refused(code) => s.(result := Error(code), cursor := s.cursor + 1)
  }

  /** The state after k iterations, or where the loop stopped before. */
  function SendSteps(data: seq<Byte>, script: Outbound, s: SendState, k: nat): (s': SendState)
    requires s.sent <= |data|
    ensures s'.sent <= |data|
    decreases k
  {
    if k == 0 then s
    else
      var p := SendSteps(data, script, s, k - 1);
      if p.sent < |data| && p.result == Success then SendStep(data, script, p) else p
  }

  lemma NarrowedPacket(total: nat, sent: nat)
    requires sent <= total % U32_LIMIT
    ensures sent <= total && sent + NextPacketSize(total - sent) <= total % U32_LIMIT
  {
    var rest := total % U32_LIMIT - sent;
    assert total - sent == U32_LIMIT * (total / U32_LIMIT) + rest;
    assert (total - sent) % U32_LIMIT == rest;
  }

  /** Whatever the session and the clock do, a raw send never gets past the first
      |data| mod 2^32 bytes: from there on the narrowed count is zero. */
  lemma {:induction false} NarrowingStopsTheSend(data: seq<Byte>, script: Outbound, s: SendState, k: nat)
    requires s.sent == 0
    ensures SendSteps(data, script, s, k).sent <= |data| % U32_LIMIT
    decreases k
  {
    if k > 0 {
      NarrowingStopsTheSend(data, script, s, k - 1);
      NarrowedPacket(|data|, SendSteps(data, script, s, k - 1).sent);
    }
  }

  function AlwaysAccept(): Outbound {
    i => Accepted(0)
  }

  lemma {:induction false} AcceptingSessionProgress(data: seq<Byte>, s: SendState, k: nat)
    requires |data| < U32_LIMIT && s.sent == 0 && s.timeout > 0 && s.result == Success
    ensures var p := SendSteps(data, AlwaysAccept(), s, k);
            p.result == Success && p.timeout == s.timeout && (p.sent == |data| || p.sent >= k)
    decreases k
  {
    if k > 0 { AcceptingSessionProgress(data, s, k - 1); }
  }

  /** Without any time a raw send gets no further than its first packet. */
  lemma {:induction false} NoTimeOnePacket(data: seq<Byte>, script: Outbound, s: SendState, k: nat)
    requires s == SendState(Success, 0, 0, [], s.cursor)
    ensures var p := SendSteps(data, script, s, k);
            p.timeout == 0 && (p == s || p.result != Success || p.sent == |data|) && p.sent <= MAX_PAYLOAD
    decreases k
  {
    if k > 0 { NoTimeOnePacket(data, script, s, k - 1); }
  }

  lemma FirstPacketSuffices(data: seq<Byte>, s: SendState)
    requires |data| <= MAX_PAYLOAD && s.sent == 0 && s.result == Success
    ensures SendSteps(data, AlwaysAccept(), s, 1).sent == |data|
  {
    assert SendSteps(data, AlwaysAccept(), s, 0) == s;
  }

  /** A raw send can put all its data on the session exactly when the data is below 2^32 bytes and
      there is some time, or a single packet is enough. */
  lemma SendCanCompleteExactly(data: seq<Byte>, timeout: nat)
    ensures (exists script: Outbound, k: nat :: SendSteps(data, script, SendState(Success, 0, timeout, [], 0), k).sent == |data|)
            <==> |data| < U32_LIMIT && (timeout > 0 || |data| <= MAX_PAYLOAD)
  {
    var s := SendState(Success, 0, timeout, [], 0);
    if |data| <= MAX_PAYLOAD {
      FirstPacketSuffices(data, s);
    } else if |data| < U32_LIMIT && timeout > 0 {
      AcceptingSessionProgress(data, s, |data|);
      assert SendSteps(data, AlwaysAccept(), s, |data|).sent == |data|;
    } else {
      forall script: Outbound, k: nat ensures SendSteps(data, script, s, k).sent != |data| {
        NarrowingStopsTheSend(data, script, s, k);
        if timeout == 0 { NoTimeOnePacket(data, script, s, k); }
      }
    }
  }

  /** The raw send loop run to its end. */
  function SendLoop(data: seq<Byte>, script: Outbound, s: SendState): SendState
    requires s.sent <= |data| < U32_LIMIT
    decreases |data| - s.sent, s.result == Success
  {
    if s.sent < |data| && s.result == Success then SendLoop(data, script, SendStep(data, script, s)) else s
  }

  /** What a send leaves behind: its result, how many bytes it reported, the packets it put on the
      session and the session's position. */
  datatype Dispatch = Dispatch(result: Result, sent: nat, packets: seq<seq<Byte>>, cursor: nat, calls: nat)

  /** ddSocketSendRaw: a timeout after some progress is a success. */
  function SendRaw(data: seq<Byte>, script: Outbound, cursor: nat, timeout: nat): Dispatch
    requires |data| < U32_LIMIT
  {
    var s := SendLoop(data, script, SendState(Success, 0, timeout, [], cursor));
    var result := if s.sent > 0 && s.result == NotReady then Success else s.result;
    Dispatch(result, if result == Success then s.sent else 0, s.packets, s.cursor, 1)
  }

  /** The packets of a loop state carry exactly the first `sent` bytes of the data. */
  ghost predicate CarriesPrefix(data: seq<Byte>, s: SendState) {
    && s.sent <= |data|
    && Flatten(s.packets) == data[..s.sent]
    && forall i | 0 <= i < |s.packets| :: 0 < |s.packets[i]| <= MAX_PAYLOAD
  }

  lemma SendStepCarriesPrefix(data: seq<Byte>, script: Outbound, s: SendState)
    requires CarriesPrefix(data, s) && s.sent < |data| < U32_LIMIT
    ensures CarriesPrefix(data, SendStep(data, script, s))
    ensures SendStep(data, script, s).result == NotReady || SendStep(data, script, s).result.Error? ==>
              SendStep(data, script, s).sent < |data|
  {
    if script(s.cursor).Accepted? {
      var sent := s.sent + NextPacketSize(|data| - s.sent);
      FlattenSnoc(s.packets, data[s.sent..sent]);
      assert data[..sent] == data[..s.sent] + data[s.sent..sent];
    }
  }

  /** The same for data of any size, where packets may be empty. */
  ghost predicate CarriesFront(data: seq<Byte>, s: SendState) {
    && s.sent <= |data| && Flatten(s.packets) == data[..s.sent]
    && forall i | 0 <= i < |s.packets| :: |s.packets[i]| <= MAX_PAYLOAD
  }

  lemma SendStepCarriesFront(data: seq<Byte>, script: Outbound, s: SendState)
    requires CarriesFront(data, s)
    ensures CarriesFront(data, SendStep(data, script, s))
  {
    if script(s.cursor).Accepted? {
      var sent := s.sent + NextPacketSize(|data| - s.sent);
      FlattenSnoc(s.packets, data[s.sent..sent]);
      assert data[..sent] == data[..s.sent] + data[s.sent..sent];
    }
  }

  /** For data of any size and after any number of iterations: the packets on the session carry exactly
      the first `sent` bytes, in order and without gap, in packets of at most MAX_PAYLOAD bytes. */
  lemma {:induction false} SendStepsCarryFront(data: seq<Byte>, script: Outbound, s: SendState, k: nat)
    requires s.sent == 0 && s.packets == []
    ensures CarriesFront(data, SendSteps(data, script, s, k))
    decreases k
  {
    if k > 0 {
      SendStepsCarryFront(data, script, s, k - 1);
      SendStepCarriesFront(data, script, SendSteps(data, script, s, k - 1));
    }
  }

  lemma {:induction false} SendLoopCarriesPrefix(data: seq<Byte>, script: Outbound, s: SendState)
    requires CarriesPrefix(data, s) && |data| < U32_LIMIT && (s.result != Success ==> s.sent < |data|)
    ensures var e := SendLoop(data, script, s);
            CarriesPrefix(data, e) && (e.result == Success <==> e.sent == |data|)
    decreases |data| - s.sent, s.result == Success
  {
    if s.sent < |data| && s.result == Success {
      SendStepCarriesPrefix(data, script, s);
      SendLoopCarriesPrefix(data, script, SendStep(data, script, s));
    }
  }

  /** A raw send puts some prefix of its data on the session in packets of 1 to MAX_PAYLOAD bytes:
      on success the prefix it reports, which is empty only for empty data. */
  lemma SendRawExact(data: seq<Byte>, script: Outbound, cursor: nat, timeout: nat)
    requires |data| < U32_LIMIT
    ensures var d := SendRaw(data, script, cursor, timeout);
            && Flatten(d.packets) <= data
            && (forall i | 0 <= i < |d.packets| :: 0 < |d.packets[i]| <= MAX_PAYLOAD)
            && (d.result == Success ==> d.sent <= |data| && Flatten(d.packets) == data[..d.sent])
            && (d.result == Success && |data| > 0 ==> d.sent > 0)
            && (d.result != Success ==> |Flatten(d.packets)| < |data|)
            && (d.result == NotReady ==> d.packets == [])
  {
    var s := SendState(Success, 0, timeout, [], cursor);
    assert data[..0] == [];
    SendLoopCarriesPrefix(data, script, s);
    var e := SendLoop(data, script, s);
    assert e.packets != [] ==> |Flatten(e.packets)| >= |e.packets[|e.packets| - 1]|;
  }

  /** ddSocketSendWithTimeout: raw sends until everything is out. */
  function SendAll(data: seq<Byte>, script: Outbound, cursor: nat, timeout: nat, retries: nat): Dispatch
    requires |data| < U32_LIMIT
    decreases |data|, MAX_RETRIES - retries
  {
    if data == [] then
      Dispatch(Success, 0, [], cursor, 0)
    else
      SendRawExact(data, script, cursor, timeout);
      var d := SendRaw(data, script, cursor, timeout);
      if d.result == Success then
        var rest := SendAll(data[d.sent..], script, d.cursor, timeout, retries);
        rest.(sent := d.sent + rest.sent, packets := d.packets + rest.packets, calls := 1 + rest.calls)
      else if d.result == NotReady && retries < MAX_RETRIES then
        var rest := SendAll(data, script, d.cursor, timeout, retries + 1);
        rest.(packets := d.packets + rest.packets, calls := 1 + rest.calls)
      else
        d
  }

  /** Packets that carry the first n bytes, then packets that carry a prefix of the others. */
  lemma JoinPackets(data: seq<Byte>, n: nat, a: seq<seq<Byte>>, b: seq<seq<Byte>>)
    requires n <= |data| && Flatten(a) == data[..n] && Flatten(b) <= data[n..]
    ensures Flatten(a + b) <= data && (Flatten(a + b) == data <==> Flatten(b) == data[n..])
  {
    FlattenConcat(a, b);
    assert data == data[..n] + data[n..];
  }

  lemma SendAllUnfold(data: seq<Byte>, script: Outbound, cursor: nat, timeout: nat, retries: nat, d: Dispatch) returns (rest: Dispatch, tries: nat)
    requires 0 < |data| < U32_LIMIT && d == SendRaw(data, script, cursor, timeout) && Continues(d.result, retries)
    ensures d.sent <= |data| && (d.sent > 0 || retries < tries <= MAX_RETRIES) && Flatten(d.packets) == data[..d.sent]
    ensures rest == SendAll(data[d.sent..], script, d.cursor, timeout, tries)
    ensures var all := SendAll(data, script, cursor, timeout, retries);
            all.result == rest.result && all.packets == d.packets + rest.packets
  {
    SendRawExact(data, script, cursor, timeout);
    tries := if d.result == Success then retries else retries + 1;
    assert d.result != Success ==> data[d.sent..] == data;
    rest := SendAll(data[d.sent..], script, d.cursor, timeout, tries);
  }

  /** A blocking send that succeeds puts exactly its data on the session, in order, with no gap or
      repeat across timeouts and retries; one that fails leaves exactly a proper prefix there. */
  lemma {:induction false} SendAllExact(data: seq<Byte>, script: Outbound, cursor: nat, timeout: nat, retries: nat)
    requires |data| < U32_LIMIT
    ensures var d := SendAll(data, script, cursor, timeout, retries);
            && Flatten(d.packets) <= data
            && (d.result == Success <==> Flatten(d.packets) == data)
    decreases |data|, MAX_RETRIES - retries
  {
    if data != [] {
      var d := SendRaw(data, script, cursor, timeout);
      if Continues(d.result, retries) {
        var rest, tries := SendAllUnfold(data, script, cursor, timeout, retries, d);
        SendAllExact(data[d.sent..], script, d.cursor, timeout, tries);
        JoinPackets(data, d.sent, d.packets, rest.packets);
      } else {
        SendRawExact(data, script, cursor, timeout);
      }
    }
  }

  /** It makes at most |data| + MAX_RETRIES raw calls and its packets fit the session. */
  lemma {:induction false} SendAllShape(data: seq<Byte>, script: Outbound, cursor: nat, timeout: nat, retries: nat)
    requires |data| < U32_LIMIT && retries <= MAX_RETRIES
    ensures var d := SendAll(data, script, cursor, timeout, retries);
            && d.calls <= (if data == [] then 0 else |data| + MAX_RETRIES - retries)
            && (forall i | 0 <= i < |d.packets| :: 0 < |d.packets[i]| <= MAX_PAYLOAD)
    decreases |data|, MAX_RETRIES - retries
  {
    if data != [] {
      SendRawExact(data, script, cursor, timeout);
      var d := SendRaw(data, script, cursor, timeout);
      if d.result == Success {
        SendAllShape(data[d.sent..], script, d.cursor, timeout, retries);
      } else if d.result == NotReady && retries < MAX_RETRIES {
        SendAllShape(data, script, d.cursor, timeout, retries + 1);
      }
    }
  }
}
