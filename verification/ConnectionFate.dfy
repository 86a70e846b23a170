/** What becomes of a driver connection, from what its calls came back with alone: whether the tool
    hears of it, which states it is told, and which calls an ignored driver gets
    (apis/tools/src/dd_tool_connection.cpp). */
module ConnectionFate {
  import opened ConnectionThread

  /** What the calls came back with, in order. */
  function Outcomes(inputs: seq<Input>): seq<Outcome> {
    if inputs == [] then []
    else
      var before, i := Outcomes(inputs[..|inputs| - 1]), inputs[|inputs| - 1];
      if i.Call? then before + [i.outcome] else before
  }

  // ---- Accepted, ignored or failed ------------------------------------------------------------

  /** Connect, client info and driver status succeeded, and the driver is halted on platform init. */
  predicate Greeted(os: seq<Outcome>) {
    && |os| >= 3
    && os[0].result == Success && os[1].result == Success && os[2].result == Success
    && os[2].status == 6
  }

  /** One of those calls failed, or the driver is in another state. */
  predicate Rejected(os: seq<Outcome>) {
    || (|os| >= 1 && os[0].result != Success)
    || (|os| >= 2 && os[1].result != Success)
    || (|os| >= 3 && (os[2].result != Success || os[2].status != 6))
  }

  predicate FateIs(fate: Fate, os: seq<Outcome>) {
    match fate
    case FailedEarly => Rejected(os)
    case Ignored => |os| >= 4 && Greeted(os) && os[3].ignore
    case Accepted => |os| >= 4 && Greeted(os) && !os[3].ignore
  }

  /** What the outcomes so far were in each phase. */
  predicate Decided(p: Phase, os: seq<Outcome>) {
    match p
    case Connecting => |os| == 0
    case QueryingInfo => |os| == 1 && !Rejected(os)
    case QueryingStatus => |os| == 2 && !Rejected(os)
    case Filtering => |os| == 3 && Greeted(os)
    case Ignoring => FateIs(Ignored, os)
    case SkippingInit => FateIs(Ignored, os)
    case SkippingResume => FateIs(Ignored, os)
    case Closing(fate) => FateIs(fate, os) && (fate == FailedEarly ==> |os| <= 3)
    case Uncounting(fate) => FateIs(fate, os) && (fate == FailedEarly ==> |os| <= 4)
    case Finishing(fate) => FateIs(fate, os)
    case Finished(fate) => FateIs(fate, os) && |os| >= 4
    case _ => FateIs(Accepted, os)
  }

  /** The calls that a phase needs before it. */
  function CallsBefore(p: Phase): nat {
    match p
    case Closing(_) => 1
    case Uncounting(_) => 2
    case Finishing(fate) => if fate == Ignored then 4 else 3
    case _ => 0
  }

  lemma DecidedStep(t: Thread, os: seq<Outcome>, o: Outcome)
    requires Decided(t.phase, os) && CallsBefore(t.phase) <= |os|
    ensures var p := Step(t, o).phase; Decided(p, os + [o]) && CallsBefore(p) <= |os| + 1
  {
  }

  lemma {:induction false} DecidedRun(inputs: seq<Input>)
    ensures var p := Run(Started, inputs).phase; Decided(p, Outcomes(inputs)) && CallsBefore(p) <= |Outcomes(inputs)|
    decreases |inputs|
  {
    if inputs != [] {
      var k := |inputs| - 1;
      DecidedRun(inputs[..k]);
      if inputs[k].Call? { DecidedStep(Run(Started, inputs[..k]), Outcomes(inputs[..k]), inputs[k].outcome); }
    }
  }

  /** A finished thread has told the tool of its connection if and only if the first three calls
      succeeded, the driver was halted on platform init, and the filter did not ignore it; it ended
      ignored if and only if the filter did. */
  lemma FateByOutcomes(inputs: seq<Input>)
    requires Run(Started, inputs).phase.Finished?
    ensures var t, os := Run(Started, inputs), Outcomes(inputs);
            && |os| >= 4
            && (t.trace != [] <==> os[0].result == os[1].result == os[2].result == Success && os[2].status == 6 && !os[3].ignore)
            && (t.phase.fate == Accepted <==> t.trace != [])
            && (t.phase.fate == Ignored <==> os[0].result == os[1].result == os[2].result == Success && os[2].status == 6 && os[3].ignore)
  {
    DecidedRun(inputs);
    TracesOfAllRuns(inputs);
  }

  // ---- The states that the tool is told -------------------------------------------------------

  function Statuses(os: seq<Outcome>): (r: seq<Status>)
    ensures |r| == |os| && forall i | 0 <= i < |os| :: r[i] == os[i].status
  {
    seq(|os|, i requires 0 <= i < |os| => os[i].status)
  }

  /** Calls that succeed and do not reach post-device-init. */
  predicate Before7(os: seq<Outcome>) {
    forall i | 0 <= i < |os| :: os[i].result == Success && os[i].status != 7
  }

  /** Behind n such calls the stepping ended, by a failure or by post-device-init. */
  predicate Ends(os: seq<Outcome>, n: nat) {
    n < |os| && Before7(os[..n]) && (os[n].result == Success ==> os[n].status == 7)
  }

  /** The states told for calls that end like that, with the two calls behind post-device-init. */
  function Told(os: seq<Outcome>, n: nat): seq<Status>
    requires n < |os|
  {
    if os[n].result != Success then Statuses(os[..n])
    else if |os| > n + 2 && os[n + 1].result == Success && os[n + 2].result == Success
      then Statuses(os[..n]) + [7, os[n + 2].status]
    else Statuses(os[..n]) + [7]
  }

  /** What the calls from the first advance on were in each phase; the stepping ended behind n of them. */
  predicate Stepped(p: Phase, os: seq<Outcome>, n: nat, told: seq<Status>) {
    match p
    case Advancing => n == |os| && Before7(os) && told == Statuses(os)
    case Resuming => |os| == n + 1 && Reached(os, n) && told == Told(os, n)
    case QueryingFinal => |os| == n + 2 && Reached(os, n) && os[n + 1].result == Success && told == Told(os, n)
    case Waiting => |os| >= n + 3 && Reached(os, n) && Answered(os, n) && told == Told(os, n)
    case Retiring => Over(os, n, told)
    case Closing(fate) => fate == Accepted ==> Over(os, n, told)
    case Uncounting(fate) => fate == Accepted ==> Over(os, n, told)
    case Finishing(fate) => fate == Accepted ==> Over(os, n, told)
    case Finished(fate) => fate == Accepted ==> Over(os, n, told)
    case _ => true
  }

  predicate Reached(os: seq<Outcome>, n: nat) {
    Ends(os, n) && os[n].result == Success
  }

  predicate Answered(os: seq<Outcome>, n: nat)
    requires n + 2 < |os|
  {
    os[n + 1].result == Success && os[n + 2].result == Success
  }

  /** No later call can change what was told. */
  predicate Over(os: seq<Outcome>, n: nat, told: seq<Status>) {
    && Ends(os, n) && told == Told(os, n)
    && (os[n].result == Success ==> |os| > n + 1 && (os[n + 1].result == Success ==> |os| > n + 2))
  }

  /** One more outcome behind the ones that decide what is told. */
  lemma ToldStays(os: seq<Outcome>, n: nat, o: Outcome, told: seq<Status>)
    requires Over(os, n, told)
    ensures Over(os + [o], n, told)
  {
    assert (os + [o])[..n] == os[..n];
  }

  lemma EndsStays(os: seq<Outcome>, n: nat, o: Outcome)
    requires n < |os|
    ensures Ends(os + [o], n) == Ends(os, n) && Statuses((os + [o])[..n]) == Statuses(os[..n])
  {
    assert (os + [o])[..n] == os[..n];
  }

  /** An advance extends the states, or ends the stepping. */
  lemma AdvanceStep(exitRequested: bool, os: seq<Outcome>, n: nat, told: seq<Status>, o: Outcome)
    requires Stepped(Advancing, os, n, told)
    ensures var p := NextPhase(Advancing, exitRequested, o);
            Stepped(p, os + [o], if p == Advancing then n + 1 else n, Reported(Advancing, o, told))
  {
    assert (os + [o])[..n] == os;
    assert Statuses(os + [o]) == Statuses(os) + [o.status];
  }

  lemma BehindStep(p: Phase, exitRequested: bool, os: seq<Outcome>, n: nat, told: seq<Status>, o: Outcome)
    requires Stepped(p, os, n, told) && (p == Resuming || p == QueryingFinal)
    ensures Stepped(NextPhase(p, exitRequested, o), os + [o], n, Reported(p, o, told))
  {
    EndsStays(os, n, o);
  }

  /** The connection is past everything that is told. */
  predicate Past(p: Phase) {
    p in {Waiting, Retiring} || p.Closing? || p.Uncounting? || p.Finishing? || p.Finished?
  }

  lemma PastStep(p: Phase, exitRequested: bool, os: seq<Outcome>, n: nat, told: seq<Status>, o: Outcome)
    requires Stepped(p, os, n, told) && Past(p)
    ensures Stepped(NextPhase(p, exitRequested, o), os + [o], n, Reported(p, o, told))
  {
    if Over(os, n, told) { ToldStays(os, n, o, told); }
  }

  /** The same with the seven calls in front: the three queries, the filter, the count and two callbacks. */
  predicate Placed(p: Phase, os: seq<Outcome>, n: nat, told: seq<Status>) {
    match p
    case Connecting => |os| == 0
    case QueryingInfo => |os| == 1
    case QueryingStatus => |os| == 2
    case Filtering => |os| == 3
    case Counting => |os| == 4
    case Announcing => |os| == 5
    case Initializing => |os| == 6
    case Ignoring => true
    case SkippingInit => true
    case SkippingResume => true
    case Closing(fate) => fate == Accepted ==> |os| >= 7 && Stepped(p, os[7..], n, told)
    case Uncounting(fate) => fate == Accepted ==> |os| >= 7 && Stepped(p, os[7..], n, told)
    case Finishing(fate) => fate == Accepted ==> |os| >= 7 && Stepped(p, os[7..], n, told)
    case Finished(fate) => fate == Accepted ==> |os| >= 7 && Stepped(p, os[7..], n, told)
    case _ => |os| >= 7 && Stepped(p, os[7..], n, told)
  }

  lemma PlacedEarly(p: Phase, exitRequested: bool, os: seq<Outcome>, n: nat, told: seq<Status>, o: Outcome)
    requires Placed(p, os, n, told)
    requires p in {Connecting, QueryingInfo, QueryingStatus, Filtering, Ignoring, SkippingInit, SkippingResume, Counting, Announcing}
    ensures Placed(NextPhase(p, exitRequested, o), os + [o], n, Reported(p, o, told))
  {
  }

  lemma PlacedStep(p: Phase, exitRequested: bool, os: seq<Outcome>, n: nat, told: seq<Status>, o: Outcome) returns (m: nat)
    requires Placed(p, os, n, told)
    ensures Placed(NextPhase(p, exitRequested, o), os + [o], m, Reported(p, o, told))
  {
    m := n;
    if |os| >= 7 { assert (os + [o])[7..] == os[7..] + [o]; }
    if p == Initializing {
      m := 0;
      assert (os + [o])[7..] == [];
    } else if p == Advancing {
      AdvanceStep(exitRequested, os[7..], n, told, o);
      m := if NextPhase(p, exitRequested, o) == Advancing then n + 1 else n;
    } else if p == Resuming || p == QueryingFinal {
      BehindStep(p, exitRequested, os[7..], n, told, o);
    } else if Past(p) {
      PlacedPast(p, exitRequested, os, n, told, o);
    } else {
      PlacedEarly(p, exitRequested, os, n, told, o);
    }
  }

  lemma PlacedPast(p: Phase, exitRequested: bool, os: seq<Outcome>, n: nat, told: seq<Status>, o: Outcome)
    requires Placed(p, os, n, told) && Past(p)
    ensures Placed(NextPhase(p, exitRequested, o), os + [o], n, Reported(p, o, told))
  {
    if |os| >= 7 {
      assert (os + [o])[7..] == os[7..] + [o];
      if Stepped(p, os[7..], n, told) { PastStep(p, exitRequested, os[7..], n, told, o); }
    }
  }

  lemma {:induction false} PlacedRun(inputs: seq<Input>) returns (n: nat)
    ensures Placed(Run(Started, inputs).phase, Outcomes(inputs), n, AllReported(inputs))
    decreases |inputs|
  {
    n := 0;
    if inputs != [] {
      var k := |inputs| - 1;
      n := PlacedRun(inputs[..k]);
      if inputs[k].Call? {
        var t := Run(Started, inputs[..k]);
        n := PlacedStep(t.phase, t.exitRequested, Outcomes(inputs[..k]), n, AllReported(inputs[..k]), inputs[k].outcome);
      }
    }
  }

  /** The callbacks that tell these states. */
  lemma OpeningTold(os: seq<Outcome>, n: nat)
    requires n < |os|
    ensures var front := [Connected, StateChanged(6)] + Reports(Statuses(os[..n]));
            Opening(Told(os, n)) ==
              if os[n].result != Success then front
              else if |os| > n + 2 && Answered(os, n) then front + [StateChanged(7), StateChanged(os[n + 2].status)]
              else front + [StateChanged(7)]
  {
    var s := Statuses(os[..n]);
    OneMore(s, 7);
    if |os| > n + 2 {
      OneMore(s + [7], os[n + 2].status);
      assert s + [7] + [os[n + 2].status] == s + [7, os[n + 2].status];
    }
  }

  /** The callbacks of a connection that was accepted follow the driver: Connected, state 6, the states
      of the n advances before state 7 or the first failure, state 7 if it came, the state queried
      behind a successful resume, Disconnected; whatever else the tool does. */
  lemma CallbacksFollowDriver(inputs: seq<Input>) returns (n: nat)
    requires Run(Started, inputs).phase == Finished(Accepted)
    ensures var os := Outcomes(inputs);
            && |os| > 7 + n
            && (forall i | 7 <= i < 7 + n :: os[i].result == Success && os[i].status != 7)
            && (os[7 + n].result == Success ==>
                  os[7 + n].status == 7 && |os| > 8 + n && (os[8 + n].result == Success ==> |os| > 9 + n))
    ensures var os, trace := Outcomes(inputs), Run(Started, inputs).trace;
            var front := [Connected, StateChanged(6)] + Reports(Statuses(os[7..7 + n]));
            trace ==
              if os[7 + n].result != Success then front + [Disconnected]
              else if os[8 + n].result == Success && os[9 + n].result == Success
                then front + [StateChanged(7), StateChanged(os[9 + n].status)] + [Disconnected]
              else front + [StateChanged(7)] + [Disconnected]
  {
    n := PlacedRun(inputs);
    TracesFit(inputs);
    var os := Outcomes(inputs);
    var tail := os[7..];
    assert tail[..n] == os[7..7 + n];
    OpeningTold(tail, n);
    forall i | 7 <= i < 7 + n ensures os[i].result == Success && os[i].status != 7 {
      assert tail[..n][i - 7] == os[i];
    }
  }

  // ---- Waiting --------------------------------------------------------------------------------

  /** A waiting thread that is not asked to exit waits on exactly as long as the driver answers that it
      is still there, and tells the tool nothing meanwhile. */
  lemma {:induction false} WaitsWhileConnected(t: Thread, inputs: seq<Input>)
    requires t.phase == Waiting && !t.exitRequested && forall i | 0 <= i < |inputs| :: inputs[i].Call?
    ensures Run(t, inputs).phase == Waiting <==> forall i | 0 <= i < |inputs| :: inputs[i].outcome.result == NotReady
    ensures Run(t, inputs).phase == Waiting ==> Run(t, inputs) == t
    ensures !Run(t, inputs).exitRequested && Past(Run(t, inputs).phase)
  {
    if inputs != [] {
      var k := |inputs| - 1;
      WaitsWhileConnected(t, inputs[..k]);
    }
  }

  /** Where a thread that was asked to exit is after some calls. */
  function Leaving(calls: nat): Phase {
    if calls == 0 then Waiting
    else if calls == 1 then Retiring
    else if calls == 2 then Closing(Accepted)
    else if calls == 3 then Uncounting(Accepted)
    else if calls == 4 then Finishing(Accepted)
    else Finished(Accepted)
  }

  lemma LeavingStep(t: Thread, calls: nat, o: Outcome)
    requires t.exitRequested && t.phase == Leaving(calls)
    ensures Step(t, o).phase == Leaving(calls + 1) && Step(t, o).exitRequested
    ensures Step(t, o).trace == if calls == 1 then t.trace + [Disconnected] else t.trace
  {
  }

  /** A waiting thread that is asked to exit is finished after five more calls, whatever they come back
      with, and has told the tool that the driver is gone. */
  lemma {:induction false} ExitFinishes(t: Thread, inputs: seq<Input>)
    requires t.phase == Waiting
    ensures var u, calls := Run(Feed(t, RequestExit), inputs), |Outcomes(inputs)|;
            && u.exitRequested && u.phase == Leaving(calls)
            && u.trace == (if calls >= 2 then t.trace + [Disconnected] else t.trace)
            && (calls >= 5 ==> u.phase == Finished(Accepted))
    decreases |inputs|
  {
    if inputs != [] {
      var k := |inputs| - 1;
      ExitFinishes(t, inputs[..k]);
      if inputs[k].Call? {
        LeavingStep(Run(Feed(t, RequestExit), inputs[..k]), |Outcomes(inputs[..k])|, inputs[k].outcome);
      }
    }
  }

  // ---- What an ignored driver is told ---------------------------------------------------------

  /** The calls that a run made until the thread finished. */
  function Calls(inputs: seq<Input>): seq<Phase> {
    if inputs == [] then []
    else
      var before, p := inputs[..|inputs| - 1], Run(Started, inputs[..|inputs| - 1]).phase;
      if inputs[|inputs| - 1].Call? && !p.Finished? then Calls(before) + [p] else Calls(before)
  }

  function Skips(n: nat): (r: seq<Phase>)
    ensures |r| == n && forall i | 0 <= i < n :: r[i] == SkippingInit
  {
    seq(n, _ => SkippingInit)
  }

  /** Up to the command to ignore it, and n advances. */
  function Skipped(n: nat): seq<Phase> {
    [Connecting, QueryingInfo, QueryingStatus, Filtering, Ignoring] + Skips(n)
  }

  function Resumed(n: nat, resumed: bool): seq<Phase> {
    Skipped(n) + if resumed then [SkippingResume] else []
  }

  /** An old driver does not know the command; it is advanced n times without a failure or state 7. */
  predicate Skipping(os: seq<Outcome>, n: nat) {
    |os| >= 5 + n && os[4].result == VersionMismatch && forall i | 5 <= i < 5 + n :: os[i].result == Success && os[i].status != 7
  }

  /** It ends in a resume if the command succeeded or the last advance brought state 7. */
  predicate Skipped7(os: seq<Outcome>, n: nat, resumed: bool) {
    && |os| >= 5 + n
    && if n == 0 then os[4].result != VersionMismatch && (resumed <==> os[4].result == Success)
       else
         && Skipping(os, n - 1)
         && (os[4 + n].result == Success ==> os[4 + n].status == 7)
         && (resumed <==> os[4 + n].result == Success)
  }

  predicate IgnoredSoFar(p: Phase, os: seq<Outcome>, calls: seq<Phase>, n: nat, resumed: bool) {
    match p
    case Ignoring => |os| == 4 && calls == [Connecting, QueryingInfo, QueryingStatus, Filtering]
    case SkippingInit => |os| == 5 + n && Skipping(os, n) && calls == Skipped(n)
    case SkippingResume => |os| == 5 + n && Skipped7(os, n, true) && calls == Skipped(n)
    case Closing(fate) => fate == Ignored ==> Skipped7(os, n, resumed) && calls == Resumed(n, resumed)
    case Finishing(fate) => fate == Ignored ==> Skipped7(os, n, resumed) && calls == Resumed(n, resumed) + [Closing(Ignored)]
    case Finished(fate) =>
      fate == Ignored ==> Skipped7(os, n, resumed) && calls == Resumed(n, resumed) + [Closing(Ignored)] + [Finishing(Ignored)]
    case Connecting => |os| == 0 && calls == []
    case QueryingInfo => |os| == 1 && calls == [Connecting]
    case QueryingStatus => |os| == 2 && calls == [Connecting, QueryingInfo]
    case Filtering => |os| == 3 && calls == [Connecting, QueryingInfo, QueryingStatus]
    case _ => p != Uncounting(Ignored)
  }

  function CallsAfter(p: Phase, calls: seq<Phase>): seq<Phase> {
    if p.Finished? then calls else calls + [p]
  }

  lemma SkippedMore(n: nat)
    ensures Skipped(n) + [SkippingInit] == Skipped(n + 1)
    ensures Skips(0) == [] && Resumed(n, false) == Skipped(n)
  {
  }

  lemma SkippedStays(os: seq<Outcome>, n: nat, resumed: bool, o: Outcome)
    requires Skipped7(os, n, resumed)
    ensures Skipped7(os + [o], n, resumed)
  {
  }

  lemma CommandStep(exitRequested: bool, os: seq<Outcome>, calls: seq<Phase>, n: nat, resumed: bool, o: Outcome)
    requires IgnoredSoFar(Ignoring, os, calls, n, resumed)
    ensures IgnoredSoFar(NextPhase(Ignoring, exitRequested, o), os + [o], calls + [Ignoring], 0, false)
  {
    SkippedMore(0);
  }

  lemma SkipStep(exitRequested: bool, os: seq<Outcome>, calls: seq<Phase>, n: nat, resumed: bool, o: Outcome)
    requires IgnoredSoFar(SkippingInit, os, calls, n, resumed)
    ensures IgnoredSoFar(NextPhase(SkippingInit, exitRequested, o), os + [o], calls + [SkippingInit], n + 1, false)
  {
    SkippedMore(n);
    SkippedMore(n + 1);
  }

  lemma IgnoredLate(p: Phase, exitRequested: bool, os: seq<Outcome>, calls: seq<Phase>, n: nat, resumed: bool, o: Outcome)
    requires IgnoredSoFar(p, os, calls, n, resumed) && p !in {Ignoring, SkippingInit, Connecting, QueryingInfo, QueryingStatus, Filtering}
    ensures IgnoredSoFar(NextPhase(p, exitRequested, o), os + [o], CallsAfter(p, calls), n, if p == SkippingResume then true else resumed)
  {
    if p == SkippingResume {
      SkippedStays(os, n, true, o);
    } else if Skipped7(os, n, resumed) {
      SkippedStays(os, n, resumed, o);
    }
  }

  lemma IgnoredStep(p: Phase, exitRequested: bool, os: seq<Outcome>, calls: seq<Phase>, n: nat, resumed: bool, o: Outcome) returns (n': nat, resumed': bool)
    requires IgnoredSoFar(p, os, calls, n, resumed)
    ensures IgnoredSoFar(NextPhase(p, exitRequested, o), os + [o], CallsAfter(p, calls), n', resumed')
  {
    n', resumed' := n, if p == SkippingResume then true else resumed;
    if p == Ignoring {
      CommandStep(exitRequested, os, calls, n, resumed, o);
      n', resumed' := 0, false;
    } else if p == SkippingInit {
      SkipStep(exitRequested, os, calls, n, resumed, o);
      n', resumed' := n + 1, false;
    } else if p !in {Connecting, QueryingInfo, QueryingStatus, Filtering} {
      IgnoredLate(p, exitRequested, os, calls, n, resumed, o);
    }
  }

  lemma {:induction false} IgnoredRun(inputs: seq<Input>) returns (n: nat, resumed: bool)
    ensures IgnoredSoFar(Run(Started, inputs).phase, Outcomes(inputs), Calls(inputs), n, resumed)
    decreases |inputs|
  {
    n, resumed := 0, false;
    if inputs != [] {
      var k := |inputs| - 1;
      n, resumed := IgnoredRun(inputs[..k]);
      if inputs[k].Call? {
        var t := Run(Started, inputs[..k]);
        n, resumed := IgnoredStep(t.phase, t.exitRequested, Outcomes(inputs[..k]), Calls(inputs[..k]), n, resumed, inputs[k].outcome);
      }
    }
  }

  /** A driver that the filter ignores is told so. One that does not know the command is advanced, n
      times, to state 7 or the first failure. It is resumed if the command or the last advance, with
      state 7, succeeded; then it is disconnected, and that is all. */
  lemma IgnoredDriverIsReleased(inputs: seq<Input>) returns (n: nat, resumed: bool)
    requires Run(Started, inputs).phase == Finished(Ignored)
    ensures var os := Outcomes(inputs);
            && |os| >= 5 + n
            && Calls(inputs) ==
                 [Connecting, QueryingInfo, QueryingStatus, Filtering, Ignoring] + Skips(n)
                 + (if resumed then [SkippingResume] else []) + [Closing(Ignored)] + [Finishing(Ignored)]
            && (os[4].result == VersionMismatch <==> n > 0)
            && (forall i | 5 <= i < 4 + n :: os[i].result == Success && os[i].status != 7)
            && (n > 0 && os[4 + n].result == Success ==> os[4 + n].status == 7)
            && (resumed <==> os[4 + n].result == Success)
  {
    n, resumed := IgnoredRun(inputs);
  }
}
