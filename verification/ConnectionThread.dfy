/** The thread that serves one driver connection (DriverConnectionThreadFn and
    StepThroughDriverInitialization, apis/tools/src/dd_tool_connection.cpp) as a machine whose steps
    are its calls: each takes the outcome of the call and may emit a callback or touch the count. */
module ConnectionThread {

  /** DriverStatus: the numbers of the two states that the code compares with. */
  type Status = nat
  const PLATFORM_INIT: Status := 6
  const POST_DEVICE_INIT: Status := 7

  datatype CallResult = Success | VersionMismatch | NotReady | Failure

  /** What the call of a step comes back with: result, reported state, verdict of the filter. */
  datatype Outcome = Outcome(result: CallResult, status: Status, ignore: bool)

  datatype Event = Connected | StateChanged(status: Status) | Disconnected

  /** How a connection was decided: a call failed before that, the filter ignored it (and set
      ignoreConnection), or it was accepted and counted. */
  datatype Fate = FailedEarly | Ignored | Accepted

  /** The next call of the thread. */
  datatype Phase =
    | Connecting | QueryingInfo | QueryingStatus | Filtering
    | Ignoring | SkippingInit | SkippingResume
    | Counting | Announcing | Initializing | Advancing | Resuming | QueryingFinal | Waiting | Retiring
    | Closing(fate: Fate) | Uncounting(fate: Fate)
    | Finishing(fate: Fate) | Finished(fate: Fate)

  datatype Effect = None | Inc | Dec

  datatype Thread = Thread(phase: Phase, exitRequested: bool, trace: seq<Event>)

  const Started := Thread(Connecting, false, [])

  /** The next phase; only a phase of its own for every call that can be seen from outside. */
  function NextPhase(p: Phase, exitRequested: bool, o: Outcome): Phase {
    match p
    case Connecting => if o.result == Success then QueryingInfo else Closing(FailedEarly)
    case QueryingInfo => if o.result == Success then QueryingStatus else Closing(FailedEarly)
    case QueryingStatus => if o.result == Success && o.status == PLATFORM_INIT then Filtering else Closing(FailedEarly)
    case Filtering => if o.ignore then Ignoring else Counting
    case Ignoring =>
      if o.result == VersionMismatch then SkippingInit
      else if o.result == Success then SkippingResume
      else Closing(Ignored)
    case SkippingInit =>
      if o.result != Success then Closing(Ignored)
      else if o.status == POST_DEVICE_INIT then SkippingResume
      else SkippingInit
    case SkippingResume => Closing(Ignored)
    case Counting => Announcing
    case Announcing => Initializing
    case Initializing => Advancing
    case Advancing =>
      if o.result != Success then Retiring
      else if o.status == POST_DEVICE_INIT then Resuming
      else Advancing
    case Resuming => if o.result == Success then QueryingFinal else Retiring
    case QueryingFinal => if o.result == Success then Waiting else Retiring
    case Waiting => if o.result == NotReady && !exitRequested then Waiting else Retiring
    case Retiring => Closing(Accepted)
    case Closing(fate) => if fate == Ignored then Finishing(fate) else Uncounting(fate)
    case Uncounting(fate) => Finishing(fate)
    case Finishing(fate) => Finished(fate)
    case Finished(fate) => p
  }

  datatype Callback = Silent | Notify(event: Event)

  function CallbackOf(p: Phase, o: Outcome): Callback {
    match p
    case Announcing => Notify(Connected)
    case Initializing => Notify(StateChanged(PLATFORM_INIT))
    case Advancing => if o.result == Success then Notify(StateChanged(o.status)) else Silent
    case QueryingFinal => if o.result == Success then Notify(StateChanged(o.status)) else Silent
    case Retiring => Notify(Disconnected)
    case _ => Silent
  }

  function Traced(trace: seq<Event>, c: Callback): seq<Event> {
    match c case Silent => trace case Notify(e) => trace + [e]
  }

  function EffectOf(p: Phase): Effect {
    match p
    case Counting => Inc
    case Uncounting(_) => Dec
    case _ => None
  }

  function Step(t: Thread, o: Outcome): Thread {
    Thread(NextPhase(t.phase, t.exitRequested, o), t.exitRequested, Traced(t.trace, CallbackOf(t.phase, o)))
  }

  // ---- The callbacks --------------------------------------------------------------------------

  function Reports(statuses: seq<Status>): (es: seq<Event>)
    ensures |es| == |statuses| && forall i | 0 <= i < |es| :: es[i] == StateChanged(statuses[i])
  {
    seq(|statuses|, i requires 0 <= i < |statuses| => StateChanged(statuses[i]))
  }

  /** Connected, the first state, then further ones. */
  function Opening(statuses: seq<Status>): seq<Event> {
    [Connected, StateChanged(PLATFORM_INIT)] + Reports(statuses)
  }

  /** The post-device-init state ends the stepping: at most one more state follows it. */
  ghost predicate Stages(statuses: seq<Status>) {
    forall i | 0 <= i < |statuses| - 2 :: statuses[i] != POST_DEVICE_INIT
  }

  ghost predicate CompleteTrace(trace: seq<Event>) {
    trace == [] || exists statuses :: Stages(statuses) && trace == Opening(statuses) + [Disconnected]
  }

  ghost predicate NoPost(statuses: seq<Status>) {
    POST_DEVICE_INIT !in statuses
  }

  ghost predicate EndsInPost(statuses: seq<Status>) {
    statuses != [] && statuses[|statuses| - 1] == POST_DEVICE_INIT && NoPost(statuses[..|statuses| - 1])
  }

  /** What the callbacks so far look like in each phase, with these states reported after the first. */
  ghost predicate TraceFits(t: Thread, statuses: seq<Status>) {
    match t.phase
    case Announcing => t.trace == []
    case Initializing => t.trace == [Connected]
    case Advancing => NoPost(statuses) && t.trace == Opening(statuses)
    case Resuming => EndsInPost(statuses) && t.trace == Opening(statuses)
    case QueryingFinal => EndsInPost(statuses) && t.trace == Opening(statuses)
    case Waiting => Stages(statuses) && t.trace == Opening(statuses)
    case Retiring => Stages(statuses) && t.trace == Opening(statuses)
    case Closing(fate) => ClosedTrace(fate, t.trace, statuses)
    case Uncounting(fate) => fate != Ignored && ClosedTrace(fate, t.trace, statuses)
    case Finishing(fate) => ClosedTrace(fate, t.trace, statuses)
    case Finished(fate) => ClosedTrace(fate, t.trace, statuses)
    case _ => t.trace == []
  }

  ghost predicate ClosedTrace(fate: Fate, trace: seq<Event>, statuses: seq<Status>) {
    if fate == Accepted then Stages(statuses) && trace == Opening(statuses) + [Disconnected] else trace == []
  }

  /** The states reported after a step. */
  function Reported(p: Phase, o: Outcome, statuses: seq<Status>): seq<Status> {
    if (p == Advancing || p == QueryingFinal) && o.result == Success then statuses + [o.status]
    else if p == Initializing then []
    else statuses
  }

  lemma OneMore(statuses: seq<Status>, s: Status)
    ensures Opening(statuses + [s]) == Opening(statuses) + [StateChanged(s)]
    ensures NoPost(statuses) && s != POST_DEVICE_INIT ==> NoPost(statuses + [s])
    ensures NoPost(statuses) && s == POST_DEVICE_INIT ==> EndsInPost(statuses + [s])
    ensures EndsInPost(statuses) ==> Stages(statuses + [s])
  {
    assert (statuses + [s])[..|statuses|] == statuses;
    assert Reports(statuses + [s]) == Reports(statuses) + [StateChanged(s)];
  }

  lemma EarlyStep(t: Thread, o: Outcome, statuses: seq<Status>)
    requires TraceFits(t, statuses)
    requires t.phase in {Connecting, QueryingInfo, QueryingStatus, Filtering, Ignoring, SkippingInit, SkippingResume, Counting}
    ensures TraceFits(Step(t, o), statuses)
  {
  }

  lemma LateStep(t: Thread, o: Outcome, statuses: seq<Status>)
    requires TraceFits(t, statuses)
    requires t.phase.Closing? || t.phase.Uncounting? || t.phase.Finishing? || t.phase.Finished? || t.phase == Retiring
    ensures TraceFits(Step(t, o), statuses)
  {
  }

  lemma ReportingStep(t: Thread, o: Outcome, statuses: seq<Status>)
    requires TraceFits(t, statuses) && (t.phase == Advancing || t.phase == QueryingFinal)
    ensures TraceFits(Step(t, o), Reported(t.phase, o, statuses))
  {
    OneMore(statuses, o.status);
  }

  lemma InitStep(t: Thread, o: Outcome, statuses: seq<Status>)
    requires TraceFits(t, statuses) && t.phase in {Announcing, Initializing, Resuming, Waiting}
    ensures TraceFits(Step(t, o), Reported(t.phase, o, statuses))
  {
    assert Opening([]) == [Connected] + [StateChanged(PLATFORM_INIT)];
  }

  /** Every step keeps the shape of the callbacks. */
  lemma TraceStep(t: Thread, o: Outcome, statuses: seq<Status>)
    requires TraceFits(t, statuses)
    ensures TraceFits(Step(t, o), Reported(t.phase, o, statuses))
  {
    if t.phase == Advancing || t.phase == QueryingFinal {
      ReportingStep(t, o, statuses);
    } else if t.phase in {Announcing, Initializing, Resuming, Waiting} {
      InitStep(t, o, statuses);
    } else if t.phase in {Connecting, QueryingInfo, QueryingStatus, Filtering, Ignoring, SkippingInit, SkippingResume, Counting} {
      EarlyStep(t, o, statuses);
    } else {
      LateStep(t, o, statuses);
    }
  }

  /** A thread behind a sequence of outcomes, with an exit request at any point. */
  datatype Input = Call(outcome: Outcome) | RequestExit

  function Feed(t: Thread, i: Input): Thread {
    match i case Call(o) => Step(t, o) case RequestExit => t.(exitRequested := true)
  }

  function Run(t: Thread, inputs: seq<Input>): Thread {
    if inputs == [] then t else Feed(Run(t, inputs[..|inputs| - 1]), inputs[|inputs| - 1])
  }

  /** The states reported in a run. */
  function AllReported(inputs: seq<Input>): seq<Status> {
    if inputs == [] then []
    else
      var before, i := inputs[..|inputs| - 1], inputs[|inputs| - 1];
      match i
      case Call(o) => Reported(Run(Started, before).phase, o, AllReported(before))
      case RequestExit => AllReported(before)
  }

  lemma {:induction false} TracesFit(inputs: seq<Input>)
    ensures TraceFits(Run(Started, inputs), AllReported(inputs))
    decreases |inputs|
  {
    if inputs != [] {
      var k := |inputs| - 1;
      TracesFit(inputs[..k]);
      if inputs[k].Call? { TraceStep(Run(Started, inputs[..k]), inputs[k].outcome, AllReported(inputs[..k])); }
    }
  }

  /** For every driver and filter: the callbacks of a finished connection are none, or Connected,
      the platform-init state, further states of which post-device-init comes at the end or just
      before it, and Disconnected. There are some exactly when the connection was accepted. */
  lemma TracesOfAllRuns(inputs: seq<Input>)
    requires Run(Started, inputs).phase.Finished?
    ensures var t := Run(Started, inputs);
            CompleteTrace(t.trace) && (t.phase.fate == Accepted <==> t.trace != [])
  {
    TracesFit(inputs);
  }

  // ---- Every such trace occurs ----------------------------------------------------------------

  lemma RunStep(t: Thread, inputs: seq<Input>, i: Input)
    ensures Run(t, inputs + [i]) == Feed(Run(t, inputs), i)
  {
    assert (inputs + [i])[..|inputs|] == inputs;
  }

  /** One more call extends a run. */
  lemma Extend(start: Thread, inputs: seq<Input>, t: Thread, o: Outcome) returns (more: seq<Input>)
    requires Run(start, inputs) == t
    ensures Run(start, more) == Step(t, o)
  {
    RunStep(start, inputs, Call(o));
    more := inputs + [Call(o)];
  }

  const Good := Outcome(Success, PLATFORM_INIT, false)
  const Bad := Outcome(Failure, PLATFORM_INIT, false)

  lemma Accept() returns (inputs: seq<Input>)
    ensures Run(Started, inputs) == Thread(Counting, false, [])
  {
    inputs := Extend(Started, [], Started, Good);
    inputs := Extend(Started, inputs, Thread(QueryingInfo, false, []), Good);
    inputs := Extend(Started, inputs, Thread(QueryingStatus, false, []), Good);
    inputs := Extend(Started, inputs, Thread(Filtering, false, []), Good);
  }

  lemma Announce() returns (inputs: seq<Input>)
    ensures Run(Started, inputs) == Thread(Advancing, false, Opening([]))
  {
    inputs := Accept();
    inputs := Extend(Started, inputs, Thread(Counting, false, []), Good);
    inputs := Extend(Started, inputs, Thread(Announcing, false, []), Good);
    inputs := Extend(Started, inputs, Thread(Initializing, false, [Connected]), Good);
    assert Opening([]) == [Connected] + [StateChanged(PLATFORM_INIT)];
  }

  /** A well-behaved driver is stepped through any states before post-device-init. */
  lemma {:induction false} AdvanceThrough(statuses: seq<Status>) returns (inputs: seq<Input>)
    requires NoPost(statuses)
    ensures Run(Started, inputs) == Thread(Advancing, false, Opening(statuses))
  {
    if statuses == [] {
      inputs := Announce();
    } else {
      var k := |statuses| - 1;
      var before := AdvanceThrough(statuses[..k]);
      inputs := Extend(Started, before, Thread(Advancing, false, Opening(statuses[..k])), Outcome(Success, statuses[k], false));
      OneMore(statuses[..k], statuses[k]);
      assert statuses[..k] + [statuses[k]] == statuses;
    }
  }

  /** The driver goes through all these states, wherever post-device-init comes. */
  lemma ReachStages(statuses: seq<Status>) returns (inputs: seq<Input>)
    requires Stages(statuses)
    ensures Run(Started, inputs).trace == Opening(statuses) && !Run(Started, inputs).exitRequested
    ensures var p := Run(Started, inputs).phase; p == Advancing || p == Resuming || p == Waiting
  {
    if NoPost(statuses) {
      inputs := AdvanceThrough(statuses);
    } else {
      var n := |statuses|;
      if n >= 2 && statuses[n - 2] == POST_DEVICE_INIT {
        assert statuses[..n - 1] + [statuses[n - 1]] == statuses;
        inputs := ReachFinal(statuses[..n - 1], statuses[n - 1]);
      } else {
        inputs := ReachPost(statuses);
      }
    }
  }

  /** One more state, queried behind post-device-init. */
  lemma ReachFinal(statuses: seq<Status>, last: Status) returns (inputs: seq<Input>)
    requires EndsInPost(statuses)
    ensures Run(Started, inputs) == Thread(Waiting, false, Opening(statuses + [last]))
  {
    inputs := ReachPost(statuses);
    inputs := Extend(Started, inputs, Thread(Resuming, false, Opening(statuses)), Good);
    inputs := Extend(Started, inputs, Thread(QueryingFinal, false, Opening(statuses)), Outcome(Success, last, false));
    OneMore(statuses, last);
  }

  lemma ReachPost(statuses: seq<Status>) returns (inputs: seq<Input>)
    requires EndsInPost(statuses)
    ensures Run(Started, inputs) == Thread(Resuming, false, Opening(statuses))
  {
    var k := |statuses| - 1;
    var before := AdvanceThrough(statuses[..k]);
    inputs := Extend(Started, before, Thread(Advancing, false, Opening(statuses[..k])), Outcome(Success, POST_DEVICE_INIT, false));
    OneMore(statuses[..k], POST_DEVICE_INIT);
    assert statuses[..k] + [POST_DEVICE_INIT] == statuses;
  }

  lemma Conclude(before: seq<Input>, fate: Fate, trace: seq<Event>) returns (inputs: seq<Input>)
    requires Run(Started, before) == Thread(Uncounting(fate), false, trace)
    ensures Run(Started, inputs) == Thread(Finished(fate), false, trace)
  {
    inputs := Extend(Started, before, Thread(Uncounting(fate), false, trace), Good);
    inputs := Extend(Started, inputs, Thread(Finishing(fate), false, trace), Good);
  }

  /** A thread that closes a connection goes on to finish. */
  lemma WindDown(before: seq<Input>, fate: Fate, trace: seq<Event>) returns (inputs: seq<Input>)
    requires Run(Started, before) == Thread(Closing(fate), false, trace) && fate != Ignored
    ensures Run(Started, inputs) == Thread(Finished(fate), false, trace)
  {
    inputs := Extend(Started, before, Thread(Closing(fate), false, trace), Good);
    inputs := Conclude(inputs, fate, trace);
  }

  /** A failing call retires an accepted thread. */
  lemma Retire(before: seq<Input>, p: Phase, trace: seq<Event>) returns (inputs: seq<Input>)
    requires Run(Started, before) == Thread(p, false, trace) && (p == Advancing || p == Resuming || p == Waiting)
    ensures Run(Started, inputs) == Thread(Closing(Accepted), false, trace + [Disconnected])
  {
    inputs := Extend(Started, before, Thread(p, false, trace), Bad);
    inputs := Extend(Started, inputs, Thread(Retiring, false, trace), Good);
  }

  /** The description of the traces is exact: each one is the trace of some finished run. */
  lemma EveryTraceOccurs(trace: seq<Event>) returns (inputs: seq<Input>)
    requires CompleteTrace(trace)
    ensures Run(Started, inputs).phase.Finished? && Run(Started, inputs).trace == trace
  {
    if trace == [] {
      inputs := Extend(Started, [], Started, Bad);
      inputs := WindDown(inputs, FailedEarly, []);
    } else {
      var statuses :| Stages(statuses) && trace == Opening(statuses) + [Disconnected];
      inputs := ReachStages(statuses);
      inputs := Retire(inputs, Run(Started, inputs).phase, Opening(statuses));
      inputs := WindDown(inputs, Accepted, trace);
    }
  }
}
