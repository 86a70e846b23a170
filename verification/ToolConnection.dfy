/** All driver connections of a tool (ToolConnection, apis/tools/src/dd_tool_connection.cpp) and the
    feature calls that their count guards (DriverUtils::SetFeature, apis/tools/src/dd_driver_utils.cpp),
    as one system whose steps interleave freely. */
module ToolConnections {
  import opened ConnectionThread
  import opened FeatureLock
  import Bytes

  const COUNT_LIMIT: nat := Bytes.U32_LIMIT

  /** A connection with its thread; it is listed until its finished thread is joined. */
  datatype Connection = Connection(id: nat, thread: Thread, listed: bool)

  /** A SetFeature call: it reads the count first, and only then takes the lock and updates. Live and
      early are the numbers of live connections and of early failures when it read the count. */
  datatype Progress = Rejected | Admitted | Applied
  datatype FeatureCall = FeatureCall(feature: nat, request: Request, live: nat, early: nat, progress: Progress)

  datatype System = System(connections: seq<Connection>, count: nat, features: seq<State>, calls: seq<FeatureCall>)

  datatype Action =
    | Spawn(id: nat)
    | Advance(i: nat, outcome: Outcome)
    | AskExit(i: nat)
    | Join(i: nat)
    | BeginCall(feature: nat, request: Request)
    | FinishCall(c: nat)

  // ---- What a thread weighs in the count ------------------------------------------------------

  /** Incremented and not yet decremented. */
  predicate Live(p: Phase) {
    match p
    case Announcing => true
    case Initializing => true
    case Advancing => true
    case Resuming => true
    case QueryingFinal => true
    case Waiting => true
    case Retiring => true
    case Closing(fate) => fate == Accepted
    case Uncounting(fate) => fate == Accepted
    case _ => false
  }

  /** Decremented without having been incremented. */
  predicate Early(p: Phase) {
    match p
    case Finishing(fate) => fate == FailedEarly
    case Finished(fate) => fate == FailedEarly
    case _ => false
  }

  function One(b: bool): nat {
    if b then 1 else 0
  }

  function LiveCount(cs: seq<Connection>): (n: nat)
    ensures n <= |cs|
  {
    if cs == [] then 0 else LiveCount(cs[..|cs| - 1]) + One(Live(cs[|cs| - 1].thread.phase))
  }

  function EarlyCount(cs: seq<Connection>): (n: nat)
    ensures n <= |cs|
  {
    if cs == [] then 0 else EarlyCount(cs[..|cs| - 1]) + One(Early(cs[|cs| - 1].thread.phase))
  }

  lemma {:induction false} CountsAfterUpdate(cs: seq<Connection>, i: nat, c: Connection)
    requires i < |cs|
    ensures LiveCount(cs[i := c]) == LiveCount(cs) - One(Live(cs[i].thread.phase)) + One(Live(c.thread.phase))
    ensures EarlyCount(cs[i := c]) == EarlyCount(cs) - One(Early(cs[i].thread.phase)) + One(Early(c.thread.phase))
    decreases |cs|
  {
    var k := |cs| - 1;
    if i == k {
      assert cs[i := c][..k] == cs[..k];
    } else {
      CountsAfterUpdate(cs[..k], i, c);
      assert cs[i := c][..k] == cs[..k][i := c];
    }
  }

  lemma CountsAfterSpawn(cs: seq<Connection>, c: Connection)
    requires c.thread == Started
    ensures LiveCount(cs + [c]) == LiveCount(cs) && EarlyCount(cs + [c]) == EarlyCount(cs)
  {
    assert (cs + [c])[..|cs|] == cs;
  }

  lemma {:induction false} SomeLive(cs: seq<Connection>, i: nat)
    requires i < |cs| && Live(cs[i].thread.phase)
    ensures LiveCount(cs) > 0
    decreases |cs|
  {
    if i < |cs| - 1 { SomeLive(cs[..|cs| - 1], i); }
  }

  lemma {:induction false} NoEarly(cs: seq<Connection>)
    requires forall i | 0 <= i < |cs| :: !Early(cs[i].thread.phase)
    ensures EarlyCount(cs) == 0
    decreases |cs|
  {
    if cs != [] { NoEarly(cs[..|cs| - 1]); }
  }

  lemma {:induction false} LiveAndEarlyApart(cs: seq<Connection>)
    ensures LiveCount(cs) + EarlyCount(cs) <= |cs|
    decreases |cs|
  {
    if cs != [] { LiveAndEarlyApart(cs[..|cs| - 1]); }
  }

  // ---- The steps ------------------------------------------------------------------------------

  function Counted(count: nat, e: Effect): nat {
    match e
    case None => count
    case Inc => if count == COUNT_LIMIT - 1 then 0 else count + 1
    case Dec => if count == 0 then COUNT_LIMIT - 1 else count - 1
  }

  predicate IsListed(cs: seq<Connection>, id: nat) {
    exists i | 0 <= i < |cs| :: cs[i].listed && cs[i].id == id
  }

  /** One step of the system; a step that is not enabled leaves it as it is. */
  function Next(s: System, a: Action): System {
    match a
    case Spawn(id) =>
      if IsListed(s.connections, id) then s else s.(connections := s.connections + [Connection(id, Started, true)])
    case Advance(i, o) =>
      if i < |s.connections| then
        var c := s.connections[i];
        s.(connections := s.connections[i := c.(thread := Step(c.thread, o))], count := Counted(s.count, EffectOf(c.thread.phase)))
      else s
    case AskExit(i) =>
      if i < |s.connections| then
        s.(connections := s.connections[i := s.connections[i].(thread := Feed(s.connections[i].thread, RequestExit))])
      else s
    case Join(i) =>
      if i < |s.connections| && s.connections[i].thread.phase.Finished? then
        s.(connections := s.connections[i := s.connections[i].(listed := false)])
      else s
    case BeginCall(f, r) =>
      if f < |s.features| then
        s.(calls := s.calls + [FeatureCall(f, r, LiveCount(s.connections), EarlyCount(s.connections), if s.count == 0 then Admitted else Rejected)])
      else s
    case FinishCall(c) =>
      if c < |s.calls| && s.calls[c].progress == Admitted && s.calls[c].feature < |s.features| then
        var call := s.calls[c];
        s.(features := s.features[call.feature := Update(s.features[call.feature], call.request)],
           calls := s.calls[c := call.(progress := Applied)])
      else s
  }

  function InitialSystem(features: nat): System {
    System([], 0, seq(features, _ => Initial), [])
  }

  function RunAll(s: System, actions: seq<Action>): System {
    if actions == [] then s else Next(RunAll(s, actions[..|actions| - 1]), actions[|actions| - 1])
  }

  // ---- The invariant --------------------------------------------------------------------------

  /** Congruence of two counts as the 32-bit counter sees them. */
  predicate Same32(a: int, b: int) {
    (a - b) % COUNT_LIMIT == 0
  }

  ghost predicate CountIsBalance(s: System) {
    s.count < COUNT_LIMIT && Same32(s.count, LiveCount(s.connections) - EarlyCount(s.connections))
  }

  ghost predicate Fits(t: Thread) {
    exists statuses :: TraceFits(t, statuses)
  }

  lemma FitsStep(t: Thread, o: Outcome)
    requires Fits(t)
    ensures Fits(Step(t, o)) && Fits(Feed(t, RequestExit))
  {
    var statuses :| TraceFits(t, statuses);
    TraceStep(t, o, statuses);
    assert TraceFits(Feed(t, RequestExit), statuses);
  }

  lemma FitsStarted()
    ensures Fits(Started)
  {
    assert TraceFits(Started, []);
  }

  lemma NeverUncountsIgnored(t: Thread)
    requires Fits(t)
    ensures t.phase != Uncounting(Ignored)
  {
  }

  /** The callbacks of every thread have the shape that its phase asks for; a connection that is no
      longer listed is finished; of those that share an id only the last can be listed. */
  ghost predicate ConnectionsFit(cs: seq<Connection>) {
    && (forall i | 0 <= i < |cs| :: Fits(cs[i].thread))
    && (forall i | 0 <= i < |cs| && !cs[i].listed :: cs[i].thread.phase.Finished?)
    && (forall i, j | 0 <= i < j < |cs| && cs[i].id == cs[j].id :: !cs[i].listed)
  }

  /** A call was let through exactly when live connections and early failures were equal in number,
      as far as 32 bits can tell. */
  ghost predicate CallFits(c: FeatureCall) {
    c.progress == Rejected <==> !Same32(c.live, c.early)
  }

  ghost predicate Invariant(s: System) {
    && CountIsBalance(s) && ConnectionsFit(s.connections)
    && (forall c | 0 <= c < |s.calls| :: CallFits(s.calls[c]))
    && (forall f | 0 <= f < |s.features| :: Consistent(s.features[f]))
  }

  function Delta(e: Effect): int {
    match e case None => 0 case Inc => 1 case Dec => -1
  }

  lemma WeightStep(p: Phase, exitRequested: bool, o: Outcome)
    requires p != Uncounting(Ignored)
    ensures var q := NextPhase(p, exitRequested, o);
            One(Live(q)) - One(Early(q)) == One(Live(p)) - One(Early(p)) + Delta(EffectOf(p))
  {
  }

  lemma CountedIsDelta(count: nat, e: Effect, balance: int)
    requires count < COUNT_LIMIT && Same32(count, balance)
    ensures Counted(count, e) < COUNT_LIMIT && Same32(Counted(count, e), balance + Delta(e))
  {
  }

  /** The balance of all connections after one of them has moved. */
  lemma BalanceMoves(cs: seq<Connection>, i: nat, o: Outcome)
    requires i < |cs| && Fits(cs[i].thread)
    ensures var cs' := cs[i := cs[i].(thread := Step(cs[i].thread, o))];
            LiveCount(cs') - EarlyCount(cs') == LiveCount(cs) - EarlyCount(cs) + Delta(EffectOf(cs[i].thread.phase))
  {
    var t := cs[i].thread;
    CountsAfterUpdate(cs, i, cs[i].(thread := Step(t, o)));
    NeverUncountsIgnored(t);
    WeightStep(t.phase, t.exitRequested, o);
  }

  /** A change that leaves the phase alone. */
  lemma BalanceStays(cs: seq<Connection>, i: nat, c: Connection)
    requires i < |cs| && c.thread.phase == cs[i].thread.phase
    ensures LiveCount(cs[i := c]) == LiveCount(cs) && EarlyCount(cs[i := c]) == EarlyCount(cs)
  {
    CountsAfterUpdate(cs, i, c);
  }

  lemma AdvanceCounts(s: System, i: nat, o: Outcome)
    requires CountIsBalance(s) && i < |s.connections| && Fits(s.connections[i].thread)
    ensures CountIsBalance(Next(s, Advance(i, o)))
  {
    var cs := s.connections;
    BalanceMoves(cs, i, o);
    CountedIsDelta(s.count, EffectOf(cs[i].thread.phase), LiveCount(cs) - EarlyCount(cs));
  }

  lemma SpawnCounts(s: System, id: nat)
    requires CountIsBalance(s)
    ensures CountIsBalance(Next(s, Spawn(id)))
  {
    CountsAfterSpawn(s.connections, Connection(id, Started, true));
  }

  lemma FlagsCount(s: System, i: nat)
    requires CountIsBalance(s)
    ensures CountIsBalance(Next(s, AskExit(i))) && CountIsBalance(Next(s, Join(i)))
  {
    var cs := s.connections;
    if i < |cs| {
      BalanceStays(cs, i, cs[i].(thread := Feed(cs[i].thread, RequestExit)));
      BalanceStays(cs, i, cs[i].(listed := false));
    }
  }

  lemma CountKept(s: System, a: Action)
    requires CountIsBalance(s) && ConnectionsFit(s.connections)
    ensures CountIsBalance(Next(s, a))
  {
    var cs := s.connections;
    match a
    case Spawn(id) => SpawnCounts(s, id);
    case Advance(i, o) => if i < |cs| { AdvanceCounts(s, i, o); }
    case AskExit(i) => FlagsCount(s, i);
    case Join(i) => FlagsCount(s, i);
    case BeginCall(f, r) => assert Next(s, a).connections == cs && Next(s, a).count == s.count;
    case FinishCall(c) => assert Next(s, a).connections == cs && Next(s, a).count == s.count;
  }

  /** Replacing a connection by one with the same id and flag, whose thread fits. */
  lemma ReplaceFits(cs: seq<Connection>, i: nat, t: Thread, listed: bool)
    requires ConnectionsFit(cs) && i < |cs| && Fits(t) && (listed ==> cs[i].listed)
    requires !listed ==> t.phase.Finished?
    ensures ConnectionsFit(cs[i := Connection(cs[i].id, t, listed)])
  {
  }

  lemma SpawnFits(cs: seq<Connection>, id: nat)
    requires ConnectionsFit(cs) && !IsListed(cs, id)
    ensures ConnectionsFit(cs + [Connection(id, Started, true)])
  {
    FitsStarted();
  }

  lemma ConnectionsKept(s: System, a: Action)
    requires ConnectionsFit(s.connections)
    ensures ConnectionsFit(Next(s, a).connections)
  {
    var cs := s.connections;
    match a
    case Spawn(id) => if !IsListed(cs, id) { SpawnFits(cs, id); }
    case Advance(i, o) => if i < |cs| {
      FitsStep(cs[i].thread, o);
      ReplaceFits(cs, i, Step(cs[i].thread, o), cs[i].listed);
    }
    case AskExit(i) => if i < |cs| {
      FitsStep(cs[i].thread, Good);
      ReplaceFits(cs, i, Feed(cs[i].thread, RequestExit), cs[i].listed);
    }
    case Join(i) => if i < |cs| && cs[i].thread.phase.Finished? { ReplaceFits(cs, i, cs[i].thread, false); }
    case BeginCall(f, r) =>
    case FinishCall(c) =>
  }

  lemma FeaturesKept(s: System, a: Action)
    requires Invariant(s)
    ensures forall f | 0 <= f < |Next(s, a).features| :: Consistent(Next(s, a).features[f])
    ensures forall c | 0 <= c < |Next(s, a).calls| :: CallFits(Next(s, a).calls[c])
  {
    if a.FinishCall? && a.c < |s.calls| && s.calls[a.c].feature < |s.features| {
      var call := s.calls[a.c];
      UpdateConsistent(s.features[call.feature], call.request);
    }
  }

  lemma UpdateConsistent(s: State, r: Request)
    requires Consistent(s)
    ensures Consistent(Update(s, r))
  {
    WithoutMembers(s.setters, r.name);
  }

  /** In every interleaving of threads and feature calls the invariant holds. */
  lemma {:induction false} InvariantOfAllRuns(features: nat, actions: seq<Action>)
    ensures Invariant(RunAll(InitialSystem(features), actions))
    decreases |actions|
  {
    if actions != [] {
      var k := |actions| - 1;
      InvariantOfAllRuns(features, actions[..k]);
      var s := RunAll(InitialSystem(features), actions[..k]);
      CountKept(s, actions[k]);
      ConnectionsKept(s, actions[k]);
      FeaturesKept(s, actions[k]);
    }
  }

  // ---- What follows for the callers -----------------------------------------------------------

  ghost predicate Reachable(s: System) {
    exists features: nat, actions: seq<Action> :: s == RunAll(InitialSystem(features), actions)
  }

  lemma ReachableKeeps(s: System)
    requires Reachable(s)
    ensures Invariant(s)
  {
    var features: nat, actions: seq<Action> :| s == RunAll(InitialSystem(features), actions);
    InvariantOfAllRuns(features, actions);
  }

  /** With fewer than 2^32 connections so far, a call is let through if and only if as many
      connections are live as have failed before they were accepted. */
  lemma AdmittedExactly(s: System, f: nat, r: Request)
    requires Reachable(s) && |s.connections| < COUNT_LIMIT && f < |s.features|
    ensures var s' := Next(s, BeginCall(f, r));
            && s'.features == s.features && |s'.calls| == |s.calls| + 1
            && (s'.calls[|s.calls|].progress == Admitted <==> LiveCount(s.connections) == EarlyCount(s.connections))
  {
    ReachableKeeps(s);
    LiveAndEarlyApart(s.connections);
    SmallBalance(s.count, LiveCount(s.connections), EarlyCount(s.connections));
  }

  lemma SmallBalance(count: nat, live: nat, early: nat)
    requires count < COUNT_LIMIT && live < COUNT_LIMIT && early < COUNT_LIMIT && Same32(count, live - early)
    ensures count == 0 <==> live == early
  {
  }

  /** What a step may do to a call: at most finish it, if it was admitted. */
  ghost predicate SameCall(before: FeatureCall, after: FeatureCall) {
    && after == before.(progress := after.progress)
    && (after.progress == before.progress || (before.progress == Admitted && after.progress == Applied))
  }

  lemma CallStep(s: System, a: Action, c: nat)
    requires c < |s.calls|
    ensures c < |Next(s, a).calls| && SameCall(s.calls[c], Next(s, a).calls[c]) && |Next(s, a).features| == |s.features|
  {
  }

  /** In every continuation a call keeps its request and what it saw; a rejected one stays rejected. */
  lemma {:induction false} CallKept(s: System, actions: seq<Action>, c: nat)
    requires c < |s.calls|
    ensures var s' := RunAll(s, actions);
            c < |s'.calls| && SameCall(s.calls[c], s'.calls[c]) && |s'.features| == |s.features|
    decreases |actions|
  {
    if actions != [] {
      var k := |actions| - 1;
      CallKept(s, actions[..k], c);
      CallStep(RunAll(s, actions[..k]), actions[k], c);
    }
  }

  /** A step changes the features if and only if it finishes, for the first time, a call that saw as
      many live connections as early failures, and whose request makes a difference now. */
  lemma ChangesExactly(s: System, a: Action)
    requires Reachable(s)
    ensures Next(s, a).features != s.features <==>
              && a.FinishCall? && a.c < |s.calls| && s.calls[a.c].progress != Applied
              && Same32(s.calls[a.c].live, s.calls[a.c].early)
              && s.calls[a.c].feature < |s.features|
              && Update(s.features[s.calls[a.c].feature], s.calls[a.c].request) != s.features[s.calls[a.c].feature]
  {
    ReachableKeeps(s);
    if a.FinishCall? && a.c < |s.calls| {
      assert CallFits(s.calls[a.c]);
      var call := s.calls[a.c];
      if call.feature < |s.features| {
        UpdateAt(s.features, call.feature, Update(s.features[call.feature], call.request));
      }
    }
  }

  lemma UpdateAt(fs: seq<State>, f: nat, v: State)
    requires f < |fs|
    ensures fs[f := v] != fs <==> v != fs[f]
  {
    assert fs[f := v][f] == v;
  }

  lemma ReachableRun(s: System, actions: seq<Action>)
    requires Reachable(s)
    ensures Reachable(RunAll(s, actions))
    decreases |actions|
  {
    if actions != [] {
      var k := |actions| - 1;
      ReachableRun(s, actions[..k]);
      ReachableStep(RunAll(s, actions[..k]), actions[k]);
    }
  }

  /** When exactly a call changes a feature, whatever happens between its start and its end: if as many
      connections were live as had failed early when it started, however many are live by now, and its
      request makes a difference when it finishes. */
  lemma CallChangesExactly(s: System, f: nat, r: Request, later: seq<Action>)
    requires Reachable(s) && |s.connections| < COUNT_LIMIT && f < |s.features|
    ensures var c := |s.calls|;
            var s' := RunAll(Next(s, BeginCall(f, r)), later);
            && c < |s'.calls| && f < |s'.features|
            && (s'.calls[c].progress != Applied ==>
                  (Next(s', FinishCall(c)).features != s'.features <==>
                     LiveCount(s.connections) == EarlyCount(s.connections) && Update(s'.features[f], r) != s'.features[f]))
  {
    var begun, c := Next(s, BeginCall(f, r)), |s.calls|;
    ReachableStep(s, BeginCall(f, r));
    ReachableRun(begun, later);
    CallKept(begun, later, c);
    ChangesExactly(RunAll(begun, later), FinishCall(c));
    LiveAndEarlyApart(s.connections);
    SmallDifference(LiveCount(s.connections), EarlyCount(s.connections));
  }

  lemma SmallDifference(live: nat, early: nat)
    requires live < COUNT_LIMIT && early < COUNT_LIMIT
    ensures Same32(live, early) <==> live == early
  {
  }

  /** While a connection is live, and none has failed early, a call that starts changes nothing: it
      is rejected, and in every continuation no step of it changes a feature. */
  lemma LiveConnectionLocksFeatures(s: System, i: nat, f: nat, r: Request, later: seq<Action>)
    requires Reachable(s) && |s.connections| < COUNT_LIMIT && f < |s.features|
    requires i < |s.connections| && Live(s.connections[i].thread.phase)
    requires forall k | 0 <= k < |s.connections| :: !Early(s.connections[k].thread.phase)
    ensures var c := |s.calls|;
            var s' := RunAll(Next(s, BeginCall(f, r)), later);
            && Next(s, BeginCall(f, r)).features == s.features
            && c < |s'.calls| && s'.calls[c].progress == Rejected && Next(s', FinishCall(c)) == s'
  {
    SomeLive(s.connections, i);
    NoEarly(s.connections);
    AdmittedExactly(s, f, r);
    CallKept(Next(s, BeginCall(f, r)), later, |s.calls|);
  }

  /** A tool that has been told Connected and not yet Disconnected has a live connection. */
  lemma ConnectedIsLive(s: System, i: nat)
    requires Reachable(s) && i < |s.connections|
    requires var trace := s.connections[i].thread.trace; trace != [] && trace[|trace| - 1] != Disconnected
    ensures Live(s.connections[i].thread.phase)
  {
    ReachableKeeps(s);
    assert Fits(s.connections[i].thread);
    var statuses :| TraceFits(s.connections[i].thread, statuses);
  }

  /** Connections that share an id follow one another: the earlier one has finished. */
  lemma OneThreadPerId(s: System, i: nat, j: nat)
    requires Reachable(s) && i < j < |s.connections| && s.connections[i].id == s.connections[j].id
    ensures s.connections[i].thread.phase.Finished?
  {
    ReachableKeeps(s);
    assert !s.connections[i].listed;
  }

  // ---- Where the lock does not hold -----------------------------------------------------------

  lemma ReachableStep(s: System, a: Action)
    requires Reachable(s)
    ensures Reachable(Next(s, a))
  {
    var features: nat, actions: seq<Action> :| s == RunAll(InitialSystem(features), actions);
    assert (actions + [a])[..|actions|] == actions;
    assert Next(s, a) == RunAll(InitialSystem(features), actions + [a]);
  }

  /** The last connection makes one step. */
  lemma MoveLast(s: System, cs: seq<Connection>, id: nat, t: Thread, o: Outcome) returns (s': System)
    requires Reachable(s) && s.connections == cs + [Connection(id, t, true)]
    ensures Reachable(s')
    ensures s' == System(cs + [Connection(id, Step(t, o), true)], Counted(s.count, EffectOf(t.phase)), s.features, s.calls)
  {
    s' := Next(s, Advance(|cs|, o));
    ReachableStep(s, Advance(|cs|, o));
    assert s'.connections == cs + [Connection(id, Step(t, o), true)];
  }

  /** One more connection fails at once, and takes one off the count. */
  lemma FailsEarly(s: System, id: nat) returns (s': System)
    requires Reachable(s) && !IsListed(s.connections, id)
    ensures Reachable(s')
    ensures s' == System(s.connections + [Connection(id, Thread(Finishing(FailedEarly), false, []), true)], Counted(s.count, Dec), s.features, s.calls)
  {
    var cs := s.connections;
    ReachableStep(s, Spawn(id));
    s' := Next(s, Spawn(id));
    s' := MoveLast(s', cs, id, Started, Bad);
    s' := MoveLast(s', cs, id, Thread(Closing(FailedEarly), false, []), Good);
    s' := MoveLast(s', cs, id, Thread(Uncounting(FailedEarly), false, []), Good);
  }

  /** One more connection is accepted. */
  lemma IsAccepted(s: System, id: nat) returns (s': System)
    requires Reachable(s) && !IsListed(s.connections, id)
    ensures Reachable(s')
    ensures s' == System(s.connections + [Connection(id, Thread(Announcing, false, []), true)], Counted(s.count, Inc), s.features, s.calls)
  {
    var cs := s.connections;
    ReachableStep(s, Spawn(id));
    s' := Next(s, Spawn(id));
    s' := MoveLast(s', cs, id, Started, Good);
    s' := MoveLast(s', cs, id, Thread(QueryingInfo, false, []), Good);
    s' := MoveLast(s', cs, id, Thread(QueryingStatus, false, []), Good);
    s' := MoveLast(s', cs, id, Thread(Filtering, false, []), Good);
    s' := MoveLast(s', cs, id, Thread(Counting, false, []), Good);
  }

  lemma EmptySystem(features: nat)
    ensures Reachable(InitialSystem(features))
  {
    assert InitialSystem(features) == RunAll(InitialSystem(features), []);
  }

  lemma FirstCallChanges(s: System, r: Request)
    requires s.count == 0 && s.calls == [] && s.features == [Initial] && r.flag != Ignore
    ensures Next(Next(s, BeginCall(0, r)), FinishCall(0)).features == [State(r.flag, [r.name])]
  {
    var call := FeatureCall(0, r, LiveCount(s.connections), EarlyCount(s.connections), Admitted);
    assert Next(s, BeginCall(0, r)) == s.(calls := [call]);
    assert Update(Initial, r) == State(r.flag, [r.name]);
  }

  /** After one early failure the count of the next, live connection is zero again, and a call that
      starts then changes the feature. */
  lemma EarlyFailureUnlocks(r: Request) returns (s: System)
    requires r.flag != Ignore
    ensures Reachable(s) && |s.connections| == 2 && Live(s.connections[1].thread.phase)
    ensures Next(Next(s, BeginCall(0, r)), FinishCall(0)).features == [State(r.flag, [r.name])] != s.features
  {
    EmptySystem(1);
    s := FailsEarly(InitialSystem(1), 1);
    s := IsAccepted(s, 2);
    FirstCallChanges(s, r);
  }

  /** And with no connection at all, one early failure makes every call fail. */
  lemma EarlyFailureLocks(r: Request) returns (s: System)
    ensures Reachable(s) && LiveCount(s.connections) == 0 && |s.features| == 1
    ensures Next(s, BeginCall(0, r)).calls[0].progress == Rejected
  {
    EmptySystem(1);
    s := FailsEarly(InitialSystem(1), 1);
  }

  lemma FirstCallBegins(r: Request)
    ensures Next(InitialSystem(1), BeginCall(0, r)) == System([], 0, [Initial], [FeatureCall(0, r, 0, 0, Admitted)])
  {
    assert InitialSystem(1).features == [Initial];
  }

  lemma FirstCallFinishes(s: System, r: Request)
    requires s.features == [Initial] && s.calls == [FeatureCall(0, r, 0, 0, Admitted)] && r.flag != Ignore
    ensures Next(s, FinishCall(0)).features == [State(r.flag, [r.name])]
  {
    assert Update(Initial, r) == State(r.flag, [r.name]);
  }

  lemma OneConnection(c: Connection)
    ensures LiveCount([c]) == One(Live(c.thread.phase)) && EarlyCount([c]) == One(Early(c.thread.phase))
  {
    assert [c][..0] == [];
  }

  /** The check and the update are two steps: a call that started before a connection was accepted
      may change a feature while the connection is live. */
  lemma LateUpdateChanges(r: Request) returns (s: System)
    requires r.flag != Ignore
    ensures Reachable(s) && LiveCount(s.connections) == 1 && EarlyCount(s.connections) == 0
    ensures Next(s, FinishCall(0)).features != s.features
  {
    EmptySystem(1);
    ReachableStep(InitialSystem(1), BeginCall(0, r));
    FirstCallBegins(r);
    s := IsAccepted(System([], 0, [Initial], [FeatureCall(0, r, 0, 0, Admitted)]), 1);
    assert s.connections == [Connection(1, Thread(Announcing, false, []), true)];
    OneConnection(s.connections[0]);
    FirstCallFinishes(s, r);
  }
}
