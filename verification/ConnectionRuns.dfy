/** The threads inside the system of all connections: each goes through a run of its own, so what a
    connection weighs in the count depends on the outcomes of its calls alone. */
module ConnectionRuns {
  import opened ConnectionThread
  import opened ConnectionFate
  import opened ToolConnections

  /** What happened to the i-th connection, once it is there. */
  function InputsOf(features: nat, actions: seq<Action>, i: nat): seq<Input> {
    if actions == [] then []
    else
      var k := |actions| - 1;
      var before, there := InputsOf(features, actions[..k], i), i < |RunAll(InitialSystem(features), actions[..k]).connections|;
      if there && actions[k].Advance? && actions[k].i == i then before + [Call(actions[k].outcome)]
      else if there && actions[k].AskExit? && actions[k].i == i then before + [RequestExit]
      else before
  }

  lemma NotThereYet(features: nat, actions: seq<Action>, i: nat)
    requires i >= |RunAll(InitialSystem(features), actions).connections|
    ensures InputsOf(features, actions, i) == []
    decreases |actions|
  {
    if actions != [] {
      var k := |actions| - 1;
      ConnectionsStay(RunAll(InitialSystem(features), actions[..k]), actions[k], i);
      NotThereYet(features, actions[..k], i);
    }
  }

  /** One step of the system, as the i-th connection sees it. */
  lemma ConnectionsStay(s: System, a: Action, i: nat)
    ensures |s.connections| <= |Next(s, a).connections| <= |s.connections| + 1
    ensures i < |s.connections| ==>
              var t, t' := s.connections[i].thread, Next(s, a).connections[i].thread;
              if a.Advance? && a.i == i then t' == Step(t, a.outcome)
              else if a.AskExit? && a.i == i then t' == Feed(t, RequestExit)
              else t' == t
    ensures |s.connections| <= i < |Next(s, a).connections| ==> Next(s, a).connections[i].thread == Started
  {
  }

  /** In every interleaving each thread is where its own outcomes and exit requests have brought it. */
  lemma {:induction false} ThreadsAreRuns(features: nat, actions: seq<Action>, i: nat)
    requires i < |RunAll(InitialSystem(features), actions).connections|
    ensures RunAll(InitialSystem(features), actions).connections[i].thread == Run(Started, InputsOf(features, actions, i))
    decreases |actions|
  {
    if actions != [] {
      var k := |actions| - 1;
      var s := RunAll(InitialSystem(features), actions[..k]);
      ConnectionsStay(s, actions[k], i);
      if i < |s.connections| {
        ThreadsAreRuns(features, actions[..k], i);
        RunMore(features, actions, i);
      } else {
        NotThereYet(features, actions[..k], i);
      }
    }
  }

  lemma RunMore(features: nat, actions: seq<Action>, i: nat)
    requires actions != [] && i < |RunAll(InitialSystem(features), actions[..|actions| - 1]).connections|
    ensures var a, before := actions[|actions| - 1], InputsOf(features, actions[..|actions| - 1], i);
            Run(Started, InputsOf(features, actions, i)) ==
              if a.Advance? && a.i == i then Step(Run(Started, before), a.outcome)
              else if a.AskExit? && a.i == i then Feed(Run(Started, before), RequestExit)
              else Run(Started, before)
  {
    var a, before := actions[|actions| - 1], InputsOf(features, actions[..|actions| - 1], i);
    if a.Advance? && a.i == i {
      RunStep(Started, before, Call(a.outcome));
    } else if a.AskExit? && a.i == i {
      RunStep(Started, before, RequestExit);
    }
  }

  // ---- What a connection weighs ---------------------------------------------------------------

  lemma PhaseWeighs(p: Phase, os: seq<Outcome>, n: nat, told: seq<Status>)
    requires Decided(p, os) && Placed(p, os, n, told) && |os| >= 5
    ensures Greeted(os) && !os[3].ignore <==> Live(p) || p == Finishing(Accepted) || p == Finished(Accepted)
    ensures !Greeted(os) <==> Early(p)
  {
  }

  /** In every interleaving, behind its fifth call: the first three calls of a connection succeeded in
      state 6 and the filter did not ignore it exactly if it is live or has been live and is past its
      decrement; one of them failed, or the state was another, exactly if it is on its way to the
      decrement that no increment matches, or past it. */
  lemma WeightByOutcomes(features: nat, actions: seq<Action>, i: nat)
    requires i < |RunAll(InitialSystem(features), actions).connections|
    requires |Outcomes(InputsOf(features, actions, i))| >= 5
    ensures var p, os := RunAll(InitialSystem(features), actions).connections[i].thread.phase, Outcomes(InputsOf(features, actions, i));
            var reached := os[0].result == os[1].result == os[2].result == Success && os[2].status == 6;
            && (reached && !os[3].ignore <==> Live(p) || p == Finishing(Accepted) || p == Finished(Accepted))
            && (!reached <==> Early(p))
  {
    var inputs := InputsOf(features, actions, i);
    ThreadsAreRuns(features, actions, i);
    DecidedRun(inputs);
    var n := PlacedRun(inputs);
    PhaseWeighs(Run(Started, inputs).phase, Outcomes(inputs), n, AllReported(inputs));
  }
}
