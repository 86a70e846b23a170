/** Overrides and queries together: what a tool sends as an override is what it reads back. */
module SettingsRoundTrip {
  import opened Bytes
  import opened SettingsWire
  import opened SettingsIteration
  import opened SettingsStore
  import opened OverridesEncoding
  import opened SettingsService
  import opened SettingsQuery
  import opened SettingsNarrowing
  import DynamicBuffers

  lemma CStringWhole(s: seq<Byte>)
    requires 0 !in s
    ensures CString(s) == s
  {
  }

  lemma CStringOfFirst(a: seq<Byte>, tail: seq<Byte>)
    requires 0 in a
    ensures CString(a + tail) == CString(a)
  {
    CStringShort(a);
    CStringUnique(a + tail, CString(a));
  }

  lemma CStringOfBoth(a: seq<Byte>, tail: seq<Byte>)
    requires 0 !in a
    ensures CString(a + tail) == a + CString(tail)
  {
    var rest := CString(tail);
    if |rest| < |tail| {
      assert (a + tail)[|a + rest|] == tail[|rest|] == 0;
      CStringUnique(a + tail, a + rest);
    } else {
      assert rest == tail;
      CStringWhole(a + tail);
    }
  }

  lemma CStringConcat(a: seq<Byte>, tail: seq<Byte>)
    ensures CString(a + tail) == if 0 in a then CString(a) else a + CString(tail)
  {
    if 0 in a { CStringOfFirst(a, tail); } else { CStringOfBoth(a, tail); }
  }

  /** The text of a string setting behind an override: the override's own, or, if that has no
      terminator, with the old characters behind it. */
  function TextAfter(s: Setting, v: Value): seq<Byte>
    requires ValidSetting(s) && v.kind == s.kind == 10 && |v.data| <= s.size
  {
    if 0 in v.data then CString(v.data) else v.data + CString(s.storage.bytes[|v.data|..])
  }

  /** The items with the override's hash: a scalar exactly as it was sent, a string as its text with
      a terminator, and no item at all for an empty text. */
  ghost predicate Shows(items: seq<Value>, s: Setting, v: Value)
    requires ValidSetting(s) && s.kind == v.kind && |v.data| <= s.size
  {
    forall x: Value | x.hash == v.hash ::
      x in items <==>
        if s.kind == 10 then TextAfter(s, v) != [] && x == Value(v.hash, 10, TextAfter(s, v) + [0])
        else x == v
  }

  lemma AssignedReports(m: Settings, s: Setting, v: Value, x: Value)
    requires ValidSetting(s) && s.kind == v.kind && |v.data| <= s.size
    requires x.hash == v.hash && v.hash in m && HoldsOverride(m[v.hash], s, v)
    ensures Reports(m, x) <==>
              if s.kind == 10 then TextAfter(s, v) != [] && x == Value(v.hash, 10, TextAfter(s, v) + [0])
              else x == v
  {
    if s.kind == 10 { CStringConcat(v.data, s.storage.bytes[|v.data|..]); }
  }

  /** Items that report exactly the settings behind a list of overrides show each accepted one. */
  lemma OverrideShown(m: Settings, vs: seq<Value>, k: nat, items: seq<Value>)
    requires ValidSettings(m) && AllExact(vs) && DistinctHashes(vs) && KeepTerminators(m, vs)
    requires k < |vs| && vs[k].hash in m && m[vs[k].hash].kind == vs[k].kind && |vs[k].data| <= m[vs[k].hash].size
    requires forall x :: x in items <==> Reports(ApplyAll(m, vs), x)
    ensures Shows(items, m[vs[k].hash], vs[k])
  {
    AcceptedIsHeld(m, vs, k);
    forall x: Value | x.hash == vs[k].hash
      ensures Reports(ApplyAll(m, vs), x) <==>
                if m[vs[k].hash].kind == 10
                then TextAfter(m[vs[k].hash], vs[k]) != [] && x == Value(vs[k].hash, 10, TextAfter(m[vs[k].hash], vs[k]) + [0])
                else x == vs[k]
    {
      AssignedReports(ApplyAll(m, vs), m[vs[k].hash], vs[k], x);
    }
  }

  /** And every other setting as it was. */
  lemma OthersShown(m: Settings, vs: seq<Value>, h: nat, items: seq<Value>)
    requires ValidSettings(m) && AllExact(vs) && h in m
    requires forall k | 0 <= k < |vs| && vs[k].hash == h :: m[h].kind != vs[k].kind || m[h].size < |vs[k].data|
    requires forall x :: x in items <==> Reports(ApplyAll(m, vs), x)
    ensures forall x: Value | x.hash == h :: x in items <==> Reports(m, x)
  {
    RefusedIsKept(m, vs, h);
  }

  /** What a later query shows of overrides that were sent to a component with these settings. */
  ghost predicate ShowsOverrides(items: seq<Value>, m: Settings, vs: seq<Value>)
    requires ValidSettings(m)
  {
    && (forall k | 0 <= k < |vs| && vs[k].hash in m && m[vs[k].hash].kind == vs[k].kind && |vs[k].data| <= m[vs[k].hash].size ::
          Shows(items, m[vs[k].hash], vs[k]))
    && (forall h | h in m && (forall k | 0 <= k < |vs| && vs[k].hash == h :: m[h].kind != vs[k].kind || m[h].size < |vs[k].data|) ::
          forall x: Value | x.hash == h :: x in items <==> Reports(m, x))
  }

  lemma AllShown(m: Settings, vs: seq<Value>, items: seq<Value>)
    requires ValidSettings(m) && AllExact(vs) && DistinctHashes(vs) && KeepTerminators(m, vs)
    requires forall x :: x in items <==> Reports(ApplyAll(m, vs), x)
    ensures ShowsOverrides(items, m, vs)
  {
    forall k | 0 <= k < |vs| && vs[k].hash in m && m[vs[k].hash].kind == vs[k].kind && |vs[k].data| <= m[vs[k].hash].size
      ensures Shows(items, m[vs[k].hash], vs[k])
    {
      OverrideShown(m, vs, k, items);
    }
    forall h | h in m && (forall k | 0 <= k < |vs| && vs[k].hash == h :: m[h].kind != vs[k].kind || m[h].size < |vs[k].data|)
      ensures forall x: Value | x.hash == h :: x in items <==> Reports(m, x)
    {
      OthersShown(m, vs, h, items);
    }
  }

  // ---- A tool and a service -------------------------------------------------------------------

  /** One answer for each of these components. */
  ghost predicate AnswersAll(answer: seq<Reading<Value>>, cs: seq<SettingsBase>)
    reads set i | 0 <= i < |cs| :: cs[i]
  {
    |answer| == |cs| && forall i | 0 <= i < |cs| :: AnswersFor(answer[i], cs[i])
  }

  /** The query round trip: reading the answer of a service gives one answer for each registered
      component, with exactly its present settings and their number, if every component has at most
      65535 bytes. With memory for every request the query succeeds. */
  method QueryRoundTrip(service: SettingsRpcService, grants: DynamicBuffers.Allocator, scratch: DynamicBuffers.Allocator)
    returns (ok: bool, fits: bool, answer: seq<Reading<Value>>, cs: seq<SettingsBase>, rs: seq<Registered>)
    requires service.Keyed() && |service.settingsComponents| < U16_LIMIT
    requires forall n | n in service.settingsComponents :: Queryable(service.settingsComponents[n])
    ensures DynamicBuffers.Generous(grants) && DynamicBuffers.Generous(scratch) ==> ok
    ensures Lists(cs, service.settingsComponents) && Enumerated(rs, cs)
    ensures fits <==> forall i | 0 <= i < |rs| :: ComponentSize(ToQueried(rs[i])) < U16_LIMIT
    ensures ok && fits ==> AnswersAll(answer, cs)
  {
    answer := [];
    var out := new DynamicBuffers.DynamicBuffer(grants);
    ok, rs, cs := service.QueryAllCurrentValues(out, scratch);
    fits := AllSmall(rs);
    ok := ok && out.error == DynamicBuffers.Success;
    if ok && fits {
      var wire := out.View();
      answer := ReadFor(wire, rs, cs);
    }
  }

  /** The tool's reader, for the components that the service enumerated. */
  method ReadFor(wire: seq<Byte>, ghost rs: seq<Registered>, ghost cs: seq<SettingsBase>) returns (answer: seq<Reading<Value>>)
    requires Enumerated(rs, cs) && |rs| < U16_LIMIT && forall i | 0 <= i < |rs| :: ComponentSize(ToQueried(rs[i])) < U16_LIMIT
    requires wire == EncodeQuery(|rs|, ToQueries(rs))
    ensures AnswersAll(answer, cs)
  {
    answer := ReadAnswer(wire, rs);
  }

  /** What is read for a component with experiments. */
  function ExperimentsOf(c: SettingsBase): Reading<nat>
    reads c
  {
    Reading(NameField(c.name), c.blobHash, |c.unsupportedExperiments|, c.unsupportedExperiments)
  }

  /** The scratch buffer of a query holds the experiments of each component. */
  ghost predicate ExperimentsFit(m: ComponentMap, capacity: nat)
    reads m.Values
  {
    forall n | n in m :: HASH_SIZE * |m[n].unsupportedExperiments| <= capacity
  }

  lemma FitsAlike(ls: seq<Lister>, cs: seq<SettingsBase>, m: ComponentMap, capacity: nat)
    requires Lists(cs, m) && WithExperiments(ls, cs)
    ensures AllFit(ls, |ls|, capacity) <==> ExperimentsFit(m, capacity)
  {
    if AllFit(ls, |ls|, capacity) {
      forall n | n in m ensures HASH_SIZE * |m[n].unsupportedExperiments| <= capacity {
        var i :| 0 <= i < |cs| && cs[i] == m[n];
        assert ValidLister(ls[i]);
      }
    }
    if ExperimentsFit(m, capacity) {
      forall i | 0 <= i < |ls| ensures HASH_SIZE * |ls[i].hashes| <= capacity { assert ValidLister(ls[i]); }
    }
  }

  /** Exactly the registered components with experiments are answered. */
  ghost predicate AnswersExperiments(answer: seq<Reading<nat>>, m: ComponentMap)
    reads m.Values
  {
    forall a :: a in answer <==> exists n :: n in m && m[n].unsupportedExperiments != [] && a == ExperimentsOf(m[n])
  }

  lemma AnsweredIsRegistered(ls: seq<Lister>, cs: seq<SettingsBase>, m: ComponentMap, i: nat) returns (n: seq<Byte>)
    requires Lists(cs, m) && WithExperiments(ls, cs) && i < |Listed(ls)|
    ensures n in m && m[n].unsupportedExperiments != [] && ExpectedList(Listed(ls)[i]) == ExperimentsOf(m[n])
  {
    var l := Listed(ls)[i];
    var k :| 0 <= k < |ls| && ls[k] == l;
    n := cs[k].name;
    assert ValidLister(ls[k]) && m[n] == cs[k];
  }

  lemma RegisteredIsAnswered(ls: seq<Lister>, cs: seq<SettingsBase>, m: ComponentMap, n: seq<Byte>) returns (i: nat)
    requires Lists(cs, m) && WithExperiments(ls, cs) && n in m && m[n].unsupportedExperiments != []
    ensures i < |Listed(ls)| && ExpectedList(Listed(ls)[i]) == ExperimentsOf(m[n])
  {
    var k :| 0 <= k < |cs| && cs[k] == m[n];
    assert ValidLister(ls[k]);
    ListedExact(ls, ls[k]);
    i :| 0 <= i < |Listed(ls)| && Listed(ls)[i] == ls[k];
  }

  lemma ListedAreRegistered(ls: seq<Lister>, cs: seq<SettingsBase>, m: ComponentMap, answer: seq<Reading<nat>>)
    requires Lists(cs, m) && WithExperiments(ls, cs)
    requires |answer| == |Listed(ls)| && forall i | 0 <= i < |answer| :: answer[i] == ExpectedList(Listed(ls)[i])
    ensures AnswersExperiments(answer, m)
  {
    forall a ensures a in answer <==> exists n :: n in m && m[n].unsupportedExperiments != [] && a == ExperimentsOf(m[n]) {
      if a in answer {
        var i :| 0 <= i < |answer| && answer[i] == a;
        var n := AnsweredIsRegistered(ls, cs, m, i);
      }
      if n :| n in m && m[n].unsupportedExperiments != [] && a == ExperimentsOf(m[n]) {
        var i := RegisteredIsAnswered(ls, cs, m, n);
        assert answer[i] == a;
      }
    }
  }

  /** The round trip of experiments: with memory for every request it is answered exactly if no component
      has more than 1024 of them, and gives exactly the registered components that have some. */
  method ExperimentsRoundTrip(service: SettingsRpcService, grants: DynamicBuffers.Allocator, scratch: DynamicBuffers.Allocator)
    returns (r: QueryResult, answer: seq<Reading<nat>>)
    requires service.Keyed() && |service.settingsComponents| < U16_LIMIT
    requires forall n | n in service.settingsComponents :: service.settingsComponents[n].Valid()
    ensures DynamicBuffers.Generous(grants) ==>
              r == if ExperimentsFit(service.settingsComponents, ScratchCapacity(scratch)) then Answered else InvalidParameter
    ensures DynamicBuffers.Generous(grants) && scratch(0) ==>
              (r == Answered <==> forall n | n in service.settingsComponents :: |service.settingsComponents[n].unsupportedExperiments| <= 1024)
    ensures r == Answered ==> AnswersExperiments(answer, service.settingsComponents)
  {
    answer := [];
    var out := new DynamicBuffers.DynamicBuffer(grants);
    var ls;
    ghost var cs;
    r, ls, cs := service.GetUnsupportedExperiments(out, scratch);
    FitsAlike(ls, cs, service.settingsComponents, ScratchCapacity(scratch));
    if r == Answered && out.error != DynamicBuffers.Success { r := WriteFailed; }
    if r == Answered {
      var wire := out.View();
      answer := ReadExperimentsAnswer(wire, ls);
      ListedAreRegistered(ls, cs, service.settingsComponents, answer);
    }
  }

  /** The whole circle: a tool's overrides are encoded, parsed, stored and applied when a component
      registers with a service, where others may be registered already. A query of the service is
      written, read and shows, for that component, exactly those overrides that it accepted and all its
      other settings as they were. It succeeds with memory for every request, if all components have at
      most 65535 bytes. */
  method OverrideThenQuery(service: SettingsRpcService, os: seq<ComponentOverrides>, component: SettingsBase,
                           grants: DynamicBuffers.Allocator, queryGrants: DynamicBuffers.Allocator, scratch: DynamicBuffers.Allocator)
    returns (delivered: bool, ok: bool, fits: bool, answer: seq<Reading<Value>>, cs: seq<SettingsBase>, rs: seq<Registered>, i: nat)
    requires AllEncodable(os) && DistinctNames(os) && component.Valid() && service.allUserOverrides == map[]
    requires forall i | 0 <= i < |os| :: AllExact(os[i].values)
    requires DistinctHashes(OverridesFor(os, component.name)) && KeepTerminators(component.settings, OverridesFor(os, component.name))
    requires service.Keyed() && |service.settingsComponents| + 1 < U16_LIMIT
    requires forall n | n in service.settingsComponents && service.settingsComponents[n] != component :: Queryable(service.settingsComponents[n])
    modifies service, component`settings
    ensures component.Valid() && (DynamicBuffers.Generous(grants) ==> delivered)
    ensures delivered && DynamicBuffers.Generous(queryGrants) && DynamicBuffers.Generous(scratch) ==> ok
    ensures delivered ==> Lists(cs, old(service.settingsComponents)[component.name := component]) && Enumerated(rs, cs)
    ensures delivered ==> (fits <==> forall k | 0 <= k < |rs| :: ComponentSize(ToQueried(rs[k])) < U16_LIMIT)
    ensures ok && fits ==> delivered && AnswersAll(answer, cs) && i < |cs| && cs[i] == component
    ensures ok && fits ==> ShowsOverrides(answer[i].items, old(component.settings), OverridesFor(os, component.name))
  {
    ok, fits, answer, cs, rs, i := false, false, [], [], [], 0;
    ghost var m, vs := component.settings, OverridesFor(os, component.name);
    delivered := DeliverQueryable(service, os, component, grants);
    if delivered { ok, fits, answer, cs, rs, i := QueryFor(service, component, queryGrants, scratch, m, vs); }
  }

  /** Query a service and find the answer for one of its components. */
  method QueryFor(service: SettingsRpcService, component: SettingsBase, grants: DynamicBuffers.Allocator, scratch: DynamicBuffers.Allocator,
                  ghost m: Settings, ghost vs: seq<Value>)
    returns (ok: bool, fits: bool, answer: seq<Reading<Value>>, cs: seq<SettingsBase>, rs: seq<Registered>, i: nat)
    requires service.Keyed() && |service.settingsComponents| < U16_LIMIT
    requires forall n | n in service.settingsComponents :: Queryable(service.settingsComponents[n])
    requires component.name in service.settingsComponents && service.settingsComponents[component.name] == component
    requires ValidSettings(m) && AllExact(vs) && DistinctHashes(vs) && KeepTerminators(m, vs) && component.settings == ApplyAll(m, vs)
    ensures DynamicBuffers.Generous(grants) && DynamicBuffers.Generous(scratch) ==> ok
    ensures Lists(cs, service.settingsComponents) && Enumerated(rs, cs)
    ensures fits <==> forall k | 0 <= k < |rs| :: ComponentSize(ToQueried(rs[k])) < U16_LIMIT
    ensures i < |cs| && cs[i] == component
    ensures ok && fits ==> AnswersAll(answer, cs) && ShowsOverrides(answer[i].items, m, vs)
  {
    ok, fits, answer, cs, rs := QueryRoundTrip(service, grants, scratch);
    i := FindComponent(cs, component);
    if ok && fits { AnswerShows(answer[i], component, m, vs); }
  }

  lemma UpdateGrows(m: ComponentMap, c: SettingsBase)
    ensures |m[c.name := c]| <= |m| + 1
  {
    assert m[c.name := c].Keys == m.Keys + {c.name};
    assert |m.Keys + {c.name}| <= |m.Keys| + 1;
    assert |m.Keys| == |m| && |m[c.name := c].Keys| == |m[c.name := c]|;
  }

  lemma AnswerShows(a: Reading<Value>, c: SettingsBase, m: Settings, vs: seq<Value>)
    requires ValidSettings(m) && AllExact(vs) && DistinctHashes(vs) && KeepTerminators(m, vs)
    requires AnswersFor(a, c) && c.settings == ApplyAll(m, vs)
    ensures ShowsOverrides(a.items, m, vs)
  {
    AllShown(m, vs, a.items);
  }

  /** Overrides that keep terminators leave a service that can be queried. */
  method DeliverQueryable(service: SettingsRpcService, os: seq<ComponentOverrides>, component: SettingsBase, grants: DynamicBuffers.Allocator)
    returns (delivered: bool)
    requires AllEncodable(os) && DistinctNames(os) && component.Valid() && service.allUserOverrides == map[]
    requires forall i | 0 <= i < |os| :: AllExact(os[i].values)
    requires DistinctHashes(OverridesFor(os, component.name)) && KeepTerminators(component.settings, OverridesFor(os, component.name))
    requires service.Keyed()
    requires forall n | n in service.settingsComponents && service.settingsComponents[n] != component :: Queryable(service.settingsComponents[n])
    modifies service, component`settings
    ensures component.Valid() && (DynamicBuffers.Generous(grants) ==> delivered)
    ensures AllExact(OverridesFor(os, component.name))
    ensures delivered ==> component.settings == ApplyAll(old(component.settings), OverridesFor(os, component.name))
    ensures delivered ==> service.Keyed() && service.settingsComponents == old(service.settingsComponents)[component.name := component]
    ensures delivered ==> forall n | n in service.settingsComponents :: Queryable(service.settingsComponents[n])
    ensures delivered ==> |service.settingsComponents| <= |old(service.settingsComponents)| + 1
  {
    UpdateGrows(service.settingsComponents, component);
    ghost var m, vs, asks := component.settings, OverridesFor(os, component.name), 0;
    delivered, asks := DeliverOverrides(service, os, component, grants);
    if delivered { ApplyAllTerminated(m, vs); }
  }

  method FindComponent(cs: seq<SettingsBase>, c: SettingsBase) returns (i: nat)
    requires c in cs
    ensures i < |cs| && cs[i] == c
  {
    i := 0;
    assert cs[..|cs|] == cs;
    while i < |cs| && cs[i] != c
      invariant i <= |cs| && c !in cs[..i]
    {
      i := i + 1;
    }
  }
}
