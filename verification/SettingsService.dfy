/** The driver side of the settings protocol (apis/settings/src/dd_settings_service.cpp): overrides
    are parsed and stored by component name, applied when a component registers, and the current
    values are encoded on a query. */
module SettingsService {
  import opened Bytes
  import opened SettingsWire
  import opened SettingsIteration
  import opened SettingsStore
  import opened OverridesEncoding
  import opened SettingsQuery
  import opened SettingsNarrowing
  import opened SettingsWriting
  import DynamicBuffers

  datatype ParseResult = Parsed | EntryExists

  type OverrideMap = map<seq<Byte>, seq<Value>>

  /** The name under which a component's overrides are stored: the C string in the name field. */
  function NameOf(o: ComponentOverrides): seq<Byte>
    requires |o.name| == NAME_SIZE
  {
    CString(WireName(o.name))
  }

  /** Store component after component; a name that is already there stops the parse. */
  function StoreAll(m: OverrideMap, os: seq<ComponentOverrides>): (ParseResult, OverrideMap)
    requires forall i | 0 <= i < |os| :: |os[i].name| == NAME_SIZE
    decreases |os|
  {
    if os == [] then (Parsed, m)
    else if NameOf(os[0]) in m then (EntryExists, m)
    else StoreAll(m[NameOf(os[0]) := os[0].values], os[1..])
  }

  ghost predicate DistinctNames(os: seq<ComponentOverrides>)
    requires forall i | 0 <= i < |os| :: |os[i].name| == NAME_SIZE
  {
    forall i, j | 0 <= i < j < |os| :: NameOf(os[i]) != NameOf(os[j])
  }

  lemma DistinctTail(os: seq<ComponentOverrides>)
    requires (forall i | 0 <= i < |os| :: |os[i].name| == NAME_SIZE) && DistinctNames(os) && os != []
    ensures forall i | 0 <= i < |os| - 1 :: os[1..][i] == os[i + 1]
    ensures DistinctNames(os[1..])
  {
    forall i, j | 0 <= i < j < |os| - 1 ensures NameOf(os[1..][i]) != NameOf(os[1..][j]) {
      assert os[1..][i] == os[i + 1] && os[1..][j] == os[j + 1];
    }
  }

  /** Each name keeps what was stored before, or gets the values that come with it. */
  ghost predicate Stores(m: OverrideMap, os: seq<ComponentOverrides>, m': OverrideMap)
    requires forall i | 0 <= i < |os| :: |os[i].name| == NAME_SIZE
  {
    && (forall i | 0 <= i < |os| :: NameOf(os[i]) in m' && m'[NameOf(os[i])] == os[i].values)
    && (forall k | k in m :: k in m' && m'[k] == m[k])
    && (forall k | k in m' :: k in m || exists i :: 0 <= i < |os| && NameOf(os[i]) == k)
  }

  lemma StoresCons(m: OverrideMap, os: seq<ComponentOverrides>, m': OverrideMap)
    requires os != [] && (forall i | 0 <= i < |os| :: |os[i].name| == NAME_SIZE) && NameOf(os[0]) !in m
    requires forall i | 0 <= i < |os| - 1 :: os[1..][i] == os[i + 1]
    requires Stores(m[NameOf(os[0]) := os[0].values], os[1..], m')
    ensures Stores(m, os, m')
  {
    var rest := os[1..];
    forall i | 0 <= i < |os| ensures NameOf(os[i]) in m' && m'[NameOf(os[i])] == os[i].values {
      if i > 0 { assert os[i] == rest[i - 1]; }
    }
    forall k | k in m' && k !in m ensures exists i :: 0 <= i < |os| && NameOf(os[i]) == k {
      if k != NameOf(os[0]) {
        var i :| 0 <= i < |rest| && NameOf(rest[i]) == k;
        assert NameOf(os[i + 1]) == k;
      }
    }
  }

  /** Distinct new names are all stored, and nothing else changes. */
  lemma {:induction false} StoreAllDistinct(m: OverrideMap, os: seq<ComponentOverrides>)
    requires (forall i | 0 <= i < |os| :: |os[i].name| == NAME_SIZE) && DistinctNames(os)
    requires forall i | 0 <= i < |os| :: NameOf(os[i]) !in m
    ensures StoreAll(m, os).0 == Parsed && Stores(m, os, StoreAll(m, os).1)
    decreases |os|
  {
    if os != [] {
      var m1 := m[NameOf(os[0]) := os[0].values];
      DistinctTail(os);
      forall i | 0 <= i < |os| - 1 ensures NameOf(os[1..][i]) !in m1 { assert NameOf(os[0]) != NameOf(os[i + 1]); }
      StoreAllDistinct(m1, os[1..]);
      StoresCons(m, os, StoreAll(m, os).1);
    }
  }

  /** The first component whose name is stored already or was sent before, or the length. */
  function FirstRepeated(m: OverrideMap, os: seq<ComponentOverrides>, i: nat): (n: nat)
    requires i <= |os| && forall k | 0 <= k < |os| :: |os[k].name| == NAME_SIZE
    ensures i <= n <= |os|
    ensures n < |os| ==> NameOf(os[n]) in m || exists k :: i <= k < n && NameOf(os[k]) == NameOf(os[n])
    decreases |os| - i
  {
    if i == |os| || NameOf(os[i]) in m then i else FirstRepeated(m[NameOf(os[i]) := os[i].values], os, i + 1)
  }

  lemma {:induction false} FirstRepeatedIsFirst(m: OverrideMap, os: seq<ComponentOverrides>, i: nat)
    requires i <= |os| && forall k | 0 <= k < |os| :: |os[k].name| == NAME_SIZE
    ensures forall k | i <= k < FirstRepeated(m, os, i) :: NameOf(os[k]) !in m
    ensures forall j, k | i <= j < k < FirstRepeated(m, os, i) :: NameOf(os[j]) != NameOf(os[k])
    decreases |os| - i
  {
    if i < |os| && NameOf(os[i]) !in m { FirstRepeatedIsFirst(m[NameOf(os[i]) := os[i].values], os, i + 1); }
  }

  lemma {:induction false} StoreAllStops(m: OverrideMap, os: seq<ComponentOverrides>, i: nat)
    requires i <= |os| && forall k | 0 <= k < |os| :: |os[k].name| == NAME_SIZE
    ensures var n := FirstRepeated(m, os, i);
            && StoreAll(m, os[i..]).0 == (if n < |os| then EntryExists else Parsed)
            && StoreAll(m, os[i..]).1 == StoreAll(m, os[i..n]).1
    decreases |os| - i
  {
    if i < |os| {
      assert os[i..][0] == os[i] && os[i..][1..] == os[i + 1..];
      if NameOf(os[i]) !in m {
        var n := FirstRepeated(m, os, i);
        assert os[i..n][0] == os[i] && os[i..n][1..] == os[i + 1..n];
        StoreAllStops(m[NameOf(os[i]) := os[i].values], os, i + 1);
      }
    }
  }

  /** The parse of any overrides: it stops with an error at the first name that is stored already or was
      sent before, and succeeds if there is none; everything in front of that is stored under its name,
      and nothing else changes. */
  lemma StoreAllExactly(m: OverrideMap, os: seq<ComponentOverrides>)
    requires forall k | 0 <= k < |os| :: |os[k].name| == NAME_SIZE
    ensures var n := FirstRepeated(m, os, 0);
            && (StoreAll(m, os).0 == EntryExists <==> n < |os|) && (StoreAll(m, os).0 == Parsed <==> n == |os|)
            && Stores(m, os[..n], StoreAll(m, os).1)
  {
    var n := FirstRepeated(m, os, 0);
    assert os[0..] == os && os[0..n] == os[..n];
    StoreAllStops(m, os, 0);
    FirstRepeatedIsFirst(m, os, 0);
    StoreAllDistinct(m, os[..n]);
  }

  /** Names of up to 40 characters survive the name field; longer ones, and only those, are cut. */
  lemma WireNameKeepsString(name: seq<Byte>)
    requires |name| == NAME_SIZE
    ensures CString(WireName(name)) == CString(name) <==> |CString(name)| <= NAME_SIZE - 1
  {
    var n := |CString(WireName(name))|;
    assert WireName(name)[NAME_SIZE - 1] == 0;
    CStringShort(WireName(name));
    if |CString(name)| <= NAME_SIZE - 1 {
      CStringUnique(WireName(name), CString(name));
    }
  }

  type ComponentMap = map<seq<Byte>, SettingsBase>

  /** The components of a map, each once, in some order. */
  ghost predicate Lists(cs: seq<SettingsBase>, m: ComponentMap) {
    && |cs| == |m| && (forall i, j | 0 <= i < j < |cs| :: cs[i].name != cs[j].name)
    && (forall i | 0 <= i < |cs| :: cs[i].name in m && m[cs[i].name] == cs[i])
    && forall n | n in m :: m[n] in cs
  }

  /** The hash map's iteration, in whatever order. */
  method ListComponents(m: ComponentMap) returns (cs: seq<SettingsBase>)
    requires forall n | n in m :: m[n].name == n
    ensures Lists(cs, m)
  {
    cs := [];
    var left := m.Keys;
    while left != {}
      invariant left <= m.Keys && |cs| + |left| == |m.Keys|
      invariant forall i, j | 0 <= i < j < |cs| :: cs[i].name != cs[j].name
      invariant forall i | 0 <= i < |cs| :: cs[i].name in m && cs[i].name !in left && m[cs[i].name] == cs[i]
      invariant forall n | n in m && n !in left :: m[n] in cs
      decreases |left|
    {
      var n :| n in left;
      cs := cs + [m[n]];
      left := left - {n};
    }
    assert |m.Keys| == |m|;
  }

  /** A component that can be queried. */
  ghost predicate Queryable(c: SettingsBase)
    reads c
  {
    c.Valid() && AllTerminated(c.settings)
  }

  /** Each component with its settings in the order of its map. */
  method EnumerateAll(cs: seq<SettingsBase>) returns (rs: seq<Registered>)
    requires forall i | 0 <= i < |cs| :: Queryable(cs[i])
    ensures |rs| == |cs| && forall i | 0 <= i < |cs| :: rs[i].component == cs[i] && Writable(rs[i]) && ValidRegistered(rs[i])
  {
    rs := [];
    for i := 0 to |cs|
      invariant |rs| == i && forall k | 0 <= k < i :: rs[k].component == cs[k] && Writable(rs[k]) && ValidRegistered(rs[k])
    {
      var entries := Enumerate(cs[i].settings);
      EnumeratedValid(entries, cs[i].settings);
      rs := rs + [Registered(cs[i], entries)];
    }
  }

  class SettingsRpcService {
    var allUserOverrides: OverrideMap
    var settingsComponents: ComponentMap

    /** Components are registered under their names. */
    ghost predicate Keyed()
      reads this
    {
      forall n | n in settingsComponents :: settingsComponents[n].name == n
    }

    constructor ()
      ensures allUserOverrides == map[] && settingsComponents == map[] && Keyed()
    {
      allUserOverrides, settingsComponents := map[], map[];
    }

    /** Parse a buffer of overrides that a tool encoded. */
    method SendAllUserOverrides(buf: seq<Byte>, ghost os: seq<ComponentOverrides>) returns (r: ParseResult)
      requires AllEncodable(os) && buf == EncodeAll(|os|, ToComponents(os))
      modifies this`allUserOverrides
      ensures (r, allUserOverrides) == StoreAll(old(allUserOverrides), os)
    {
      var iter := new SettingsIterator(buf, |os|, ToComponents(os));
      r := StoreComponents(iter, os);
    }

    method StoreComponents(iter: SettingsIterator, ghost os: seq<ComponentOverrides>) returns (r: ParseResult)
      requires AllEncodable(os) && iter.Valid() && iter.comps == ToComponents(os)
      modifies this`allUserOverrides
      ensures (r, allUserOverrides) == StoreAll(old(allUserOverrides), os)
    {
      r := Parsed;
      var c := new ComponentCursor();
      assert os[0..] == os;
      while true
        invariant fresh(c) && iter.On(c)
        invariant StoreAll(old(allUserOverrides), os) == StoreAll(allUserOverrides, os[c.count..])
        decreases |os| - c.count
      {
        ghost var k := c.count;
        var found := iter.NextComponent(c);
        if !found { break; }
        assert os[k..][0] == os[k] && os[k..][1..] == os[k + 1..];
        var values := ReadValues(iter, c, os[k].values);
        var name := CString(c.name);
        assert name == NameOf(os[k]);
        if name in allUserOverrides {
          r := EntryExists;
          break;
        }
        allUserOverrides := allUserOverrides[name := values];
      }
    }

    /** Register a component and apply the overrides stored under its name. */
    method RegisterSettingsComponent(component: SettingsBase)
      requires component.Valid()
      requires component.name in allUserOverrides ==>
                 forall i | 0 <= i < |allUserOverrides[component.name]| :: ExactScalar(allUserOverrides[component.name][i])
      modifies this`settingsComponents, component`settings
      ensures component.Valid() && settingsComponents == old(settingsComponents)[component.name := component]
      ensures old(Keyed()) ==> Keyed()
      ensures component.settings == if component.name in allUserOverrides
                                    then ApplyAll(old(component.settings), allUserOverrides[component.name])
                                    else old(component.settings)
    {
      settingsComponents := settingsComponents[component.name := component];
      if component.name in allUserOverrides {
        var overrides := allUserOverrides[component.name];
        for i := 0 to |overrides|
          invariant component.Valid() && component.settings == ApplyAll(old(component.settings), overrides[..i])
          invariant settingsComponents == old(settingsComponents)[component.name := component]
        {
          assert overrides[..i + 1][..i] == overrides[..i];
          var result := component.SetValue(overrides[i]);
        }
        assert overrides[..|overrides|] == overrides;
      }
    }

    /** QueryAllCurrentValues: the answer is that of all registered components, in the order rs in which the
        maps enumerate them. It fails only where memory was refused. */
    method QueryAllCurrentValues(out: DynamicBuffers.DynamicBuffer, scratch: DynamicBuffers.Allocator)
      returns (ok: bool, rs: seq<Registered>, cs: seq<SettingsBase>)
      requires Keyed() && forall n | n in settingsComponents :: Queryable(settingsComponents[n])
      requires out.Valid() && out.error == DynamicBuffers.Success && out.contents == []
      modifies out, out.buf
      ensures Lists(cs, settingsComponents) && Enumerated(rs, cs)
      ensures out.Valid() && OwnMemory(out)
      ensures !ok ==> out.error != DynamicBuffers.Success || !DynamicBuffers.Generous(scratch)
      ensures ok && settingsComponents != map[] ==> out.error == DynamicBuffers.Success
      ensures ok && out.error == DynamicBuffers.Success ==> out.contents == EncodeQuery(|settingsComponents|, ToQueries(rs))
    {
      cs := ListComponents(settingsComponents);
      rs := EnumerateAll(cs);
      ok := WriteValuesAnswer(rs, out, scratch);
    }

    /** GetUnsupportedExperiments: the same for the experiments of all registered components. */
    method GetUnsupportedExperiments(out: DynamicBuffers.DynamicBuffer, scratch: DynamicBuffers.Allocator)
      returns (r: QueryResult, ls: seq<Lister>, ghost cs: seq<SettingsBase>)
      requires Keyed() && forall n | n in settingsComponents :: settingsComponents[n].Valid()
      requires out.Valid() && out.error == DynamicBuffers.Success && out.contents == []
      modifies out, out.buf
      ensures Lists(cs, settingsComponents) && WithExperiments(ls, cs)
      ensures out.Valid() && OwnMemory(out)
      ensures r == Answered ==> AllFit(ls, |ls|, ScratchCapacity(scratch))
      ensures r == InvalidParameter ==> !AllFit(ls, |ls|, ScratchCapacity(scratch))
      ensures r == WriteFailed ==> out.error != DynamicBuffers.Success
      ensures r == Answered && out.error == DynamicBuffers.Success ==>
                out.contents == EncodeQuery(|settingsComponents|, ListedComponents(Listed(ls)))
    {
      var list := ListComponents(settingsComponents);
      cs := list;
      ls := WithTheirExperiments(list);
      r := WriteExperimentsAnswer(ls, out, scratch);
    }

    /** ApplyUserOverride: the first override with the hash is copied if it fits; its type is not
        looked at. */
    method ApplyUserOverride(name: seq<Byte>, hash: nat, setting: seq<Byte>) returns (applied: bool, setting': seq<Byte>)
      ensures var vs := if name in allUserOverrides then allUserOverrides[name] else [];
              var i := FirstIndex(vs, hash);
              && (applied <==> i < |vs| && |vs[i].data| <= |setting|)
              && setting' == if applied then vs[i].data + setting[|vs[i].data|..] else setting
    {
      applied, setting' := false, setting;
      if name in allUserOverrides {
        var overrides := allUserOverrides[name];
        for i := 0 to |overrides|
          invariant !applied && setting' == setting && i <= FirstIndex(overrides, hash)
        {
          if overrides[i].hash == hash {
            if |setting| >= |overrides[i].data| {
              setting' := overrides[i].data + setting[|overrides[i].data|..];
              applied := true;
            }
            break;
          }
        }
      }
    }
  }

  ghost predicate Enumerated(rs: seq<Registered>, cs: seq<SettingsBase>)
    reads set i | 0 <= i < |rs| :: rs[i].component
  {
    |rs| == |cs| && forall i | 0 <= i < |rs| :: rs[i].component == cs[i] && Writable(rs[i]) && ValidRegistered(rs[i])
  }

  ghost predicate WithExperiments(ls: seq<Lister>, cs: seq<SettingsBase>)
    reads set i | 0 <= i < |ls| :: ls[i].component
  {
    |ls| == |cs| && forall i | 0 <= i < |ls| :: ls[i].component == cs[i] && ValidLister(ls[i])
  }

  method WithTheirExperiments(cs: seq<SettingsBase>) returns (ls: seq<Lister>)
    requires forall i | 0 <= i < |cs| :: cs[i].Valid()
    ensures WithExperiments(ls, cs)
  {
    ls := [];
    for i := 0 to |cs|
      invariant |ls| == i && forall k | 0 <= k < i :: ls[k].component == cs[k] && ValidLister(ls[k])
    {
      ls := ls + [Lister(cs[i], cs[i].unsupportedExperiments)];
    }
  }

  /** The position of the first value with the hash, or the length. */
  function FirstIndex(vs: seq<Value>, hash: nat): (i: nat)
    ensures i <= |vs| && (i < |vs| ==> vs[i].hash == hash) && forall k | 0 <= k < i :: vs[k].hash != hash
  {
    if vs == [] || vs[0].hash == hash then 0 else 1 + FirstIndex(vs[1..], hash)
  }

  // ---- End to end -----------------------------------------------------------------------------

  /** The overrides meant for a component name. */
  function OverridesFor(os: seq<ComponentOverrides>, name: seq<Byte>): seq<Value>
    requires forall i | 0 <= i < |os| :: |os[i].name| == NAME_SIZE
  {
    if os == [] then [] else if NameOf(os[0]) == name then os[0].values else OverridesFor(os[1..], name)
  }

  lemma {:induction false} OverridesForAt(os: seq<ComponentOverrides>, name: seq<Byte>)
    requires forall i | 0 <= i < |os| :: |os[i].name| == NAME_SIZE
    ensures (forall i | 0 <= i < |os| :: NameOf(os[i]) != name) ==> OverridesFor(os, name) == []
    ensures DistinctNames(os) ==> forall i | 0 <= i < |os| && NameOf(os[i]) == name :: OverridesFor(os, name) == os[i].values
    decreases |os|
  {
    if os != [] && NameOf(os[0]) != name {
      var rest := os[1..];
      OverridesForAt(rest, name);
      forall i | 0 <= i < |rest| ensures rest[i] == os[i + 1] { }
      if DistinctNames(os) {
        forall i, j | 0 <= i < j < |rest| ensures NameOf(rest[i]) != NameOf(rest[j]) {
          assert NameOf(os[i + 1]) != NameOf(os[j + 1]);
        }
        forall i | 0 <= i < |os| && NameOf(os[i]) == name ensures OverridesFor(os, name) == os[i].values {
          assert rest[i - 1] == os[i];
        }
      }
    }
  }

  /** Encode, parse and register with a service that has no overrides yet: the component has exactly its
      own overrides applied if every request of the encoder to its allocator was granted, and otherwise
      nothing happens. The number of requests is logarithmic in the size of the encoding. */
  method DeliverOverrides(service: SettingsRpcService, os: seq<ComponentOverrides>, component: SettingsBase, grants: DynamicBuffers.Allocator)
    returns (ok: bool, ghost asks: nat)
    requires AllEncodable(os) && DistinctNames(os) && component.Valid() && service.allUserOverrides == map[]
    requires forall i | 0 <= i < |os| :: AllExact(os[i].values)
    modifies service, component`settings
    ensures ok <==> DynamicBuffers.Granted(grants, 0, asks)
    ensures FewRequests(asks, |EncodeAll(|os|, ToComponents(os))|)
    ensures component.Valid() && AllExact(OverridesFor(os, component.name))
    ensures component.settings == if ok then ApplyAll(old(component.settings), OverridesFor(os, component.name)) else old(component.settings)
    ensures service.settingsComponents == if ok then old(service.settingsComponents)[component.name := component] else old(service.settingsComponents)
    ensures old(service.Keyed()) ==> service.Keyed()
  {
    OverridesForAt(os, component.name);
    var compsBuf := EncodeOverrides(os, grants);
    ok, asks := compsBuf.error == DynamicBuffers.Success, compsBuf.asks;
    if ok {
      var wire := compsBuf.View();
      ReceiveOverrides(service, os, component, wire);
    }
  }

  /** The driver's side of it. */
  method ReceiveOverrides(service: SettingsRpcService, ghost os: seq<ComponentOverrides>, component: SettingsBase, wire: seq<Byte>)
    requires AllEncodable(os) && DistinctNames(os) && component.Valid() && service.allUserOverrides == map[]
    requires wire == EncodeAll(|os|, ToComponents(os)) && AllExact(OverridesFor(os, component.name))
    modifies service, component`settings
    ensures component.Valid() && component.settings == ApplyAll(old(component.settings), OverridesFor(os, component.name))
    ensures service.settingsComponents == old(service.settingsComponents)[component.name := component]
    ensures old(service.Keyed()) ==> service.Keyed()
  {
    StoredFor(os, component.name, StoreAll(map[], os).1);
    var r := service.SendAllUserOverrides(wire, os);
    service.RegisterSettingsComponent(component);
  }

  /** What is stored under a name is what was sent for it. */
  lemma StoredFor(os: seq<ComponentOverrides>, name: seq<Byte>, m: OverrideMap)
    requires (forall i | 0 <= i < |os| :: |os[i].name| == NAME_SIZE) && DistinctNames(os) && m == StoreAll(map[], os).1
    ensures if name in m then m[name] == OverridesFor(os, name) else OverridesFor(os, name) == []
  {
    StoreAllDistinct(map[], os);
    OverridesForAt(os, name);
  }

  ghost predicate AllExact(vs: seq<Value>) {
    forall i | 0 <= i < |vs| :: ExactScalar(vs[i])
  }

  /** What that means for each setting: one with an override of its own type that is not larger than it
      holds that override, and every other one keeps its default. */
  lemma DeliveredOverrides(os: seq<ComponentOverrides>, i: nat, m: Settings)
    requires (forall k | 0 <= k < |os| :: |os[k].name| == NAME_SIZE) && DistinctNames(os) && i < |os|
    requires ValidSettings(m) && AllExact(os[i].values) && DistinctHashes(os[i].values)
    ensures AllExact(OverridesFor(os, NameOf(os[i])))
    ensures ApplyAll(m, OverridesFor(os, NameOf(os[i]))).Keys == m.Keys
    ensures forall k | 0 <= k < |os[i].values| ::
              var v := os[i].values[k];
              v.hash in m && m[v.hash].kind == v.kind && |v.data| <= m[v.hash].size ==>
                HoldsOverride(ApplyAll(m, OverridesFor(os, NameOf(os[i])))[v.hash], m[v.hash], v)
    ensures forall h | h in m ::
              (forall k | 0 <= k < |os[i].values| && os[i].values[k].hash == h ::
                 m[h].kind != os[i].values[k].kind || m[h].size < |os[i].values[k].data|) ==>
                ApplyAll(m, OverridesFor(os, NameOf(os[i])))[h] == m[h]
  {
    OverridesForAt(os, NameOf(os[i]));
    var vs := os[i].values;
    forall k | 0 <= k < |vs| && vs[k].hash in m && m[vs[k].hash].kind == vs[k].kind && |vs[k].data| <= m[vs[k].hash].size
      ensures HoldsOverride(ApplyAll(m, vs)[vs[k].hash], m[vs[k].hash], vs[k])
    {
      AcceptedIsHeld(m, vs, k);
    }
    forall h | h in m && forall k | 0 <= k < |vs| && vs[k].hash == h :: m[h].kind != vs[k].kind || m[h].size < |vs[k].data|
      ensures ApplyAll(m, vs)[h] == m[h]
    {
      RefusedIsKept(m, vs, h);
    }
  }
}
