/** The query side of the settings service (apis/settings/src/dd_settings_service.cpp): every
    component's present values, or its unsupported experiments, are collected in a scratch buffer and
    written behind a header to the client's buffer (the byte writer of apis/tools/src/dd_settings.cpp). */
module SettingsQuery {
  import opened Bytes
  import opened SettingsWire
  import opened SettingsNarrowing
  import opened SettingsIteration
  import opened SettingsStore
  import opened SettingsWriting
  import DynamicBuffers

  const SCRATCH_SIZE: nat := 4096

  datatype QueryResult = Answered | InvalidParameter | WriteFailed

  /** The name field: up to 40 characters, padded with NULs. */
  function NameField(name: seq<Byte>): (f: seq<Byte>)
    ensures |f| == NAME_SIZE && f[NAME_SIZE - 1] == 0
  {
    var kept := name[..Min(|name|, NAME_SIZE - 1)];
    kept + seq(NAME_SIZE - |kept|, _ => 0)
  }

  /** Names of up to 40 characters, and only those, can be read back from their field. */
  lemma NameFieldKeepsString(name: seq<Byte>)
    requires 0 !in name
    ensures CString(NameField(name)) == name <==> |name| <= NAME_SIZE - 1
  {
    if |name| <= NAME_SIZE - 1 {
      CStringUnique(NameField(name), name);
    } else {
      CStringShort(NameField(name));
    }
  }

  /** The component written for a settings component with the given body. */
  function Queried(name: seq<Byte>, blobHash: nat, numValues: nat, body: seq<Byte>): Component {
    Component(NameField(name), blobHash, numValues, body)
  }

  /** Write one component: its header, then the body unless it is empty. */
  method WriteComponent(out: DynamicBuffers.DynamicBuffer, c: Component) returns (ok: bool)
    requires out.Valid() && |c.name| == NAME_SIZE
    modifies out, out.buf
    ensures out.Valid() && OwnMemory(out)
    ensures ok <==> out.error == DynamicBuffers.Success
    ensures ok ==> old(out.error) == DynamicBuffers.Success && out.contents == old(out.contents) + EncodeNarrow(c)
  {
    var header := EncodeHeader(c, ComponentSize(c) % U16_LIMIT);
    Regroup(out.contents, header, c.body);
    ok := ByteWriterWrite(out, header);
    if ok && |c.body| > 0 {
      ok := ByteWriterWrite(out, c.body);
    } else {
      assert c.body == [] ==> out.contents + c.body == out.contents;
    }
  }

  /** The scratch buffer of a query. The outcome of its reservation is not looked at. */
  method NewScratch(grants: DynamicBuffers.Allocator) returns (b: DynamicBuffers.DynamicBuffer)
    ensures fresh(b) && b.Valid() && b.grants == grants && b.contents == [] && (b.buf == null || fresh(b.buf))
    ensures if grants(0) then b.error == DynamicBuffers.Success && b.capacity == SCRATCH_SIZE
            else b.error != DynamicBuffers.Success && b.capacity == 0
  {
    b := new DynamicBuffers.DynamicBuffer(grants);
    var reserved := b.Reserve(SCRATCH_SIZE);
  }

  // ---- Current values -------------------------------------------------------------------------

  /** A registered component and its settings in the order in which its map enumerates them. */
  datatype Registered = Registered(component: SettingsBase, entries: seq<Entry>)

  ghost predicate Writable(r: Registered) {
    r.component.blobHash < U64_LIMIT && forall i | 0 <= i < |r.entries| :: ValidEntry(r.entries[i])
  }

  ghost predicate ValidRegistered(r: Registered)
    reads r.component
  {
    && r.component.Valid()
    && Enumerates(r.entries, r.component.settings) && AllTerminated(r.component.settings)
  }

  function ToQueried(r: Registered): (c: Component)
    requires Writable(r)
    ensures |c.name| == NAME_SIZE && HoldsValues(c, PresentValues(r.entries))
    ensures c == Queried(r.component.name, r.component.blobHash, |PresentValues(r.entries)|, c.body)
  {
    var vs := PresentValues(r.entries);
    Queried(r.component.name, r.component.blobHash, |vs|, Flatten(ValueParts(vs)))
  }

  ghost function ToQueries(rs: seq<Registered>): (cs: seq<Component>)
    requires forall i | 0 <= i < |rs| :: Writable(rs[i])
    ensures |cs| == |rs| && forall i | 0 <= i < |rs| :: cs[i] == ToQueried(rs[i])
  {
    seq(|rs|, i requires 0 <= i < |rs| => ToQueried(rs[i]))
  }

  /** Two buffers that share no memory. */
  ghost predicate Apart(a: DynamicBuffers.DynamicBuffer, b: DynamicBuffers.DynamicBuffer)
    reads a, b
  {
    a != b && (a.buf == null || a.buf != b.buf)
  }

  /** Collect one component in the empty scratch buffer. */
  method CollectValues(valuesBuf: DynamicBuffers.DynamicBuffer, r: Registered) returns (ok: bool, c: Component)
    requires valuesBuf.Valid() && valuesBuf.contents == [] && Writable(r) && ValidRegistered(r)
    modifies valuesBuf, valuesBuf.buf
    ensures valuesBuf.Valid() && OwnMemory(valuesBuf)
    ensures ok ==> c == ToQueried(r)
    ensures !ok ==> valuesBuf.error != DynamicBuffers.Success
  {
    var result, numValues := r.component.GetAllValues(r.entries, valuesBuf);
    ok := result == DynamicBuffers.Success;
    c := Component([], 0, 0, []);
    if ok {
      assert [] + Flatten(ValueParts(PresentValues(r.entries))) == Flatten(ValueParts(PresentValues(r.entries)));
      var body := valuesBuf.View();
      c := Queried(r.component.name, r.component.blobHash, numValues, body);
    }
  }

  /** Write a collected component and empty the scratch buffer. */
  method WriteCollected(out: DynamicBuffers.DynamicBuffer, valuesBuf: DynamicBuffers.DynamicBuffer, collected: bool, c: Component) returns (ok: bool)
    requires out.Valid() && valuesBuf.Valid() && Apart(valuesBuf, out) && (collected ==> |c.name| == NAME_SIZE)
    modifies out, out.buf, valuesBuf
    ensures out.Valid() && valuesBuf.Valid() && OwnMemory(out) && Apart(valuesBuf, out)
    ensures valuesBuf.buf == old(valuesBuf.buf) && valuesBuf.since == old(valuesBuf.since)
    ensures valuesBuf.error == old(valuesBuf.error) && valuesBuf.capacity == old(valuesBuf.capacity) && valuesBuf.contents == []
    ensures ok <==> collected && out.error == DynamicBuffers.Success
    ensures ok ==> old(out.error) == DynamicBuffers.Success && out.contents == old(out.contents) + EncodeNarrow(c)
    ensures !collected ==> out.error == old(out.error) && out.contents == old(out.contents)
  {
    ok := collected;
    if ok { ok := WriteComponent(out, c); }
    valuesBuf.Clear();
  }

  /** Collect and write one component; the scratch buffer is empty before and after. It fails only
      where one of the two buffers was refused memory. */
  method WriteValues(out: DynamicBuffers.DynamicBuffer, valuesBuf: DynamicBuffers.DynamicBuffer, r: Registered) returns (ok: bool)
    requires out.Valid() && valuesBuf.Valid() && valuesBuf.contents == [] && Apart(valuesBuf, out)
    requires Writable(r) && ValidRegistered(r)
    modifies out, out.buf, valuesBuf, valuesBuf.buf
    ensures out.Valid() && valuesBuf.Valid() && OwnMemory(out) && OwnMemory(valuesBuf) && Apart(valuesBuf, out)
    ensures valuesBuf.contents == []
    ensures ok ==> old(out.error) == out.error == DynamicBuffers.Success && out.contents == old(out.contents) + EncodeNarrow(ToQueried(r))
    ensures !ok ==> out.error != DynamicBuffers.Success || valuesBuf.error != DynamicBuffers.Success
  {
    var collected, c := CollectValues(valuesBuf, r);
    ok := WriteCollected(out, valuesBuf, collected, c);
  }

  /** Behind i components: their parts are written and the scratch buffer is empty again. */
  ghost predicate Writing(out: DynamicBuffers.DynamicBuffer, valuesBuf: DynamicBuffers.DynamicBuffer, before: seq<Byte>, parts: seq<seq<Byte>>, i: nat)
    requires i <= |parts|
    reads out, out.buf, valuesBuf, valuesBuf.buf
  {
    && out.Valid() && valuesBuf.Valid() && Apart(valuesBuf, out) && valuesBuf.contents == []
    && (i > 0 ==> out.error == DynamicBuffers.Success) && out.contents == before + Flatten(parts[..i])
  }

  method ValuesRound(out: DynamicBuffers.DynamicBuffer, valuesBuf: DynamicBuffers.DynamicBuffer, r: Registered,
                     ghost before: seq<Byte>, ghost parts: seq<seq<Byte>>, ghost i: nat) returns (ok: bool)
    requires i < |parts| && Writable(r) && ValidRegistered(r) && parts[i] == EncodeNarrow(ToQueried(r))
    requires Writing(out, valuesBuf, before, parts, i)
    modifies out, out.buf, valuesBuf, valuesBuf.buf
    ensures out.Valid() && valuesBuf.Valid() && OwnMemory(out) && OwnMemory(valuesBuf)
    ensures ok ==> out.error == old(out.error) && Writing(out, valuesBuf, before, parts, i + 1)
    ensures !ok ==> out.error != DynamicBuffers.Success || valuesBuf.error != DynamicBuffers.Success
  {
    OffsetStep(parts, i);
    Regroup(before, Flatten(parts[..i]), parts[i]);
    ok := WriteValues(out, valuesBuf, r);
  }

  /** The loop over the components, behind what has been written. */
  method WriteAllValues(out: DynamicBuffers.DynamicBuffer, valuesBuf: DynamicBuffers.DynamicBuffer, rs: seq<Registered>) returns (ok: bool)
    requires out.Valid() && valuesBuf.Valid() && valuesBuf.contents == [] && Apart(valuesBuf, out)
    requires forall i | 0 <= i < |rs| :: Writable(rs[i]) && ValidRegistered(rs[i])
    modifies out, out.buf, valuesBuf, valuesBuf.buf
    ensures out.Valid() && valuesBuf.Valid() && OwnMemory(out)
    ensures ok ==> out.error == old(out.error) && (rs != [] ==> out.error == DynamicBuffers.Success)
    ensures ok ==> out.contents == old(out.contents) + Flatten(NarrowParts(ToQueries(rs)))
    ensures !ok ==> out.error != DynamicBuffers.Success || valuesBuf.error != DynamicBuffers.Success
  {
    ghost var parts := NarrowParts(ToQueries(rs));
    ok := WriteRounds(out, valuesBuf, rs, parts);
  }

  /** The parts are what is written for each component. */
  ghost predicate PartsFor(rs: seq<Registered>, parts: seq<seq<Byte>>) {
    |parts| == |rs| && forall i | 0 <= i < |rs| :: Writable(rs[i]) && parts[i] == EncodeNarrow(ToQueried(rs[i]))
  }

  method WriteRounds(out: DynamicBuffers.DynamicBuffer, valuesBuf: DynamicBuffers.DynamicBuffer, rs: seq<Registered>, ghost parts: seq<seq<Byte>>) returns (ok: bool)
    requires out.Valid() && valuesBuf.Valid() && valuesBuf.contents == [] && Apart(valuesBuf, out)
    requires PartsFor(rs, parts) && forall i | 0 <= i < |rs| :: ValidRegistered(rs[i])
    modifies out, out.buf, valuesBuf, valuesBuf.buf
    ensures out.Valid() && valuesBuf.Valid() && OwnMemory(out)
    ensures ok ==> out.error == old(out.error) && (rs != [] ==> out.error == DynamicBuffers.Success)
    ensures ok ==> out.contents == old(out.contents) + Flatten(parts)
    ensures !ok ==> out.error != DynamicBuffers.Success || valuesBuf.error != DynamicBuffers.Success
  {
    ok := true;
    ghost var before := out.contents;
    assert before + Flatten(parts[..0]) == before;
    for i := 0 to |rs|
      invariant ok && OwnMemory(out) && OwnMemory(valuesBuf) && out.error == old(out.error)
      invariant Writing(out, valuesBuf, before, parts, i)
    {
      ok := ValuesRound(out, valuesBuf, rs[i], before, parts, i);
      if !ok { return; }
    }
    FlattenWhole(parts);
  }

  /** The answer to a query of these components, into an empty client buffer. It fails only where memory was refused. The
      outcome of the first header write is not looked at, so an answer without components may be lost
      silently. */
  method WriteValuesAnswer(rs: seq<Registered>, out: DynamicBuffers.DynamicBuffer, scratch: DynamicBuffers.Allocator) returns (ok: bool)
    requires out.Valid() && out.error == DynamicBuffers.Success && out.contents == []
    requires forall i | 0 <= i < |rs| :: Writable(rs[i]) && ValidRegistered(rs[i])
    modifies out, out.buf
    ensures out.Valid() && OwnMemory(out)
    ensures !ok ==> out.error != DynamicBuffers.Success || !DynamicBuffers.Generous(scratch)
    ensures ok && rs != [] ==> out.error == DynamicBuffers.Success
    ensures ok && out.error == DynamicBuffers.Success ==> out.contents == EncodeQuery(|rs|, ToQueries(rs))
  {
    var header := EncodeAllHeader(|rs|);
    assert [] + header == header;
    var written := ByteWriterWrite(out, header);
    assert out.error == DynamicBuffers.Success ==> out.contents == header;
    var valuesBuf := NewScratch(scratch);
    ok := WriteAllValues(out, valuesBuf, rs);
  }

  /** The answer for a component: its identity, as many values as it has present settings, and
      exactly those settings as they are emitted. */
  ghost predicate AnswersFor(a: Reading<Value>, c: SettingsBase)
    reads c
  {
    && a.name == NameField(c.name) && a.blobHash == c.blobHash
    && a.numValues == |a.items| == |PresentKeys(c.settings)|
    && forall v :: v in a.items <==> Reports(c.settings, v)
  }

  lemma AnswerIsSettings(a: Reading<Value>, r: Registered)
    requires Writable(r) && ValidRegistered(r) && Reads(a, ToQueried(r), PresentValues(r.entries))
    ensures AnswersFor(a, r.component)
  {
    EnumerationReports(r.entries, r.component.settings);
  }

  /** Whether every component has at most 65535 bytes. */
  method AllSmall(rs: seq<Registered>) returns (small: bool)
    requires forall i | 0 <= i < |rs| :: Writable(rs[i])
    ensures small <==> forall i | 0 <= i < |rs| :: ComponentSize(ToQueried(rs[i])) < U16_LIMIT
  {
    for i := 0 to |rs|
      invariant forall k | 0 <= k < i :: ComponentSize(ToQueried(rs[k])) < U16_LIMIT
    {
      if ComponentSize(ToQueried(rs[i])) >= U16_LIMIT { return false; }
    }
    return true;
  }

  /** Reading a well-sized answer. */
  method ReadAnswer(wire: seq<Byte>, ghost rs: seq<Registered>) returns (answer: seq<Reading<Value>>)
    requires |rs| < U16_LIMIT && forall i | 0 <= i < |rs| :: Writable(rs[i]) && ValidRegistered(rs[i]) && ComponentSize(ToQueried(rs[i])) < U16_LIMIT
    requires wire == EncodeQuery(|rs|, ToQueries(rs))
    ensures |answer| == |rs| && forall i | 0 <= i < |rs| :: AnswersFor(answer[i], rs[i].component)
  {
    ghost var cs := ToQueries(rs);
    ghost var vss := seq(|rs|, i requires 0 <= i < |rs| => PresentValues(rs[i].entries));
    forall i | 0 <= i < |rs| ensures WellTyped(cs[i]) && HoldsValues(cs[i], vss[i]) {
      CountFits(PresentValues(rs[i].entries));
    }
    NarrowIsExact(|rs|, cs);
    answer := ReadAllValues(wire, |rs|, cs, vss);
    forall i | 0 <= i < |rs| ensures AnswersFor(answer[i], rs[i].component) {
      assert Reads(answer[i], cs[i], vss[i]);
      AnswerIsSettings(answer[i], rs[i]);
    }
  }

  /** The size of a component with a single setting. */
  lemma OneEntrySize(r: Registered, e: Entry)
    requires r.component.blobHash < U64_LIMIT && r.entries == [e] && ValidEntry(e) && Present(e)
    ensures Writable(r) && WellTyped(ToQueried(r))
    ensures ComponentSize(ToQueried(r)) == COMPONENT_HEADER_SIZE + VALUE_HEADER_SIZE + EmittedSize(e.setting)
  {
    var v := Emitted(e);
    EmittedSizeFits(e.setting);
    assert r.entries[..0] == [];
    assert PresentValues(r.entries) == [] + [v];
    ValuePartsSnoc([], v);
  }

  lemma OneComponentField(c: Component)
    requires WellTyped(c)
    ensures ALL_HEADER_SIZE + ComponentSize(c) == |EncodeQuery(1, [c])|
    ensures Field(EncodeQuery(1, [c]), ALL_HEADER_SIZE + 51, 4) == ComponentSize(c) % U16_LIMIT
  {
    NarrowField(1, [c], 0);
    StartEnds(1, [c]);
    OffsetEnds(NarrowParts([c]));
    SameOffsets([c], 1);
  }

  lemma TerminatedText(s: Setting, text: seq<Byte>)
    requires s == Setting(KIND_STRING, |text| + 1, Plain(text + [0])) && 0 !in text && 0 < |text| < U16_LIMIT - 1
    ensures ValidSetting(s) && Terminated(s) && EmittedSize(s) == |text| + 1
  {
    CStringUnique(text + [0], text);
    assert (text + [0])[|text|] == 0;
  }

  /** A component that a driver can have, with one string of 65474 bytes: it is written with 65536 bytes
      in all and a size field of zero, which keeps a reader in place for ever. */
  lemma OversizedComponentStays(r: Registered, h: nat, text: seq<Byte>)
    requires r.component.blobHash < U64_LIMIT && h < U32_LIMIT && text == seq(65473, _ => 65)
    requires r.entries == [Entry(h, Setting(KIND_STRING, 65474, Plain(text + [0])))]
    ensures Writable(r) && Present(r.entries[0]) && ComponentSize(ToQueried(r)) == 0x1_0000
    ensures |EncodeQuery(1, [ToQueried(r)])| == ALL_HEADER_SIZE + 0x1_0000
    ensures Field(EncodeQuery(1, [ToQueried(r)]), ALL_HEADER_SIZE + 51, 4) == 0
  {
    TerminatedText(r.entries[0].setting, text);
    OneEntrySize(r, r.entries[0]);
    OneComponentField(ToQueried(r));
  }

  /** Fewer values than bytes. */
  lemma CountFits(vs: seq<Value>)
    requires forall i | 0 <= i < |vs| :: vs[i].kind < 256
    ensures |vs| <= |Flatten(ValueParts(vs))|
  {
    CountParts(ValueParts(vs));
  }

  lemma {:induction false} CountParts(parts: seq<seq<Byte>>)
    requires forall i | 0 <= i < |parts| :: |parts[i]| > 0
    ensures |parts| <= |Flatten(parts)|
  {
    if parts != [] { CountParts(parts[..|parts| - 1]); }
  }

  // ---- Unsupported experiments ----------------------------------------------------------------

  /** A registered component and its unsupported experiments. */
  datatype Lister = Lister(component: SettingsBase, hashes: seq<nat>)

  ghost predicate ValidLister(l: Lister)
    reads l.component
  {
    && l.component.unsupportedExperiments == l.hashes
    && l.component.blobHash < U64_LIMIT && forall i | 0 <= i < |l.hashes| :: l.hashes[i] < U32_LIMIT
  }

  function ToListed(l: Lister): (c: Component)
    ensures |c.name| == NAME_SIZE && c.body == Flatten(HashParts(l.hashes))
  {
    Queried(l.component.name, l.component.blobHash, |l.hashes|, Flatten(HashParts(l.hashes)))
  }

  /** The components that have experiments, in order. */
  function Listed(ls: seq<Lister>): (r: seq<Lister>)
    ensures |r| <= |ls| && forall i | 0 <= i < |r| :: r[i] in ls && r[i].hashes != []
  {
    if ls == [] then []
    else
      var rest := Listed(ls[..|ls| - 1]);
      var last := ls[|ls| - 1];
      if last.hashes == [] then rest else rest + [last]
  }

  function ListedComponents(ls: seq<Lister>): (cs: seq<Component>)
    ensures |cs| == |ls| && forall i | 0 <= i < |cs| :: cs[i] == ToListed(ls[i])
  {
    seq(|ls|, i requires 0 <= i < |ls| => ToListed(ls[i]))
  }

  /** The bytes written for the listed components. */
  function ListedBytes(ls: seq<Lister>): seq<Byte> {
    Flatten(NarrowParts(ListedComponents(Listed(ls))))
  }

  function OneListed(l: Lister): seq<Byte> {
    if l.hashes == [] then [] else EncodeNarrow(ToListed(l))
  }

  /** What each component contributes, be it nothing. */
  function ListedParts(ls: seq<Lister>): (parts: seq<seq<Byte>>)
    ensures |parts| == |ls| && forall i | 0 <= i < |ls| :: parts[i] == OneListed(ls[i])
  {
    seq(|ls|, i requires 0 <= i < |ls| => OneListed(ls[i]))
  }

  lemma ListedPartsSnoc(ls: seq<Lister>, front: seq<Lister>, l: Lister)
    requires ls == front + [l]
    ensures Flatten(ListedParts(ls)) == Flatten(ListedParts(front)) + OneListed(l)
  {
    assert ListedParts(ls) == ListedParts(front) + [OneListed(l)];
    FlattenSnoc(ListedParts(front), OneListed(l));
  }

  lemma ListedSnoc(ls: seq<Lister>, front: seq<Lister>, l: Lister)
    requires ls == front + [l]
    ensures Listed(ls) == Listed(front) + if l.hashes == [] then [] else [l]
  {
    assert ls[..|ls| - 1] == front;
  }

  lemma NarrowPartsSnoc(xs: seq<Lister>, l: Lister)
    ensures NarrowParts(ListedComponents(xs + [l])) == NarrowParts(ListedComponents(xs)) + [EncodeNarrow(ToListed(l))]
  {
  }

  lemma NarrowBytesSnoc(xs: seq<Lister>, l: Lister)
    ensures Flatten(NarrowParts(ListedComponents(xs + [l]))) == Flatten(NarrowParts(ListedComponents(xs))) + EncodeNarrow(ToListed(l))
  {
    NarrowPartsSnoc(xs, l);
    FlattenSnoc(NarrowParts(ListedComponents(xs)), EncodeNarrow(ToListed(l)));
  }

  lemma AppendNothing<T>(s: seq<T>)
    ensures s + [] == s
  {
  }

  lemma ListedBytesSnoc(ls: seq<Lister>, front: seq<Lister>, l: Lister)
    requires ls == front + [l]
    ensures ListedBytes(ls) == ListedBytes(front) + OneListed(l)
  {
    ListedSnoc(ls, front, l);
    if l.hashes == [] {
      AppendNothing(Listed(front));
      AppendNothing(ListedBytes(front));
    } else {
      NarrowBytesSnoc(Listed(front), l);
    }
  }

  lemma SameStep<T>(a: seq<T>, b: seq<T>, c: seq<T>, a': seq<T>, b': seq<T>)
    requires a == b && a' == a + c && b' == b + c
    ensures a' == b'
  {
  }

  lemma NothingListed(ls: seq<Lister>)
    requires ls == []
    ensures Flatten(ListedParts(ls)) == [] == ListedBytes(ls)
  {
  }

  lemma {:induction false} ListedPartsAre(ls: seq<Lister>)
    ensures Flatten(ListedParts(ls)) == ListedBytes(ls)
    decreases |ls|
  {
    if ls == [] {
      NothingListed(ls);
    } else {
      var front, l := ls[..|ls| - 1], ls[|ls| - 1];
      ListedPartsAre(front);
      ListedPartsSnoc(ls, front, l);
      ListedBytesSnoc(ls, front, l);
      SameStep(Flatten(ListedParts(front)), ListedBytes(front), OneListed(l), Flatten(ListedParts(ls)), ListedBytes(ls));
    }
  }

  /** Empty, and without capacity if its memory was refused. */
  ghost predicate ScratchReady(b: DynamicBuffers.DynamicBuffer)
    reads b
  {
    b.contents == [] && (b.error == DynamicBuffers.Success || b.capacity == 0)
  }

  /** Collect and write one component's experiments, if it has any and the scratch buffer holds them. */
  method WriteExperiments(out: DynamicBuffers.DynamicBuffer, valuesBuf: DynamicBuffers.DynamicBuffer, l: Lister) returns (r: QueryResult)
    requires out.Valid() && valuesBuf.Valid() && ScratchReady(valuesBuf) && Apart(valuesBuf, out)
    requires ValidLister(l)
    modifies out, out.buf, valuesBuf, valuesBuf.buf
    ensures out.Valid() && valuesBuf.Valid() && OwnMemory(out) && OwnMemory(valuesBuf) && Apart(valuesBuf, out)
    ensures ScratchReady(valuesBuf) && valuesBuf.capacity == old(valuesBuf.capacity)
    ensures r == WriteFailed ==> out.error != DynamicBuffers.Success
    ensures r == InvalidParameter <==> HASH_SIZE * |l.hashes| > old(valuesBuf.capacity)
    ensures r == Answered && l.hashes != [] ==> out.error == DynamicBuffers.Success
    ensures r == Answered ==> out.error == old(out.error) && out.contents == old(out.contents) + OneListed(l)
  {
    var ok, collected, c := CollectExperiments(valuesBuf, l);
    var written := WriteCollected(out, valuesBuf, collected, c);
    r := if !ok then InvalidParameter else if collected && !written then WriteFailed else Answered;
    assert !collected ==> out.contents + [] == out.contents;
  }

  /** Collect one component's experiments in the empty scratch buffer. */
  method CollectExperiments(valuesBuf: DynamicBuffers.DynamicBuffer, l: Lister) returns (ok: bool, collected: bool, c: Component)
    requires valuesBuf.Valid() && ScratchReady(valuesBuf) && ValidLister(l)
    modifies valuesBuf, valuesBuf.buf
    ensures valuesBuf.Valid() && OwnMemory(valuesBuf) && valuesBuf.error == old(valuesBuf.error) && valuesBuf.capacity == old(valuesBuf.capacity)
    ensures ok <==> HASH_SIZE * |l.hashes| <= valuesBuf.capacity
    ensures collected <==> ok && l.hashes != []
    ensures collected ==> c == ToListed(l)
  {
    var numValues;
    ok, numValues := l.component.GetUnsupportedExperiments(valuesBuf);
    collected := ok && numValues > 0;
    var body := valuesBuf.View();
    c := Queried(l.component.name, l.component.blobHash, numValues, body);
  }

  /** The scratch buffer holds the experiments of each of the first n components. */
  ghost predicate AllFit(ls: seq<Lister>, n: nat, capacity: nat)
    requires n <= |ls|
  {
    forall i | 0 <= i < n :: HASH_SIZE * |ls[i].hashes| <= capacity
  }

  /** Behind i components: their parts are written, the scratch buffer is empty again. */
  ghost predicate Listing(out: DynamicBuffers.DynamicBuffer, valuesBuf: DynamicBuffers.DynamicBuffer, before: seq<Byte>,
                          ls: seq<Lister>, parts: seq<seq<Byte>>, i: nat, capacity: nat)
    requires i <= |ls| == |parts|
    reads out, out.buf, valuesBuf, valuesBuf.buf
  {
    && out.Valid() && valuesBuf.Valid() && Apart(valuesBuf, out)
    && ScratchReady(valuesBuf) && valuesBuf.capacity == capacity
    && out.contents == before + Flatten(parts[..i]) && AllFit(ls, i, capacity)
  }

  method ExperimentsRound(out: DynamicBuffers.DynamicBuffer, valuesBuf: DynamicBuffers.DynamicBuffer, ls: seq<Lister>, i: nat,
                          ghost before: seq<Byte>, ghost parts: seq<seq<Byte>>, ghost capacity: nat) returns (r: QueryResult)
    requires i < |ls| == |parts| && ValidLister(ls[i]) && parts[i] == OneListed(ls[i])
    requires Listing(out, valuesBuf, before, ls, parts, i, capacity)
    modifies out, out.buf, valuesBuf, valuesBuf.buf
    ensures out.Valid() && OwnMemory(out) && OwnMemory(valuesBuf)
    ensures r == Answered ==> out.error == old(out.error) && Listing(out, valuesBuf, before, ls, parts, i + 1, capacity)
    ensures r == InvalidParameter ==> !AllFit(ls, |ls|, capacity)
    ensures r == WriteFailed ==> out.error != DynamicBuffers.Success
  {
    OffsetStep(parts, i);
    Regroup(before, Flatten(parts[..i]), parts[i]);
    r := WriteExperiments(out, valuesBuf, ls[i]);
  }

  /** The loop over the components, behind what has been written. */
  method WriteAllExperiments(out: DynamicBuffers.DynamicBuffer, valuesBuf: DynamicBuffers.DynamicBuffer, ls: seq<Lister>) returns (r: QueryResult)
    requires out.Valid() && valuesBuf.Valid() && ScratchReady(valuesBuf) && Apart(valuesBuf, out)
    requires forall i | 0 <= i < |ls| :: ValidLister(ls[i])
    modifies out, out.buf, valuesBuf, valuesBuf.buf
    ensures out.Valid() && OwnMemory(out)
    ensures r == Answered ==> out.error == old(out.error) && out.contents == old(out.contents) + Flatten(ListedParts(ls))
    ensures r == Answered ==> AllFit(ls, |ls|, old(valuesBuf.capacity))
    ensures r == InvalidParameter ==> !AllFit(ls, |ls|, old(valuesBuf.capacity))
    ensures r == WriteFailed ==> out.error != DynamicBuffers.Success
  {
    r := Answered;
    ghost var before, capacity, parts := out.contents, valuesBuf.capacity, ListedParts(ls);
    assert before + Flatten(parts[..0]) == before;
    for i := 0 to |ls|
      invariant OwnMemory(out) && OwnMemory(valuesBuf) && r == Answered && out.error == old(out.error)
      invariant Listing(out, valuesBuf, before, ls, parts, i, capacity)
    {
      r := ExperimentsRound(out, valuesBuf, ls, i, before, parts, capacity);
      if r != Answered { return; }
    }
    FlattenWhole(parts);
  }

  /** The capacity of the scratch buffer: 1024 hashes, or none if its memory was refused. */
  function ScratchCapacity(scratch: DynamicBuffers.Allocator): nat {
    if scratch(0) then SCRATCH_SIZE else 0
  }

  /** The experiments of these components, into an empty client buffer: answered only if the scratch buffer holds
      every component's experiments, invalid only if it does not hold some, and failed only if the
      client's buffer was refused memory. */
  method WriteExperimentsAnswer(ls: seq<Lister>, out: DynamicBuffers.DynamicBuffer, scratch: DynamicBuffers.Allocator) returns (r: QueryResult)
    requires out.Valid() && out.error == DynamicBuffers.Success && out.contents == []
    requires forall i | 0 <= i < |ls| :: ValidLister(ls[i])
    modifies out, out.buf
    ensures out.Valid() && OwnMemory(out)
    ensures r == Answered ==> AllFit(ls, |ls|, ScratchCapacity(scratch))
    ensures r == InvalidParameter ==> !AllFit(ls, |ls|, ScratchCapacity(scratch))
    ensures r == WriteFailed ==> out.error != DynamicBuffers.Success
    ensures r == Answered && out.error == DynamicBuffers.Success ==> out.contents == EncodeQuery(|ls|, ListedComponents(Listed(ls)))
  {
    var header := EncodeAllHeader(|ls|);
    assert [] + header == header;
    var written := ByteWriterWrite(out, header);
    assert out.error == DynamicBuffers.Success ==> out.contents == header;
    var valuesBuf := NewScratch(scratch);
    r := WriteAllExperiments(out, valuesBuf, ls);
    ListedPartsAre(ls);
  }

  lemma ListedFits(l: Lister)
    requires |l.hashes| <= 1024 && l.component.blobHash < U64_LIMIT && forall i | 0 <= i < |l.hashes| :: l.hashes[i] < U32_LIMIT
    ensures WellTyped(ToListed(l)) && ComponentSize(ToListed(l)) < U16_LIMIT && HoldsHashes(ToListed(l), l.hashes)
  {
    HashOffset(l.hashes, |l.hashes|);
    OffsetEnds(HashParts(l.hashes));
  }

  function ExpectedList(l: Lister): Reading<nat> {
    Reading(NameField(l.component.name), l.component.blobHash, |l.hashes|, l.hashes)
  }

  /** Exactly the components with experiments are listed. */
  lemma {:induction false} ListedExact(ls: seq<Lister>, l: Lister)
    ensures l in Listed(ls) <==> l in ls && l.hashes != []
  {
    if ls != [] {
      var k := |ls| - 1;
      ListedExact(ls[..k], l);
      assert ls == ls[..k] + [ls[k]];
    }
  }

  method ReadExperimentsAnswer(wire: seq<Byte>, ghost ls: seq<Lister>) returns (answer: seq<Reading<nat>>)
    requires |ls| < U16_LIMIT && forall i | 0 <= i < |ls| :: ValidLister(ls[i]) && |ls[i].hashes| <= 1024
    requires wire == EncodeQuery(|ls|, ListedComponents(Listed(ls)))
    ensures |answer| == |Listed(ls)| && forall i | 0 <= i < |answer| :: answer[i] == ExpectedList(Listed(ls)[i])
  {
    ghost var rs := Listed(ls);
    ghost var cs := ListedComponents(rs);
    ghost var hss := seq(|rs|, i requires 0 <= i < |rs| => rs[i].hashes);
    forall i | 0 <= i < |rs| ensures WellTyped(cs[i]) && ComponentSize(cs[i]) < U16_LIMIT && HoldsHashes(cs[i], hss[i]) {
      var k :| 0 <= k < |ls| && ls[k] == rs[i];
      assert ValidLister(ls[k]);
      ListedFits(rs[i]);
    }
    NarrowIsExact(|ls|, cs);
    answer := ReadAllExperiments(wire, |ls|, cs, hss);
    forall i | 0 <= i < |answer| ensures answer[i] == ExpectedList(rs[i]) {
      assert Reads(answer[i], cs[i], hss[i]);
    }
  }
}
