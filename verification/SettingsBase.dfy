/** A settings component of a driver (apis/settings/src/dd_settings_base.cpp): typed storage behind a
    hash map, set by overrides and written out on a query. */
module SettingsStore {
  import opened Bytes
  import opened SettingsWire
  import opened DynamicBuffers
  import opened SettingsWriting

  datatype SetResult = Done | NotFound | TypeMismatch | TooSmall

  const KIND_STRING: nat := 10

  /** sizeof the C++ type behind a scalar kind: bool, int8, uint8, int16, uint16, int32, uint32,
      int64, uint64, float. */
  function ScalarSize(kind: nat): nat
    requires kind < KIND_STRING
  {
    if kind <= 2 then 1 else if kind <= 4 then 2 else if kind == 7 || kind == 8 then 8 else 4
  }

  /** The memory behind a setting: plain bytes, or an optional scalar. */
  datatype Storage = Plain(bytes: seq<Byte>) | Unset | Set(bytes: seq<Byte>)

  datatype Setting = Setting(kind: nat, size: nat, storage: Storage)

  ghost predicate ValidSetting(s: Setting) {
    && s.kind <= KIND_STRING && 0 < s.size < U16_LIMIT
    && (s.kind == KIND_STRING ==> s.storage.Plain?)
    && (s.kind < KIND_STRING ==> s.size == ScalarSize(s.kind))
    && (s.storage.Unset? || |s.storage.bytes| == s.size)
  }

  /** An override whose scalar data has exactly the size that the typed assignment reads. */
  ghost predicate ExactScalar(v: Value) {
    v.kind < KIND_STRING ==> |v.data| == ScalarSize(v.kind)
  }

  /** The override is accepted by the setting. */
  predicate Applies(s: Setting, v: Value) {
    s.kind == v.kind && |v.data| <= s.size
  }

  /** SetValueHelper: strings overwrite the front of their array, scalars are assigned, and an
      optional becomes set. */
  function Assign(s: Setting, v: Value): (r: Setting)
    requires ValidSetting(s) && ExactScalar(v) && Applies(s, v)
    ensures ValidSetting(r) && r.kind == s.kind && r.size == s.size
    ensures !r.storage.Unset? && v.data <= r.storage.bytes
    ensures r.storage.Plain? <==> s.storage.Plain?
    ensures s.kind < KIND_STRING ==> r.storage.bytes == v.data
    ensures s.kind == KIND_STRING ==> r.storage.bytes[|v.data|..] == s.storage.bytes[|v.data|..]
  {
    if s.kind == KIND_STRING then
      s.(storage := Plain(v.data + s.storage.bytes[|v.data|..]))
    else if s.storage.Plain? then
      s.(storage := Plain(v.data))
    else
      s.(storage := Set(v.data))
  }

  type Settings = map<nat, Setting>

  ghost predicate ValidSettings(m: Settings) {
    forall h | h in m :: ValidSetting(m[h]) && h < U32_LIMIT
  }

  function SetOne(m: Settings, v: Value): (m': Settings)
    requires ValidSettings(m) && ExactScalar(v)
    ensures ValidSettings(m') && m'.Keys == m.Keys
  {
    if v.hash in m && Applies(m[v.hash], v) then m[v.hash := Assign(m[v.hash], v)] else m
  }

  /** Overrides applied in order. */
  function ApplyAll(m: Settings, vs: seq<Value>): (m': Settings)
    requires ValidSettings(m) && forall i | 0 <= i < |vs| :: ExactScalar(vs[i])
    ensures ValidSettings(m') && m'.Keys == m.Keys
  {
    if vs == [] then m else SetOne(ApplyAll(m, vs[..|vs| - 1]), vs[|vs| - 1])
  }

  ghost predicate DistinctHashes(vs: seq<Value>) {
    forall i, j | 0 <= i < j < |vs| :: vs[i].hash != vs[j].hash
  }

  lemma {:induction false} ApplyAllFrame(m: Settings, vs: seq<Value>, h: nat)
    requires ValidSettings(m) && h in m && forall i | 0 <= i < |vs| :: ExactScalar(vs[i])
    requires forall i | 0 <= i < |vs| :: !(vs[i].hash == h && Applies(m[h], vs[i]))
    ensures ApplyAll(m, vs)[h] == m[h]
  {
    if vs != [] { ApplyAllFrame(m, vs[..|vs| - 1], h); }
  }

  /** With distinct hashes, a setting with an applicable override holds exactly that override (and
      by ApplyAllFrame every other setting keeps its value). */
  lemma {:induction false} ApplyAllHolds(m: Settings, vs: seq<Value>, i: nat)
    requires ValidSettings(m) && (forall k | 0 <= k < |vs| :: ExactScalar(vs[k])) && DistinctHashes(vs)
    requires i < |vs| && vs[i].hash in m && Applies(m[vs[i].hash], vs[i])
    ensures ApplyAll(m, vs)[vs[i].hash] == Assign(m[vs[i].hash], vs[i])
  {
    var k := |vs| - 1;
    if i == k {
      ApplyAllFrame(m, vs[..k], vs[k].hash);
    } else {
      ApplyAllHolds(m, vs[..k], i);
    }
  }

  /** What it means that a setting holds an override: the optional is set, a scalar has exactly the
      override's bytes, a string begins with them and keeps its tail. */
  ghost predicate HoldsOverride(after: Setting, before: Setting, v: Value) {
    && after.kind == before.kind && after.size == before.size && (after.storage.Plain? <==> before.storage.Plain?)
    && !after.storage.Unset? && |after.storage.bytes| >= |v.data| && after.storage.bytes[..|v.data|] == v.data
    && (v.kind < 10 ==> after.storage.bytes == v.data)
    && (v.kind == 10 && before.storage.Plain? && |before.storage.bytes| >= |v.data| ==>
          after.storage.bytes == v.data + before.storage.bytes[|v.data|..])
  }

  /** Every override of the setting's own type that is not larger than the setting is held, whatever the
      setting was before. */
  lemma AcceptedIsHeld(m: Settings, vs: seq<Value>, i: nat)
    requires ValidSettings(m) && (forall k | 0 <= k < |vs| :: ExactScalar(vs[k])) && DistinctHashes(vs)
    requires i < |vs| && vs[i].hash in m && m[vs[i].hash].kind == vs[i].kind && |vs[i].data| <= m[vs[i].hash].size
    ensures HoldsOverride(ApplyAll(m, vs)[vs[i].hash], m[vs[i].hash], vs[i])
  {
    ApplyAllHolds(m, vs, i);
    AssignHolds(m[vs[i].hash], vs[i]);
  }

  lemma AssignHolds(s: Setting, v: Value)
    requires ValidSetting(s) && ExactScalar(v) && s.kind == v.kind && |v.data| <= s.size
    ensures Applies(s, v) && HoldsOverride(Assign(s, v), s, v)
  {
  }

  /** And a setting without such an override is as it was. */
  lemma RefusedIsKept(m: Settings, vs: seq<Value>, h: nat)
    requires ValidSettings(m) && h in m && forall i | 0 <= i < |vs| :: ExactScalar(vs[i])
    requires forall i | 0 <= i < |vs| && vs[i].hash == h :: m[h].kind != vs[i].kind || m[h].size < |vs[i].data|
    ensures ApplyAll(m, vs)[h] == m[h]
  {
    ApplyAllFrame(m, vs, h);
  }

  /** The sizes of bool, int8, uint8, int16, uint16, int32, uint32, int64, uint64 and float. */
  lemma ScalarSizes(kind: nat)
    requires kind < 10
    ensures ScalarSize(kind) == [1, 1, 1, 2, 2, 4, 4, 8, 8, 4][kind]
  {
  }

  // ---- Strings that end inside their array ----------------------------------------------------

  /** A string setting that has a NUL in its array, as writing it out demands. */
  predicate Terminated(s: Setting) {
    s.kind == KIND_STRING && s.storage.Plain? ==> 0 in s.storage.bytes
  }

  ghost predicate AllTerminated(m: Settings) {
    forall h | h in m :: Terminated(m[h])
  }

  /** The override, or what it leaves of the old string, ends with a NUL. */
  predicate KeepsTerminator(s: Setting, v: Value)
    requires ValidSetting(s) && Applies(s, v)
  {
    s.kind == KIND_STRING ==> 0 in v.data || 0 in s.storage.bytes[|v.data|..]
  }

  /** Nothing else decides: an assigned string ends inside its array exactly under that condition. */
  lemma AssignTerminated(s: Setting, v: Value)
    requires ValidSetting(s) && ExactScalar(v) && Applies(s, v)
    ensures Terminated(Assign(s, v)) <==> KeepsTerminator(s, v)
  {
    if s.kind == KIND_STRING {
      var tail := s.storage.bytes[|v.data|..];
      assert forall x :: x in v.data + tail <==> x in v.data || x in tail;
    }
  }

  /** Every override that a setting accepts keeps a terminator, and settings without one have it. */
  ghost predicate KeepTerminators(m: Settings, vs: seq<Value>)
    requires ValidSettings(m)
  {
    forall h | h in m ::
      && (forall i | 0 <= i < |vs| && vs[i].hash == h && Applies(m[h], vs[i]) :: KeepsTerminator(m[h], vs[i]))
      && (Terminated(m[h]) || exists i :: 0 <= i < |vs| && vs[i].hash == h && Applies(m[h], vs[i]))
  }

  lemma OneTerminated(m: Settings, vs: seq<Value>, h: nat)
    requires ValidSettings(m) && (forall k | 0 <= k < |vs| :: ExactScalar(vs[k])) && DistinctHashes(vs) && h in m
    ensures Terminated(ApplyAll(m, vs)[h]) <==>
              && (forall i | 0 <= i < |vs| && vs[i].hash == h && Applies(m[h], vs[i]) :: KeepsTerminator(m[h], vs[i]))
              && (Terminated(m[h]) || exists i :: 0 <= i < |vs| && vs[i].hash == h && Applies(m[h], vs[i]))
  {
    if i :| 0 <= i < |vs| && vs[i].hash == h && Applies(m[h], vs[i]) {
      ApplyAllHolds(m, vs, i);
      AssignTerminated(m[h], vs[i]);
    } else {
      ApplyAllFrame(m, vs, h);
    }
  }

  /** After overrides with distinct hashes all strings can be written out exactly if each accepted
      override keeps a terminator. */
  lemma ApplyAllTerminated(m: Settings, vs: seq<Value>)
    requires ValidSettings(m) && (forall k | 0 <= k < |vs| :: ExactScalar(vs[k])) && DistinctHashes(vs)
    ensures AllTerminated(ApplyAll(m, vs)) <==> KeepTerminators(m, vs)
  {
    forall h | h in m
      ensures Terminated(ApplyAll(m, vs)[h]) <==>
                && (forall i | 0 <= i < |vs| && vs[i].hash == h && Applies(m[h], vs[i]) :: KeepsTerminator(m[h], vs[i]))
                && (Terminated(m[h]) || exists i :: 0 <= i < |vs| && vs[i].hash == h && Applies(m[h], vs[i]))
    {
      OneTerminated(m, vs, h);
    }
  }

  /** Two letters accepted into an array of two bytes: no terminator is left, and writing the string
      out would take three bytes of it. */
  lemma FullStringLosesTerminator(h: nat)
    requires h < U32_LIMIT
    ensures var m := map[h := Setting(KIND_STRING, 2, Plain([0, 0]))];
            var m' := SetOne(m, Value(h, KIND_STRING, [65, 66]));
            && AllTerminated(m) && !AllTerminated(m')
            && Present(Entry(h, m'[h])) && EmittedSize(m'[h]) == 3
  {
    var m := map[h := Setting(KIND_STRING, 2, Plain([0, 0]))];
    var s := SetOne(m, Value(h, KIND_STRING, [65, 66]))[h];
    assert s.storage.bytes == [65, 66];
    assert CString([65, 66]) == [65] + CString([66]) && CString([66]) == [66] + CString([]);
  }

  // ---- Writing the values out -----------------------------------------------------------------

  datatype Entry = Entry(hash: nat, setting: Setting)

  /** An entry of the settings map; a string ends inside its array, as the source asserts. */
  ghost predicate ValidEntry(e: Entry) {
    e.hash < U32_LIMIT && ValidSetting(e.setting) && Terminated(e.setting)
  }

  /** Empty strings and unset optionals are not written. */
  predicate Present(e: Entry) {
    if e.setting.kind == KIND_STRING then
      e.setting.storage.Plain? && |e.setting.storage.bytes| > 0 && e.setting.storage.bytes[0] != 0
    else
      !e.setting.storage.Unset?
  }

  /** How many bytes are written for a setting: a string up to and with its NUL, else all. */
  function EmittedSize(s: Setting): nat
    requires !s.storage.Unset?
  {
    if s.kind == KIND_STRING then |CString(s.storage.bytes)| + 1 else |s.storage.bytes|
  }

  /** They are all inside the setting exactly if a string ends inside its array. */
  lemma EmittedSizeFits(s: Setting)
    requires ValidSetting(s) && !s.storage.Unset?
    ensures EmittedSize(s) <= s.size <==> Terminated(s)
  {
    if s.kind == KIND_STRING && 0 in s.storage.bytes { CStringShort(s.storage.bytes); }
  }

  function Emitted(e: Entry): (v: Value)
    requires ValidEntry(e) && Present(e)
    ensures v.hash == e.hash && v.kind == e.setting.kind && v.data <= e.setting.storage.bytes
    ensures v.kind < 256 && Representable(v)
  {
    EmittedSizeFits(e.setting);
    Value(e.hash, e.setting.kind, e.setting.storage.bytes[..EmittedSize(e.setting)])
  }

  function PresentValues(es: seq<Entry>): (vs: seq<Value>)
    requires forall i | 0 <= i < |es| :: ValidEntry(es[i])
    ensures |vs| <= |es| && forall i | 0 <= i < |vs| :: vs[i].kind < 256 && Representable(vs[i])
  {
    if es == [] then []
    else
      var rest := PresentValues(es[..|es| - 1]);
      var last := es[|es| - 1];
      if Present(last) then rest + [Emitted(last)] else rest
  }

  /** A string that was set is written back without its unused tail: reading the bytes of an emitted
      string as a C string gives the setting's string. */
  lemma EmittedString(e: Entry)
    requires ValidEntry(e) && Present(e) && e.setting.kind == KIND_STRING
    ensures var bytes := e.setting.storage.bytes;
            Emitted(e).data == CString(bytes) + [0] && CString(Emitted(e).data) == CString(bytes)
  {
    var bytes := e.setting.storage.bytes;
    CStringShort(bytes);
    assert bytes[..|CString(bytes)| + 1] == CString(bytes) + [0];
    CStringAppend(CString(bytes));
  }

  // ---- The settings map and its enumeration ---------------------------------------------------

  /** The entries of a map in some order, each once. */
  ghost predicate Enumerates(es: seq<Entry>, m: Settings) {
    && (forall i, j | 0 <= i < j < |es| :: es[i].hash != es[j].hash)
    && (forall e :: e in es <==> e.hash in m && e.setting == m[e.hash])
  }

  /** What a query must report of a map: a string that is not empty as its text and a NUL, any other
      setting that is not an unset optional as all its bytes. */
  ghost predicate Reports(m: Settings, v: Value) {
    && v.hash in m && v.kind == m[v.hash].kind
    && if v.kind == 10
       then !m[v.hash].storage.Unset? && CString(m[v.hash].storage.bytes) != [] && v.data == CString(m[v.hash].storage.bytes) + [0]
       else !m[v.hash].storage.Unset? && v.data == m[v.hash].storage.bytes
  }

  /** The settings that are reported. */
  ghost function PresentKeys(m: Settings): set<nat> {
    set h | h in m && Reports(m, ReportOf(m, h))
  }

  ghost function ReportOf(m: Settings, h: nat): Value
    requires h in m
  {
    var s := m[h];
    Value(h, s.kind, if s.storage.Unset? then [] else if s.kind == 10 then CString(s.storage.bytes) + [0] else s.storage.bytes)
  }

  /** That is what is written for an entry. */
  lemma EmittedReports(m: Settings, v: Value)
    requires v.hash in m && ValidEntry(Entry(v.hash, m[v.hash]))
    ensures var e := Entry(v.hash, m[v.hash]); Reports(m, v) <==> Present(e) && v == Emitted(e)
  {
    var e := Entry(v.hash, m[v.hash]);
    if e.setting.kind == KIND_STRING {
      StartsEmpty(e.setting.storage.bytes);
      if Present(e) { EmittedString(e); }
    }
  }

  lemma StartsEmpty(s: seq<Byte>)
    ensures CString(s) == [] <==> s == [] || s[0] == 0
  {
  }

  lemma PresentIsReported(m: Settings, h: nat)
    requires h in m && ValidEntry(Entry(h, m[h]))
    ensures Reports(m, ReportOf(m, h)) <==> Present(Entry(h, m[h]))
  {
    EmittedReports(m, ReportOf(m, h));
    var e := Entry(h, m[h]);
    if e.setting.kind == KIND_STRING { StartsEmpty(e.setting.storage.bytes); }
  }

  lemma EnumeratedValid(es: seq<Entry>, m: Settings)
    requires Enumerates(es, m) && ValidSettings(m) && AllTerminated(m)
    ensures forall i | 0 <= i < |es| :: ValidEntry(es[i])
  {
    forall i | 0 <= i < |es| ensures ValidEntry(es[i]) { assert es[i] in es; }
  }

  /** The hash map's iteration, in whatever order. */
  method Enumerate(m: Settings) returns (es: seq<Entry>)
    ensures Enumerates(es, m)
  {
    es := [];
    var left := m.Keys;
    while left != {}
      invariant left <= m.Keys
      invariant forall i, j | 0 <= i < j < |es| :: es[i].hash != es[j].hash
      invariant forall e :: e in es <==> e.hash in m && e.hash !in left && e.setting == m[e.hash]
      decreases |left|
    {
      var h :| h in left;
      forall i | 0 <= i < |es| ensures es[i].hash != h { assert es[i] in es; }
      es := es + [Entry(h, m[h])];
      left := left - {h};
    }
  }

  /** PresentValues are exactly the emitted values of the present entries. */
  lemma {:induction false} PresentValuesExact(es: seq<Entry>, v: Value)
    requires forall i | 0 <= i < |es| :: ValidEntry(es[i])
    ensures v in PresentValues(es) <==> exists i :: 0 <= i < |es| && Present(es[i]) && Emitted(es[i]) == v
  {
    if es != [] {
      var k := |es| - 1;
      PresentValuesExact(es[..k], v);
      assert forall i | 0 <= i < k :: es[..k][i] == es[i];
      if i :| 0 <= i < k && Present(es[i]) && Emitted(es[i]) == v {
        assert Present(es[..k][i]) && Emitted(es[..k][i]) == v;
      }
    }
  }

  function PresentHashes(es: seq<Entry>): set<nat> {
    if es == [] then {}
    else
      var k := |es| - 1;
      if Present(es[k]) then PresentHashes(es[..k]) + {es[k].hash} else PresentHashes(es[..k])
  }

  lemma {:induction false} PresentHashesExact(es: seq<Entry>, h: nat)
    ensures h in PresentHashes(es) <==> exists i :: 0 <= i < |es| && Present(es[i]) && es[i].hash == h
  {
    if es != [] {
      var k := |es| - 1;
      PresentHashesExact(es[..k], h);
      assert forall i | 0 <= i < k :: es[..k][i] == es[i];
      if i :| 0 <= i < k && Present(es[i]) && es[i].hash == h { assert Present(es[..k][i]) && es[..k][i].hash == h; }
    }
  }

  /** As many values as present entries with distinct hashes. */
  lemma {:induction false} PresentCount(es: seq<Entry>)
    requires (forall i | 0 <= i < |es| :: ValidEntry(es[i])) && forall i, j | 0 <= i < j < |es| :: es[i].hash != es[j].hash
    ensures |PresentValues(es)| == |PresentHashes(es)|
  {
    if es != [] {
      var k := |es| - 1;
      PresentCount(es[..k]);
      PresentHashesExact(es[..k], es[k].hash);
    }
  }

  /** Writing out any enumeration of a map reports exactly its present settings, each once. */
  lemma EnumerationReports(es: seq<Entry>, m: Settings)
    requires Enumerates(es, m) && ValidSettings(m) && AllTerminated(m)
    ensures forall i | 0 <= i < |es| :: ValidEntry(es[i])
    ensures forall v :: v in PresentValues(es) <==> Reports(m, v)
    ensures |PresentValues(es)| == |PresentKeys(m)|
  {
    EnumeratedValid(es, m);
    forall v ensures v in PresentValues(es) <==> Reports(m, v) { OneReported(es, m, v); }
    PresentCount(es);
    forall h ensures h in PresentHashes(es) <==> h in PresentKeys(m) { OnePresent(es, m, h); }
    assert PresentHashes(es) == PresentKeys(m);
  }

  lemma OneReported(es: seq<Entry>, m: Settings, v: Value)
    requires Enumerates(es, m) && ValidSettings(m) && AllTerminated(m) && forall i | 0 <= i < |es| :: ValidEntry(es[i])
    ensures v in PresentValues(es) <==> Reports(m, v)
  {
    PresentValuesExact(es, v);
    if v.hash in m {
      var e := Entry(v.hash, m[v.hash]);
      assert e in es;
      EmittedReports(m, v);
    }
    forall i | 0 <= i < |es| && Present(es[i]) && Emitted(es[i]) == v ensures es[i].hash in m && es[i] == Entry(v.hash, m[v.hash]) {
      assert es[i] in es;
    }
  }

  lemma OnePresent(es: seq<Entry>, m: Settings, h: nat)
    requires Enumerates(es, m) && ValidSettings(m) && AllTerminated(m) && forall i | 0 <= i < |es| :: ValidEntry(es[i])
    ensures h in PresentHashes(es) <==> h in PresentKeys(m)
  {
    PresentHashesExact(es, h);
    if h in m {
      assert Entry(h, m[h]) in es;
      PresentIsReported(m, h);
    }
    forall i | 0 <= i < |es| && es[i].hash == h ensures h in m && es[i] == Entry(h, m[h]) { assert es[i] in es; }
  }

  lemma {:induction false} CStringShort(s: seq<Byte>)
    requires 0 in s
    ensures |CString(s)| < |s|
  {
    if s[0] != 0 {
      assert 0 in s[1..];
      CStringShort(s[1..]);
    }
  }

  lemma {:induction false} CStringAppend(s: seq<Byte>)
    requires 0 !in s
    ensures CString(s + [0]) == s
  {
    if s != [] {
      CStringAppend(s[1..]);
      assert (s + [0])[1..] == s[1..] + [0];
      assert s == [s[0]] + s[1..];
    }
  }

  /** A NUL-free prefix that is followed by NUL is the C string. */
  lemma {:induction false} CStringUnique(s: seq<Byte>, r: seq<Byte>)
    requires |r| < |s| && r <= s && 0 !in r && s[|r|] == 0
    ensures CString(s) == r
  {
    if r != [] {
      assert s[0] == r[0] && r[0] in r;
      CStringUnique(s[1..], r[1..]);
      assert r == [r[0]] + r[1..];
    }
  }

  /** What one entry adds to the output. */
  function EntryBytes(e: Entry): seq<Byte>
    requires ValidEntry(e)
  {
    if Present(e) then EncodeValue(Emitted(e)) else []
  }

  lemma PresentValuesSnoc(es: seq<Entry>, i: nat)
    requires i < |es| && forall k | 0 <= k < |es| :: ValidEntry(es[k])
    ensures PresentValues(es[..i + 1]) == PresentValues(es[..i]) + if Present(es[i]) then [Emitted(es[i])] else []
  {
    assert es[..i + 1][..i] == es[..i];
  }

  lemma EntryBytesEncode(vs: seq<Value>, e: Entry)
    requires (forall i | 0 <= i < |vs| :: vs[i].kind < 256) && ValidEntry(e)
    ensures Flatten(ValueParts(vs + if Present(e) then [Emitted(e)] else [])) == Flatten(ValueParts(vs)) + EntryBytes(e)
  {
    if Present(e) { ValuePartsSnoc(vs, Emitted(e)); } else { assert vs + [] == vs; }
  }

  lemma ValuePartsSnoc(vs: seq<Value>, v: Value)
    requires (forall i | 0 <= i < |vs| :: vs[i].kind < 256) && v.kind < 256
    ensures Flatten(ValueParts(vs + [v])) == Flatten(ValueParts(vs)) + EncodeValue(v)
  {
    assert ValueParts(vs + [v]) == ValueParts(vs) + [EncodeValue(v)];
    FlattenSnoc(ValueParts(vs), EncodeValue(v));
  }

  class SettingsBase {
    const name: seq<Byte>
    const blobHash: nat
    var settings: Settings
    var unsupportedExperiments: seq<nat>

    ghost predicate Valid()
      reads this
    {
      ValidSettings(settings) && blobHash < U64_LIMIT
      && forall i | 0 <= i < |unsupportedExperiments| :: unsupportedExperiments[i] < U32_LIMIT
    }

    constructor (name: seq<Byte>, blobHash: nat, settings: Settings, experiments: seq<nat>)
      requires ValidSettings(settings) && blobHash < U64_LIMIT
      requires forall i | 0 <= i < |experiments| :: experiments[i] < U32_LIMIT
      ensures Valid() && this.name == name && this.settings == settings && unsupportedExperiments == experiments
    {
      this.name, this.blobHash, this.settings, unsupportedExperiments := name, blobHash, settings, experiments;
    }

    /** SetValue without a custom setter: exactly one setting changes, and only if hash, type and
        size are right. */
    method SetValue(v: Value) returns (r: SetResult)
      requires Valid() && ExactScalar(v)
      modifies this`settings
      ensures Valid() && settings == SetOne(old(settings), v)
      ensures r == Done ==> v.hash in old(settings) && v.hash in settings && HoldsOverride(settings[v.hash], old(settings)[v.hash], v)
      ensures r != Done ==> settings == old(settings)
      ensures settings.Keys == old(settings.Keys) && forall h | h in settings && h != v.hash :: settings[h] == old(settings)[h]
      ensures r == if v.hash !in old(settings) then NotFound
                   else if old(settings)[v.hash].kind != v.kind then TypeMismatch
                   else if old(settings)[v.hash].size < |v.data| then TooSmall
                   else Done
    {
      r := Done;
      if v.hash in settings {
        var dest := settings[v.hash];
        if dest.kind == v.kind && |v.data| <= dest.size { AssignHolds(dest, v); }
        if dest.kind == v.kind {
          if dest.size >= |v.data| {
            settings := settings[v.hash := Assign(dest, v)];
          } else {
            r := TooSmall;
          }
        } else {
          r := TypeMismatch;
        }
      } else {
        r := NotFound;
      }
    }

    /** Append one entry, if it is present; the buffer's error is looked at only then. */
    static method AppendEntry(entry: Entry, recvBuffer: DynamicBuffer) returns (r: Result)
      requires recvBuffer.Valid() && ValidEntry(entry)
      modifies recvBuffer, recvBuffer.buf
      ensures recvBuffer.Valid() && OwnMemory(recvBuffer)
      ensures r == if Present(entry) then recvBuffer.error else Success
      ensures r == Success ==> recvBuffer.error == old(recvBuffer.error) && recvBuffer.contents == old(recvBuffer.contents) + EntryBytes(entry)
    {
      r := Success;
      if Present(entry) {
        AppendValue(recvBuffer, Emitted(entry));
        r := recvBuffer.error;
      } else {
        assert recvBuffer.contents + [] == recvBuffer.contents;
      }
    }

    /** The i-th round of GetAllValues, behind the values of the rounds before. */
    static method AppendRound(entries: seq<Entry>, i: nat, recvBuffer: DynamicBuffer, ghost before: seq<Byte>, ghost vs: seq<Value>)
      returns (r: Result, added: nat, ghost vs': seq<Value>)
      requires recvBuffer.Valid() && (vs == [] || recvBuffer.error == Success)
      requires i < |entries| && (forall k | 0 <= k < |entries| :: ValidEntry(entries[k])) && vs == PresentValues(entries[..i])
      requires recvBuffer.contents == before + Flatten(ValueParts(vs))
      modifies recvBuffer, recvBuffer.buf
      ensures recvBuffer.Valid() && OwnMemory(recvBuffer)
      ensures vs' == PresentValues(entries[..i + 1]) && |vs'| == |vs| + added
      ensures r == Success ==> (vs' == [] || recvBuffer.error == Success) && recvBuffer.contents == before + Flatten(ValueParts(vs'))
      ensures r != Success ==> r == recvBuffer.error
    {
      PresentValuesSnoc(entries, i);
      EntryBytesEncode(vs, entries[i]);
      Regroup(before, Flatten(ValueParts(vs)), EntryBytes(entries[i]));
      r := AppendEntry(entries[i], recvBuffer);
      added := if Present(entries[i]) then 1 else 0;
      vs' := PresentValues(entries[..i + 1]);
    }

    /** Append all present settings, in the order in which the map enumerates them, and count them. It
        fails only with an error of the buffer, which is looked at where there is something to append. */
    method GetAllValues(entries: seq<Entry>, recvBuffer: DynamicBuffer) returns (r: Result, numValues: nat)
      requires recvBuffer.Valid() && Valid() && Enumerates(entries, settings) && AllTerminated(settings)
      modifies recvBuffer, recvBuffer.buf
      ensures recvBuffer.Valid() && OwnMemory(recvBuffer) && (r != Success ==> r == recvBuffer.error)
      ensures forall i | 0 <= i < |entries| :: ValidEntry(entries[i])
      ensures r == Success ==> numValues == |PresentKeys(settings)| == |PresentValues(entries)| && (numValues == 0 || recvBuffer.error == Success)
      ensures r == Success ==> recvBuffer.contents == old(recvBuffer.contents) + Flatten(ValueParts(PresentValues(entries)))
    {
      EnumerationReports(entries, settings);
      r, numValues := AppendAll(entries, recvBuffer);
    }

    /** The loop of GetAllValues. */
    static method AppendAll(entries: seq<Entry>, recvBuffer: DynamicBuffer) returns (r: Result, numValues: nat)
      requires recvBuffer.Valid() && forall i | 0 <= i < |entries| :: ValidEntry(entries[i])
      modifies recvBuffer, recvBuffer.buf
      ensures recvBuffer.Valid() && OwnMemory(recvBuffer) && (r != Success ==> r == recvBuffer.error)
      ensures r == Success ==> numValues == |PresentValues(entries)| && (numValues == 0 || recvBuffer.error == Success)
      ensures r == Success ==> recvBuffer.contents == old(recvBuffer.contents) + Flatten(ValueParts(PresentValues(entries)))
    {
      r, numValues := Success, 0;
      ghost var before, vs := recvBuffer.contents, PresentValues(entries[..0]);
      assert before + Flatten(ValueParts(vs)) == before;
      for i := 0 to |entries|
        invariant recvBuffer.Valid() && OwnMemory(recvBuffer) && r == Success
        invariant vs == PresentValues(entries[..i]) && numValues == |vs| && (vs == [] || recvBuffer.error == Success)
        invariant recvBuffer.contents == before + Flatten(ValueParts(vs))
      {
        var added;
        r, added, vs := AppendRound(entries, i, recvBuffer, before, vs);
        if r != Success { return r, 0; }
        numValues := numValues + added;
      }
      assert entries[..|entries|] == entries;
    }

    /** Append the experiment hashes if the buffer's capacity holds them. A buffer that could not get
        its memory has no capacity. */
    method GetUnsupportedExperiments(recvBuffer: DynamicBuffer) returns (ok: bool, numValues: nat)
      requires recvBuffer.Valid() && recvBuffer.size == 0 && (recvBuffer.error == Success || recvBuffer.capacity == 0)
      modifies recvBuffer, recvBuffer.buf
      ensures recvBuffer.Valid() && recvBuffer.error == old(recvBuffer.error) && recvBuffer.capacity == old(recvBuffer.capacity)
      ensures OwnMemory(recvBuffer)
      ensures ok <==> HASH_SIZE * |unsupportedExperiments| <= old(recvBuffer.capacity)
      ensures ok ==> numValues == |unsupportedExperiments|
      ensures recvBuffer.contents == if ok then Flatten(HashParts(unsupportedExperiments)) else []
    {
      ok, numValues := false, 0;
      assert recvBuffer.contents == [];
      var sizeNeeded := HASH_SIZE * |unsupportedExperiments|;
      if recvBuffer.capacity >= sizeNeeded {
        numValues := |unsupportedExperiments|;
        HashOffset(unsupportedExperiments, |unsupportedExperiments|);
        OffsetEnds(HashParts(unsupportedExperiments));
        recvBuffer.Copy(Flatten(HashParts(unsupportedExperiments)));
        ok := true;
      }
    }
  }
}
