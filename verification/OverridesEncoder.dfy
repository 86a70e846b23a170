/** Settings::SendAllUserOverrides of the tool (apis/tools/src/dd_settings.cpp): user overrides are
    appended to a dynamic buffer, and each component's size is patched into its header afterwards. */
module OverridesEncoding {
  import opened Bytes
  import opened Bits
  import opened SettingsWire
  import opened DynamicBuffers
  import opened SettingsWriting

  /** The offset of the size field in a component header. */
  const SIZE_FIELD: nat := 51

  /** DDSettingsComponentValueRefs: a fixed-size name array and the values. */
  datatype ComponentOverrides = ComponentOverrides(name: seq<Byte>, values: seq<Value>)

  /** The name field on the wire: the array with its last byte forced to NUL. */
  function WireName(name: seq<Byte>): seq<Byte>
    requires |name| == NAME_SIZE
  {
    name[..NAME_SIZE - 1] + [0]
  }

  /** What the source's types and its checked casts demand of one component. */
  ghost predicate Encodable(o: ComponentOverrides) {
    && |o.name| == NAME_SIZE && |o.values| < U16_LIMIT
    && (forall i | 0 <= i < |o.values| :: o.values[i].kind < 256 && Representable(o.values[i]))
    && COMPONENT_HEADER_SIZE + |Flatten(ValueParts(o.values))| < U32_LIMIT
  }

  ghost predicate AllEncodable(os: seq<ComponentOverrides>) {
    |os| < U16_LIMIT && forall i | 0 <= i < |os| :: Encodable(os[i])
  }

  ghost function ToComponent(o: ComponentOverrides): (c: Component)
    requires Encodable(o)
    ensures WellTyped(c) && ComponentSize(c) < U32_LIMIT && HoldsValues(c, o.values)
  {
    assert U64_LIMIT > 0;
    Component(WireName(o.name), 0, |o.values|, Flatten(ValueParts(o.values)))
  }

  ghost function ToComponents(os: seq<ComponentOverrides>): (cs: seq<Component>)
    requires forall i | 0 <= i < |os| :: Encodable(os[i])
    ensures |cs| == |os| && forall i | 0 <= i < |os| :: cs[i] == ToComponent(os[i])
  {
    seq(|os|, i requires 0 <= i < |os| => ToComponent(os[i]))
  }

  lemma WrittenInside(a: seq<Byte>, old4: seq<Byte>, new4: seq<Byte>, c: seq<Byte>)
    requires |old4| == |new4|
    ensures Written((a + old4) + c, |a|, new4) == (a + new4) + c
  {
  }

  function HeaderFront(c: Component): seq<Byte> {
    c.name + LittleEndian(c.blobHash, 8) + LittleEndian(c.numValues, 2)
  }

  lemma HeaderSplit(c: Component, size: nat)
    requires |c.name| == NAME_SIZE
    ensures EncodeHeader(c, size) == HeaderFront(c) + LittleEndian(size, 4) && |HeaderFront(c)| == SIZE_FIELD
  {
  }

  /** Filling the size field of a header that was written with size 0 completes the component. */
  lemma PatchedHeader(before: seq<Byte>, c: Component, body: seq<Byte>, size: nat)
    requires |c.name| == NAME_SIZE
    ensures Written(before + EncodeHeader(c, 0) + body, |before| + SIZE_FIELD, LittleEndian(size, 4))
         == before + (EncodeHeader(c, size) + body)
  {
    HeaderSplit(c, 0);
    HeaderSplit(c, size);
    var front := HeaderFront(c);
    Regroup(before, front, LittleEndian(0, 4));
    Regroup(before, front, LittleEndian(size, 4));
    WrittenInside(before + front, LittleEndian(0, 4), LittleEndian(size, 4), body);
    Regroup(before, EncodeHeader(c, size), body);
  }

  /** The same for a whole component. */
  lemma PatchedComponent(before: seq<Byte>, c: Component, s: seq<Byte>)
    requires |c.name| == NAME_SIZE && s == before + EncodeHeader(c, 0) + c.body
    ensures |s| == |before| + ComponentSize(c)
    ensures Written(s, |before| + SIZE_FIELD, LittleEndian(|s| - |before|, 4)) == before + EncodeComponent(c)
  {
    PatchedHeader(before, c, c.body, ComponentSize(c));
  }

  /** Append one value behind the parts of those before it. */
  method AppendNext(compsBuf: DynamicBuffer, value: Value, ghost before: seq<Byte>, ghost parts: seq<seq<Byte>>, ghost i: nat)
    requires compsBuf.Valid() && compsBuf.error == Success && compsBuf.Frugal() && value.kind < 256
    requires i < |parts| && parts[i] == EncodeValue(value) && compsBuf.contents == before + Flatten(parts[..i])
    modifies compsBuf, compsBuf.buf
    ensures compsBuf.Valid() && OwnMemory(compsBuf) && Appended(compsBuf, |parts[i]|) && Offset(parts, i) + |parts[i]| == Offset(parts, i + 1) <= |Flatten(parts)|
    ensures compsBuf.error == Success ==> compsBuf.contents == before + Flatten(parts[..i + 1])
  {
    PartAt(parts, i);
    OffsetStep(parts, i);
    Regroup(before, Flatten(parts[..i]), parts[i]);
    AppendValue(compsBuf, value);
  }

  /** Append the values of a component, stopping at the first allocation failure. */
  method EncodeValues(compsBuf: DynamicBuffer, values: seq<Value>)
    requires compsBuf.Valid() && compsBuf.error == Success && compsBuf.Frugal()
    requires forall i | 0 <= i < |values| :: values[i].kind < 256
    modifies compsBuf, compsBuf.buf
    ensures compsBuf.Valid() && OwnMemory(compsBuf) && Appended(compsBuf, |Flatten(ValueParts(values))|)
    ensures compsBuf.error == Success ==> compsBuf.contents == old(compsBuf.contents) + Flatten(ValueParts(values))
  {
    ghost var before, parts := compsBuf.contents, ValueParts(values);
    assert before + Flatten(parts[..0]) == before;
    for valueIndex := 0 to |values|
      invariant compsBuf.Valid() && compsBuf.error == Success && OwnMemory(compsBuf)
      invariant compsBuf.contents == before + Flatten(parts[..valueIndex]) && Appended(compsBuf, Offset(parts, valueIndex))
    {
      AppendNext(compsBuf, values[valueIndex], before, parts, valueIndex);
      if compsBuf.error != Success { return; }
    }
    FlattenWhole(parts);
  }

  /** Append a header whose size field is still 0, and the values. */
  method EncodeUnsized(compsBuf: DynamicBuffer, header: Component, values: seq<Value>)
    requires compsBuf.Valid() && compsBuf.error == Success && compsBuf.Frugal() && |header.name| == NAME_SIZE
    requires forall i | 0 <= i < |values| :: values[i].kind < 256
    modifies compsBuf, compsBuf.buf
    ensures compsBuf.Valid() && OwnMemory(compsBuf) && Appended(compsBuf, COMPONENT_HEADER_SIZE + |Flatten(ValueParts(values))|)
    ensures compsBuf.error == Success ==>
              compsBuf.contents == old(compsBuf.contents) + EncodeHeader(header, 0) + Flatten(ValueParts(values))
  {
    compsBuf.Copy(EncodeHeader(header, 0));
    if compsBuf.error == Success {
      EncodeValues(compsBuf, values);
    }
  }

  /** Write the number of bytes behind the offset into the size field of the header there. */
  method FillSize(compsBuf: DynamicBuffer, componentOffset: nat, ghost before: seq<Byte>, ghost c: Component)
    requires compsBuf.Valid() && compsBuf.error == Success && componentOffset == |before| && |c.name| == NAME_SIZE
    requires compsBuf.contents == before + EncodeHeader(c, 0) + c.body
    modifies compsBuf`contents, compsBuf.buf
    ensures compsBuf.Valid() && compsBuf.contents == before + EncodeComponent(c)
  {
    PatchedComponent(before, c, compsBuf.contents);
    var compSize := compsBuf.size - componentOffset;
    assert compSize == |compsBuf.contents| - |before|;
    compsBuf.Patch(componentOffset + SIZE_FIELD, LittleEndian(compSize, 4));
  }

  /** Append one component: header with size 0, values, then the size in place. */
  method EncodeOne(compsBuf: DynamicBuffer, o: ComponentOverrides)
    requires compsBuf.Valid() && compsBuf.error == Success && compsBuf.Frugal() && Encodable(o)
    modifies compsBuf, compsBuf.buf
    ensures compsBuf.Valid() && OwnMemory(compsBuf) && Appended(compsBuf, ComponentSize(ToComponent(o)))
    ensures compsBuf.error == Success <==> Granted(compsBuf.grants, compsBuf.since, compsBuf.asks)
    ensures compsBuf.error == Success ==> compsBuf.contents == old(compsBuf.contents) + EncodeComponent(ToComponent(o))
  {
    var componentOffset := compsBuf.size;
    var header := Component(WireName(o.name), 0, |o.values|, []);
    ghost var before, c := compsBuf.contents, ToComponent(o);
    EncodeUnsized(compsBuf, header, o.values);
    if compsBuf.error == Success {
      assert EncodeHeader(header, 0) == EncodeHeader(c, 0);
      FillSize(compsBuf, componentOffset, before, c);
    }
  }

  /** The state of the encoder behind i components. */
  ghost predicate Encoded(b: DynamicBuffer, head: seq<Byte>, parts: seq<seq<Byte>>, i: nat)
    requires i <= |parts|
    reads b, b.buf
  {
    && b.Valid() && b.error == Success && Economical(b, |head| + Offset(parts, i))
    && b.contents == head + Flatten(parts[..i])
  }

  /** A buffer with one reservation of 1024 bytes that never held more than n bytes. */
  ghost predicate Economical(b: DynamicBuffer, n: nat)
    reads b
  {
    b.Frugal() && b.since == 0 && b.reservations <= 1 && b.reserved <= 1024 && b.peak <= n && b.size <= n
  }

  /** So it has made a logarithmic number of requests. */
  ghost predicate FewRequests(asks: nat, n: nat) {
    asks <= 2 || Pow2(asks - 2) <= 2 * Max(1024, 2 * n)
  }

  lemma EconomicalAsks(b: DynamicBuffer, m: nat, n: nat)
    requires b.Valid() && Economical(b, m) && m <= n
    ensures b.since == 0 && FewRequests(b.asks, n)
  {
    if b.asks > 2 { Pow2Monotone(b.asks - 2, b.grown); }
  }

  /** The parts are the encoded components. */
  ghost predicate PartsOf(os: seq<ComponentOverrides>, parts: seq<seq<Byte>>) {
    |parts| == |os| && forall i | 0 <= i < |os| :: Encodable(os[i]) && parts[i] == EncodeComponent(ToComponent(os[i]))
  }

  /** One round of the encoder. */
  method EncodeNext(compsBuf: DynamicBuffer, os: seq<ComponentOverrides>, i: nat, ghost head: seq<Byte>, ghost parts: seq<seq<Byte>>)
    requires PartsOf(os, parts) && i < |os| && Encoded(compsBuf, head, parts, i)
    modifies compsBuf, compsBuf.buf
    ensures compsBuf.Valid() && OwnMemory(compsBuf) && compsBuf.since == 0 && FewRequests(compsBuf.asks, |head| + |Flatten(parts)|)
    ensures compsBuf.error == Success ==> Encoded(compsBuf, head, parts, i + 1)
  {
    PartAt(parts, i);
    OffsetStep(parts, i);
    Regroup(head, Flatten(parts[..i]), parts[i]);
    EncodeOne(compsBuf, os[i]);
    EconomicalAsks(compsBuf, |head| + Offset(parts, i + 1), |head| + |Flatten(parts)|);
  }

  /** The loop over the components. */
  method EncodeComponents(compsBuf: DynamicBuffer, os: seq<ComponentOverrides>, ghost head: seq<Byte>, ghost parts: seq<seq<Byte>>)
    requires PartsOf(os, parts) && Encoded(compsBuf, head, parts, 0)
    modifies compsBuf, compsBuf.buf
    ensures compsBuf.Valid() && compsBuf.since == 0 && FewRequests(compsBuf.asks, |head| + |Flatten(parts)|)
    ensures compsBuf.error == Success ==> compsBuf.contents == head + Flatten(parts)
  {
    EconomicalAsks(compsBuf, |head| + Offset(parts, 0), |head| + |Flatten(parts)|);
    for i := 0 to |os|
      invariant Encoded(compsBuf, head, parts, i) && OwnMemory(compsBuf)
      invariant compsBuf.since == 0 && FewRequests(compsBuf.asks, |head| + |Flatten(parts)|)
    {
      EncodeNext(compsBuf, os, i, head, parts);
      if compsBuf.error != Success { return; }
    }
    FlattenWhole(parts);
  }

  /** The reservation and the header for all components. */
  method BeginOverrides(n: nat, grants: Allocator) returns (compsBuf: DynamicBuffer)
    ensures fresh(compsBuf) && compsBuf.Valid() && compsBuf.grants == grants && (compsBuf.buf == null || fresh(compsBuf.buf))
    ensures Economical(compsBuf, ALL_HEADER_SIZE)
    ensures compsBuf.error == Success ==> compsBuf.contents == EncodeAllHeader(n)
  {
    compsBuf := new DynamicBuffer(grants);
    var reserved := compsBuf.Reserve(1024);
    compsBuf.Copy(EncodeAllHeader(n));
  }

  /** The whole encoder: it succeeds exactly if every request to the allocator was granted, and then
      the buffer is the encoding of all components in order. The number of requests is logarithmic in
      the size of the encoding. */
  method EncodeOverrides(os: seq<ComponentOverrides>, grants: Allocator) returns (compsBuf: DynamicBuffer)
    requires AllEncodable(os)
    ensures fresh(compsBuf) && compsBuf.Valid() && compsBuf.grants == grants
    ensures compsBuf.error == Success <==> Granted(grants, 0, compsBuf.asks)
    ensures FewRequests(compsBuf.asks, |EncodeAll(|os|, ToComponents(os))|)
    ensures compsBuf.error == Success ==> compsBuf.contents == EncodeAll(|os|, ToComponents(os))
  {
    ghost var head, parts := EncodeAllHeader(|os|), ComponentParts(ToComponents(os));
    compsBuf := BeginOverrides(|os|, grants);
    if compsBuf.error == Success {
      assert compsBuf.contents == head + Flatten(parts[..0]);
      EncodeComponents(compsBuf, os, head, parts);
    } else {
      EconomicalAsks(compsBuf, ALL_HEADER_SIZE, |head| + |Flatten(parts)|);
    }
  }
}
