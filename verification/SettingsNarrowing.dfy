/** The encoding of query answers (apis/settings/src/dd_settings_service.cpp), in which the size of a
    component passes through a cast to 16 bits before it is stored in its 32-bit field. */
module SettingsNarrowing {
  import opened Bytes
  import opened SettingsWire

  function EncodeNarrow(c: Component): seq<Byte> {
    EncodeHeader(c, ComponentSize(c) % U16_LIMIT) + c.body
  }

  function NarrowParts(cs: seq<Component>): (parts: seq<seq<Byte>>)
    ensures |parts| == |cs| && forall i | 0 <= i < |cs| :: parts[i] == EncodeNarrow(cs[i])
  {
    seq(|cs|, i requires 0 <= i < |cs| => EncodeNarrow(cs[i]))
  }

  function EncodeQuery(n: nat, cs: seq<Component>): seq<Byte> {
    EncodeAllHeader(n) + Flatten(NarrowParts(cs))
  }

  /** The cast changes no length, so components begin where they would without it. */
  lemma {:induction false} SameOffsets(cs: seq<Component>, i: nat)
    requires i <= |cs| && forall k | 0 <= k < |cs| :: WellTyped(cs[k])
    ensures Offset(NarrowParts(cs), i) == Offset(ComponentParts(cs), i)
    decreases i
  {
    if i > 0 {
      SameOffsets(cs, i - 1);
      OffsetStep(NarrowParts(cs), i - 1);
      OffsetStep(ComponentParts(cs), i - 1);
    }
  }

  lemma NarrowSlice(n: nat, cs: seq<Component>, k: nat)
    requires k < |cs| && |cs[k].name| == NAME_SIZE
    ensures var buf, at, c := EncodeQuery(n, cs), ALL_HEADER_SIZE + Offset(NarrowParts(cs), k), cs[k];
            && at + ComponentSize(c) == ALL_HEADER_SIZE + Offset(NarrowParts(cs), k + 1) <= |buf|
            && buf[at..at + COMPONENT_HEADER_SIZE] == EncodeHeader(c, ComponentSize(c) % U16_LIMIT)
  {
    var parts := NarrowParts(cs);
    var buf, at, c := EncodeQuery(n, cs), ALL_HEADER_SIZE + Offset(parts, k), cs[k];
    var part, header := EncodeNarrow(c), EncodeHeader(c, ComponentSize(c) % U16_LIMIT);
    PartAt(parts, k);
    assert buf[ALL_HEADER_SIZE..] == Flatten(parts);
    SubSlice(buf, ALL_HEADER_SIZE, |buf|, Flatten(parts), Offset(parts, k), Offset(parts, k + 1));
    SubSlice(buf, at, at + |part|, part, 0, COMPONENT_HEADER_SIZE);
    assert part[0..COMPONENT_HEADER_SIZE] == header;
  }

  /** What the size field of any component holds. */
  lemma NarrowField(n: nat, cs: seq<Component>, i: nat)
    requires i < |cs| && forall k | 0 <= k < |cs| :: WellTyped(cs[k])
    ensures StartOf(cs, i) + ComponentSize(cs[i]) == StartOf(cs, i + 1) <= |EncodeQuery(n, cs)|
    ensures Field(EncodeQuery(n, cs), StartOf(cs, i) + 51, 4) == ComponentSize(cs[i]) % U16_LIMIT
  {
    SameOffsets(cs, i);
    SameOffsets(cs, i + 1);
    NarrowSlice(n, cs, i);
    HeaderFieldsAt(EncodeQuery(n, cs), StartOf(cs, i), cs[i], ComponentSize(cs[i]) % U16_LIMIT);
  }

  lemma CastTo16(size: nat)
    ensures size % U16_LIMIT <= size && (size % U16_LIMIT == size <==> size < U16_LIMIT)
  {
  }

  /** Where the size field of any component leads a reader: to the next component exactly if it has
      at most 65535 bytes, back to itself exactly if its size is a multiple of 65536, and otherwise
      into its own bytes. */
  lemma WalkStep(n: nat, cs: seq<Component>, i: nat)
    requires i < |cs| && forall k | 0 <= k < |cs| :: WellTyped(cs[k])
    ensures var buf, at, next := EncodeQuery(n, cs), StartOf(cs, i), StartOf(cs, i + 1);
            && at + COMPONENT_HEADER_SIZE <= next <= |buf|
            && at <= at + Field(buf, at + 51, 4) <= next
            && (at + Field(buf, at + 51, 4) == next <==> ComponentSize(cs[i]) < U16_LIMIT)
            && (at + Field(buf, at + 51, 4) == at <==> ComponentSize(cs[i]) % U16_LIMIT == 0)
  {
    NarrowField(n, cs, i);
    CastTo16(ComponentSize(cs[i]));
  }

  lemma OversizedDiffers(n: nat, cs: seq<Component>, i: nat)
    requires i < |cs| && forall k | 0 <= k < |cs| :: WellTyped(cs[k]) && ComponentSize(cs[k]) < U32_LIMIT
    requires ComponentSize(cs[i]) >= U16_LIMIT
    ensures EncodeQuery(n, cs) != EncodeAll(n, cs)
  {
    NarrowField(n, cs, i);
    CastTo16(ComponentSize(cs[i]));
    ComponentAt(n, cs, i);
  }

  /** The answer is the proper encoding if and only if every component has at most 65535 bytes. */
  lemma NarrowIsExact(n: nat, cs: seq<Component>)
    requires forall i | 0 <= i < |cs| :: WellTyped(cs[i]) && ComponentSize(cs[i]) < U32_LIMIT
    ensures EncodeQuery(n, cs) == EncodeAll(n, cs) <==> forall i | 0 <= i < |cs| :: ComponentSize(cs[i]) < U16_LIMIT
  {
    if i :| 0 <= i < |cs| && ComponentSize(cs[i]) >= U16_LIMIT {
      OversizedDiffers(n, cs, i);
    } else {
      assert NarrowParts(cs) == ComponentParts(cs);
    }
  }
}
