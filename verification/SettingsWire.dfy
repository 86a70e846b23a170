/** The packed settings buffer shared by tool and driver (apis/settings/inc/dd_settings_rpc_types.h):
    a header for all components, then per component a header and a body of values or experiment
    hashes. Fields are little-endian; a field written by LittleEndian(n, k) is n cast to k bytes. */
module SettingsWire {
  import opened Bytes

  const NAME_SIZE: nat := 41
  const ALL_HEADER_SIZE: nat := 4
  const COMPONENT_HEADER_SIZE: nat := 55
  const VALUE_HEADER_SIZE: nat := 7
  const HASH_SIZE: nat := 4

  datatype Value = Value(hash: nat, kind: nat, data: seq<Byte>)

  ghost predicate Representable(v: Value) {
    v.hash < U32_LIMIT && v.kind < 256 && |v.data| < U16_LIMIT
  }

  /** A component as it lies in the buffer: the name field, two header fields and the body. */
  datatype Component = Component(name: seq<Byte>, blobHash: nat, numValues: nat, body: seq<Byte>)

  ghost predicate WellTyped(c: Component) {
    |c.name| == NAME_SIZE && c.blobHash < U64_LIMIT && c.numValues < U16_LIMIT
  }

  // ---- Encoding -----------------------------------------------------------------------------

  function EncodeValueHeader(v: Value): (s: seq<Byte>)
    requires v.kind < 256
    ensures |s| == VALUE_HEADER_SIZE
  {
    LittleEndian(v.hash, 4) + [v.kind as Byte] + LittleEndian(|v.data|, 2)
  }

  function EncodeValue(v: Value): seq<Byte>
    requires v.kind < 256
  {
    EncodeValueHeader(v) + v.data
  }

  function ValueParts(vs: seq<Value>): (parts: seq<seq<Byte>>)
    requires forall i | 0 <= i < |vs| :: vs[i].kind < 256
    ensures |parts| == |vs| && forall i | 0 <= i < |vs| :: parts[i] == EncodeValue(vs[i])
  {
    seq(|vs|, i requires 0 <= i < |vs| => EncodeValue(vs[i]))
  }

  function HashParts(hashes: seq<nat>): (parts: seq<seq<Byte>>)
    ensures |parts| == |hashes| && forall i | 0 <= i < |hashes| :: parts[i] == LittleEndian(hashes[i], HASH_SIZE)
  {
    seq(|hashes|, i requires 0 <= i < |hashes| => LittleEndian(hashes[i], HASH_SIZE))
  }

  /** A component header with the given content of its size field. */
  function EncodeHeader(c: Component, size: nat): (s: seq<Byte>)
    ensures |c.name| == NAME_SIZE ==> |s| == COMPONENT_HEADER_SIZE
  {
    c.name + LittleEndian(c.blobHash, 8) + LittleEndian(c.numValues, 2) + LittleEndian(size, 4)
  }

  function ComponentSize(c: Component): nat {
    COMPONENT_HEADER_SIZE + |c.body|
  }

  function EncodeComponent(c: Component): seq<Byte> {
    EncodeHeader(c, ComponentSize(c)) + c.body
  }

  function ComponentParts(cs: seq<Component>): (parts: seq<seq<Byte>>)
    ensures |parts| == |cs| && forall i | 0 <= i < |cs| :: parts[i] == EncodeComponent(cs[i])
  {
    seq(|cs|, i requires 0 <= i < |cs| => EncodeComponent(cs[i]))
  }

  /** The header counts n components: all that were asked for, written or not. */
  function EncodeAllHeader(n: nat): (s: seq<Byte>)
    ensures |s| == ALL_HEADER_SIZE
  {
    LittleEndian(1, 2) + LittleEndian(n, 2)
  }

  function EncodeAll(n: nat, cs: seq<Component>): seq<Byte> {
    EncodeAllHeader(n) + Flatten(ComponentParts(cs))
  }

  // ---- Reading fields back -------------------------------------------------------------------

  function StartOf(cs: seq<Component>, i: nat): nat
    requires i <= |cs|
  {
    ALL_HEADER_SIZE + Offset(ComponentParts(cs), i)
  }

  lemma FieldOf(buf: seq<Byte>, at: nat, part: seq<Byte>, i: nat, k: nat, n: nat)
    requires at + |part| <= |buf| && buf[at..at + |part|] == part
    requires i + k <= |part| && part[i..i + k] == LittleEndian(n, k) && n < Pow256(k)
    ensures Field(buf, at + i, k) == n
  {
    SubSlice(buf, at, at + |part|, part, i, i + k);
    LittleEndianRoundTrip(n, k);
  }

  lemma HeaderLayout(c: Component, size: nat)
    requires |c.name| == NAME_SIZE
    ensures var h := EncodeHeader(c, size);
            && h[..41] == c.name
            && h[41..41 + 8] == LittleEndian(c.blobHash, 8)
            && h[49..49 + 2] == LittleEndian(c.numValues, 2)
            && h[51..51 + 4] == LittleEndian(size, 4)
  {
  }

  lemma Widths()
    ensures Pow256(2) == U16_LIMIT && Pow256(4) == U32_LIMIT && Pow256(8) == U64_LIMIT
  {
  }

  /** The fields of a header that lies in a buffer, whatever its size field holds. */
  lemma HeaderFieldsAt(buf: seq<Byte>, at: nat, c: Component, size: nat)
    requires WellTyped(c) && size < U32_LIMIT && at + COMPONENT_HEADER_SIZE <= |buf|
    requires buf[at..at + COMPONENT_HEADER_SIZE] == EncodeHeader(c, size)
    ensures buf[at..at + NAME_SIZE] == c.name
    ensures Field(buf, at + 41, 8) == c.blobHash
    ensures Field(buf, at + 49, 2) == c.numValues
    ensures Field(buf, at + 51, 4) == size
  {
    var h := EncodeHeader(c, size);
    HeaderLayout(c, size);
    SubSlice(buf, at, at + |h|, h, 0, 41);
    Widths();
    FieldOf(buf, at, h, 41, 8, c.blobHash);
    FieldOf(buf, at, h, 49, 2, c.numValues);
    FieldOf(buf, at, h, 51, 4, size);
  }

  /** The bytes of the i-th component in the buffer. */
  lemma ComponentBytes(n: nat, cs: seq<Component>, i: nat)
    requires i < |cs|
    ensures var buf, at := EncodeAll(n, cs), StartOf(cs, i);
            at + |EncodeComponent(cs[i])| == StartOf(cs, i + 1) <= |buf| && buf[at..StartOf(cs, i + 1)] == EncodeComponent(cs[i])
  {
    var buf, parts := EncodeAll(n, cs), ComponentParts(cs);
    PartAt(parts, i);
    assert buf[ALL_HEADER_SIZE..] == Flatten(parts);
    SubSlice(buf, ALL_HEADER_SIZE, |buf|, Flatten(parts), Offset(parts, i), Offset(parts, i + 1));
  }

  lemma ComponentSlice(n: nat, cs: seq<Component>, i: nat)
    requires i < |cs| && |cs[i].name| == NAME_SIZE
    ensures var buf, at, c := EncodeAll(n, cs), StartOf(cs, i), cs[i];
            && at + ComponentSize(c) == StartOf(cs, i + 1) <= |buf|
            && buf[at..at + COMPONENT_HEADER_SIZE] == EncodeHeader(c, ComponentSize(c))
            && buf[at + COMPONENT_HEADER_SIZE..at + ComponentSize(c)] == c.body
  {
    var buf, at, c := EncodeAll(n, cs), StartOf(cs, i), cs[i];
    var part := EncodeComponent(c);
    ComponentBytes(n, cs, i);
    SubSlice(buf, at, at + |part|, part, 0, COMPONENT_HEADER_SIZE);
    SubSlice(buf, at, at + |part|, part, COMPONENT_HEADER_SIZE, |part|);
    assert part[0..COMPONENT_HEADER_SIZE] == EncodeHeader(c, ComponentSize(c)) && part[COMPONENT_HEADER_SIZE..|part|] == c.body;
  }

  /** The i-th component lies at its offset, with readable fields, and its size field leads to the
      next one. */
  lemma ComponentAt(n: nat, cs: seq<Component>, i: nat)
    requires i < |cs| && WellTyped(cs[i]) && ComponentSize(cs[i]) < U32_LIMIT
    ensures var buf, at, c := EncodeAll(n, cs), StartOf(cs, i), cs[i];
            && at + ComponentSize(c) == StartOf(cs, i + 1) <= |buf|
            && buf[at..at + NAME_SIZE] == c.name
            && Field(buf, at + 41, 8) == c.blobHash
            && Field(buf, at + 49, 2) == c.numValues
            && Field(buf, at + 51, 4) == ComponentSize(c)
            && buf[at + COMPONENT_HEADER_SIZE..at + ComponentSize(c)] == c.body
  {
    ComponentSlice(n, cs, i);
    HeaderFieldsAt(EncodeAll(n, cs), StartOf(cs, i), cs[i], ComponentSize(cs[i]));
  }

  lemma StartEnds(n: nat, cs: seq<Component>)
    ensures StartOf(cs, 0) == ALL_HEADER_SIZE && StartOf(cs, |cs|) == |EncodeAll(n, cs)|
  {
    OffsetEnds(ComponentParts(cs));
  }

  lemma AllHeaderFields(n: nat, cs: seq<Component>)
    requires n < U16_LIMIT
    ensures |EncodeAll(n, cs)| >= ALL_HEADER_SIZE
    ensures Field(EncodeAll(n, cs), 0, 2) == 1 && Field(EncodeAll(n, cs), 2, 2) == n
  {
    var buf := EncodeAll(n, cs);
    Widths();
    assert buf[0..2] == LittleEndian(1, 2) && buf[2..4] == LittleEndian(n, 2);
    LittleEndianRoundTrip(1, 2);
    LittleEndianRoundTrip(n, 2);
  }

  lemma ValueLayout(v: Value)
    requires v.kind < 256
    ensures var e := EncodeValue(v);
            && e[0..0 + 4] == LittleEndian(v.hash, 4) && e[4] == v.kind && e[5..5 + 2] == LittleEndian(|v.data|, 2)
            && e[VALUE_HEADER_SIZE..|e|] == v.data
  {
  }

  lemma ValueFieldsAt(body: seq<Byte>, at: nat, v: Value)
    requires Representable(v) && at + VALUE_HEADER_SIZE + |v.data| <= |body|
    requires body[at..at + VALUE_HEADER_SIZE + |v.data|] == EncodeValue(v)
    ensures Field(body, at, 4) == v.hash
    ensures body[at + 4] == v.kind
    ensures Field(body, at + 5, 2) == |v.data|
    ensures body[at + VALUE_HEADER_SIZE..at + VALUE_HEADER_SIZE + |v.data|] == v.data
  {
    var part := EncodeValue(v);
    ValueLayout(v);
    Widths();
    FieldOf(body, at, part, 0, 4, v.hash);
    FieldOf(body, at, part, 5, 2, |v.data|);
    assert body[at..at + |part|][4] == body[at + 4];
    SubSlice(body, at, at + |part|, part, VALUE_HEADER_SIZE, |part|);
  }

  /** The i-th value of a body, at its offset. */
  lemma ValueAt(vs: seq<Value>, i: nat)
    requires i < |vs| && (forall k | 0 <= k < |vs| :: vs[k].kind < 256) && Representable(vs[i])
    ensures ValueLies(Flatten(ValueParts(vs)), 0, Offset(ValueParts(vs), i), Offset(ValueParts(vs), i + 1), vs[i])
  {
    PartAt(ValueParts(vs), i);
    ValueFieldsAt(Flatten(ValueParts(vs)), Offset(ValueParts(vs), i), vs[i]);
  }

  /** The i-th hash of a body, at its offset. */
  lemma HashAt(hashes: seq<nat>, i: nat)
    requires i < |hashes| && hashes[i] < U32_LIMIT
    ensures var body, at := Flatten(HashParts(hashes)), Offset(HashParts(hashes), i);
            at + HASH_SIZE == Offset(HashParts(hashes), i + 1) <= |body| && Field(body, at, HASH_SIZE) == hashes[i]
  {
    var body, at := Flatten(HashParts(hashes)), Offset(HashParts(hashes), i);
    PartAt(HashParts(hashes), i);
    Widths();
    var part := LittleEndian(hashes[i], HASH_SIZE);
    assert part[0..HASH_SIZE] == part;
    FieldOf(body, at, part, 0, HASH_SIZE, hashes[i]);
  }

  /** A body inside the whole buffer: fields are read at the same place relative to it. */
  lemma FieldInBody(buf: seq<Byte>, base: nat, body: seq<Byte>, at: nat, k: nat)
    requires base + |body| <= |buf| && buf[base..base + |body|] == body && at + k <= |body|
    ensures Field(buf, base + at, k) == Field(body, at, k)
  {
    SubSlice(buf, base, base + |body|, body, at, at + k);
  }

  // ---- What a reader relies on ----------------------------------------------------------------

  /** A component lies at a position: readable fields, a size field that leads to `next`, the body. */
  ghost predicate ComponentLies(buf: seq<Byte>, at: nat, next: nat, c: Component) {
    && ALL_HEADER_SIZE <= at && at + ComponentSize(c) == next <= |buf|
    && buf[at..at + NAME_SIZE] == c.name
    && Field(buf, at + 41, 8) == c.blobHash
    && Field(buf, at + 49, 2) == c.numValues
    && Field(buf, at + 51, 4) == ComponentSize(c)
    && buf[at + COMPONENT_HEADER_SIZE..next] == c.body
  }

  /** The components tile the buffer behind its header. */
  ghost predicate Tiles(buf: seq<Byte>, starts: seq<nat>, cs: seq<Component>) {
    && |starts| == |cs| + 1 && starts[0] == ALL_HEADER_SIZE && starts[|cs|] == |buf|
    && forall i | 0 <= i < |cs| :: ComponentLies(buf, starts[i], starts[i + 1], cs[i])
  }

  function Starts(cs: seq<Component>): (starts: seq<nat>)
    ensures |starts| == |cs| + 1 && forall i | 0 <= i <= |cs| :: starts[i] == StartOf(cs, i)
  {
    seq(|cs| + 1, i requires 0 <= i <= |cs| => StartOf(cs, i))
  }

  /** An encoded buffer is tiled by its components. */
  lemma EncodeAllTiles(n: nat, cs: seq<Component>)
    requires forall i | 0 <= i < |cs| :: WellTyped(cs[i]) && ComponentSize(cs[i]) < U32_LIMIT
    ensures Tiles(EncodeAll(n, cs), Starts(cs), cs)
  {
    StartEnds(n, cs);
    forall i | 0 <= i < |cs| ensures ComponentLies(EncodeAll(n, cs), Starts(cs)[i], Starts(cs)[i + 1], cs[i]) {
      ComponentAt(n, cs, i);
    }
  }

  /** A value lies at `from`..`to` relative to `base`: readable fields and its data. */
  ghost predicate ValueLies(buf: seq<Byte>, base: nat, from: nat, to: nat, v: Value) {
    && from + VALUE_HEADER_SIZE + |v.data| == to && base + to <= |buf|
    && Field(buf, base + from, 4) == v.hash && buf[base + from + 4] == v.kind && Field(buf, base + from + 5, 2) == |v.data|
    && buf[base + from + VALUE_HEADER_SIZE..base + to] == v.data
  }

  /** The values tile the body of the component at `base`; positions are relative to `base`. */
  ghost predicate ValuesTile(buf: seq<Byte>, base: nat, size: nat, starts: seq<nat>, vs: seq<Value>) {
    && |starts| == |vs| + 1 && starts[0] == COMPONENT_HEADER_SIZE && starts[|vs|] == size
    && (forall i | 0 <= i < |vs| :: COMPONENT_HEADER_SIZE <= starts[i] < size)
    && forall i | 0 <= i < |vs| :: ValueLies(buf, base, starts[i], starts[i + 1], vs[i])
  }

  function ValueStarts(vs: seq<Value>): (starts: seq<nat>)
    requires forall i | 0 <= i < |vs| :: vs[i].kind < 256
    ensures |starts| == |vs| + 1
    ensures forall i | 0 <= i <= |vs| :: starts[i] == COMPONENT_HEADER_SIZE + Offset(ValueParts(vs), i)
  {
    seq(|vs| + 1, i requires 0 <= i <= |vs| => COMPONENT_HEADER_SIZE + Offset(ValueParts(vs), i))
  }

  lemma ValueInBuffer(buf: seq<Byte>, base: nat, vs: seq<Value>, i: nat)
    requires (forall k | 0 <= k < |vs| :: vs[k].kind < 256) && i < |vs| && Representable(vs[i])
    requires var body := Flatten(ValueParts(vs));
             var at := base + COMPONENT_HEADER_SIZE;
             at + |body| <= |buf| && buf[at..at + |body|] == body
    ensures ValueStarts(vs)[i] < COMPONENT_HEADER_SIZE + |Flatten(ValueParts(vs))|
    ensures ValueLies(buf, base, ValueStarts(vs)[i], ValueStarts(vs)[i + 1], vs[i])
  {
    ValueAt(vs, i);
    ValueLiesShift(buf, base, Flatten(ValueParts(vs)), Offset(ValueParts(vs), i), Offset(ValueParts(vs), i + 1), vs[i]);
  }

  lemma ValueLiesShift(buf: seq<Byte>, base: nat, body: seq<Byte>, from: nat, to: nat, v: Value)
    requires ValueLies(body, 0, from, to, v)
    requires var at := base + COMPONENT_HEADER_SIZE; at + |body| <= |buf| && buf[at..at + |body|] == body
    ensures ValueLies(buf, base, COMPONENT_HEADER_SIZE + from, COMPONENT_HEADER_SIZE + to, v)
  {
    var at := base + COMPONENT_HEADER_SIZE;
    FieldInBody(buf, at, body, from, 4);
    FieldInBody(buf, at, body, from + 5, 2);
    assert buf[at..at + |body|][from + 4] == buf[at + from + 4];
    SubSlice(buf, at, at + |body|, body, from + VALUE_HEADER_SIZE, to);
  }

  ghost predicate HoldsValues(c: Component, vs: seq<Value>) {
    (forall i | 0 <= i < |vs| :: vs[i].kind < 256 && Representable(vs[i])) && c.body == Flatten(ValueParts(vs))
  }

  lemma BodyTiles(buf: seq<Byte>, at: nat, next: nat, c: Component, vs: seq<Value>)
    requires ComponentLies(buf, at, next, c) && HoldsValues(c, vs)
    ensures ValuesTile(buf, at, ComponentSize(c), ValueStarts(vs), vs)
  {
    OffsetEnds(ValueParts(vs));
    forall i | 0 <= i < |vs|
      ensures COMPONENT_HEADER_SIZE <= ValueStarts(vs)[i] < ComponentSize(c)
      ensures ValueLies(buf, at, ValueStarts(vs)[i], ValueStarts(vs)[i + 1], vs[i])
    {
      ValueInBuffer(buf, at, vs, i);
    }
  }

  ghost predicate HoldsHashes(c: Component, hashes: seq<nat>) {
    (forall i | 0 <= i < |hashes| :: hashes[i] < U32_LIMIT) && c.body == Flatten(HashParts(hashes))
  }

  /** Hashes tile a body in steps of four bytes. */
  ghost predicate HashesTile(buf: seq<Byte>, base: nat, size: nat, hashes: seq<nat>) {
    && size == COMPONENT_HEADER_SIZE + HASH_SIZE * |hashes| && base + size <= |buf|
    && forall i | 0 <= i < |hashes| :: Field(buf, base + COMPONENT_HEADER_SIZE + HASH_SIZE * i, HASH_SIZE) == hashes[i]
  }

  lemma {:induction false} HashOffset(hashes: seq<nat>, i: nat)
    requires i <= |hashes|
    ensures Offset(HashParts(hashes), i) == HASH_SIZE * i
    decreases i
  {
    if i > 0 {
      HashOffset(hashes, i - 1);
      OffsetStep(HashParts(hashes), i - 1);
    }
  }

  lemma BodyHashesTile(buf: seq<Byte>, at: nat, next: nat, c: Component, hashes: seq<nat>)
    requires ComponentLies(buf, at, next, c) && HoldsHashes(c, hashes)
    ensures HashesTile(buf, at, ComponentSize(c), hashes)
  {
    OffsetEnds(HashParts(hashes));
    HashOffset(hashes, |hashes|);
    forall i | 0 <= i < |hashes|
      ensures Field(buf, at + COMPONENT_HEADER_SIZE + HASH_SIZE * i, HASH_SIZE) == hashes[i]
    {
      HashAt(hashes, i);
      HashOffset(hashes, i);
      FieldInBody(buf, at + COMPONENT_HEADER_SIZE, c.body, HASH_SIZE * i, HASH_SIZE);
    }
  }
}
