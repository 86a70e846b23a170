/** The cursor-based reader of the packed settings buffer (apis/settings/src/dd_settings_iterator.cpp)
    on well-formed buffers: those that their components and values tile. */
module SettingsIteration {
  import opened Bytes
  import opened SettingsWire

  datatype Result = Success | BufferTooSmall | VersionMismatch | DoesNotExist

  /** The caller's cursors. A cursor at offset 0 has not been used; `count` items were found so far. */
  class ComponentCursor {
    var name: seq<Byte>
    var blobHash: nat
    var numValues: nat
    var offset: nat
    ghost var count: nat

    constructor ()
      ensures offset == 0 && count == 0
    {
      name, blobHash, numValues, offset, count := [], 0, 0, 0, 0;
    }
  }

  class ValueCursor {
    var hash: nat
    var kind: nat
    var size: nat
    var dataAt: nat
    var offset: nat
    ghost var count: nat

    constructor ()
      ensures offset == 0 && count == 0
    {
      hash, kind, size, dataAt, offset, count := 0, 0, 0, 0, 0, 0;
    }
  }

  class SettingsIterator {
    const buf: seq<Byte>
    const error: Result
    ghost const comps: seq<Component>
    ghost const starts: seq<nat>

    ghost predicate Valid() {
      Tiles(buf, starts, comps) && (error != Success ==> comps == [])
    }

    /** Read the header of a buffer with n announced components. */
    constructor (buf: seq<Byte>, ghost n: nat, ghost cs: seq<Component>)
      requires buf == EncodeAll(n, cs) && |cs| <= n < U16_LIMIT
      requires forall i | 0 <= i < |cs| :: WellTyped(cs[i]) && ComponentSize(cs[i]) < U32_LIMIT
      ensures Valid() && this.buf == buf && comps == cs
      ensures error == if n == 0 then DoesNotExist else Success
    {
      this.buf, comps, starts := buf, cs, Starts(cs);
      EncodeAllTiles(n, cs);
      AllHeaderFields(n, cs);
      var e := Success;
      var version, numComponents := 0, 0;
      if |buf| >= ALL_HEADER_SIZE {
        version, numComponents := Field(buf, 0, 2), Field(buf, 2, 2);
      } else {
        e := BufferTooSmall;
      }
      if version > 1 { e := VersionMismatch; }
      if numComponents == 0 { e := DoesNotExist; }
      error := e;
    }

    /** The cursor stands on the component it found last. */
    ghost predicate On(c: ComponentCursor)
      requires Valid()
      reads c
    {
      c.count <= |comps| && c.offset == if c.count == 0 then 0 else starts[c.count - 1]
    }

    /** Advance to the next component: found exactly while there is one, with its fields. */
    method NextComponent(c: ComponentCursor) returns (found: bool)
      requires Valid() && On(c)
      modifies c
      ensures On(c) && (found <==> old(c.count) < |comps|)
      ensures found ==> c.count == old(c.count) + 1
      ensures found ==> var next := comps[old(c.count)];
                        c.name == next.name && c.blobHash == next.blobHash && c.numValues == next.numValues
      ensures !found ==> c.count == old(c.count)
    {
      found := false;
      if error == Success {
        var nextOffset := ALL_HEADER_SIZE;
        if c.offset != 0 {
          assert ComponentLies(buf, starts[c.count - 1], starts[c.count], comps[c.count - 1]);
          nextOffset := c.offset + Field(buf, c.offset + 51, 4);
        }
        assert nextOffset == starts[c.count];
        assert c.count < |comps| ==> ComponentLies(buf, starts[c.count], starts[c.count + 1], comps[c.count]);
        if nextOffset < |buf| {
          c.name := buf[nextOffset..nextOffset + NAME_SIZE];
          c.blobHash := Field(buf, nextOffset + 41, 8);
          c.numValues := Field(buf, nextOffset + 49, 2);
          c.offset := nextOffset;
          c.count := c.count + 1;
          found := true;
        }
      }
    }

    /** Where the next value begins, relative to its component. */
    method NextValueOffset(base: nat, v: ValueCursor, ghost size: nat, ghost vs: seq<Value>, ghost at: seq<nat>) returns (nextOffset: nat)
      requires ValuesTile(buf, base, size, at, vs)
      requires v.count <= |vs| && v.offset == if v.count == 0 then 0 else at[v.count - 1]
      ensures nextOffset == at[v.count]
    {
      nextOffset := COMPONENT_HEADER_SIZE;
      if v.offset != 0 {
        assert ValueLies(buf, base, at[v.count - 1], at[v.count], vs[v.count - 1]);
        nextOffset := v.offset + VALUE_HEADER_SIZE + Field(buf, base + v.offset + 5, 2);
      }
    }

    /** Set the cursor to the value at an offset. */
    method LoadValue(base: nat, v: ValueCursor, nextOffset: nat, ghost next: nat, ghost value: Value)
      requires ValueLies(buf, base, nextOffset, next, value)
      modifies v
      ensures v.count == old(v.count) + 1 && v.offset == nextOffset
      ensures v.dataAt + v.size <= |buf| && Value(v.hash, v.kind, buf[v.dataAt..v.dataAt + v.size]) == value
    {
      var position := base + nextOffset;
      v.hash := Field(buf, position, 4);
      v.kind := buf[position + 4];
      v.size := Field(buf, position + 5, 2);
      v.dataAt := position + VALUE_HEADER_SIZE;
      v.offset := nextOffset;
      v.count := v.count + 1;
    }

    /** Advance to the next value of a component: found exactly while there is one, with its fields
        and a reference to its bytes. */
    method NextValue(c: ComponentCursor, v: ValueCursor, ghost vs: seq<Value>, ghost at: seq<nat>) returns (found: bool)
      requires Valid() && On(c) && c.count > 0
      requires ValuesTile(buf, c.offset, ComponentSize(comps[c.count - 1]), at, vs)
      requires v.count <= |vs| && v.offset == if v.count == 0 then 0 else at[v.count - 1]
      modifies v
      ensures found <==> old(v.count) < |vs|
      ensures found ==> v.count == old(v.count) + 1 && v.offset == at[v.count - 1]
      ensures found ==> v.dataAt + v.size <= |buf|
                        && Value(v.hash, v.kind, buf[v.dataAt..v.dataAt + v.size]) == vs[old(v.count)]
      ensures !found ==> v.count == old(v.count)
    {
      found := false;
      if error == Success {
        assert ComponentLies(buf, starts[c.count - 1], starts[c.count], comps[c.count - 1]);
        var size := Field(buf, c.offset + 51, 4);
        var nextOffset := NextValueOffset(c.offset, v, size, vs, at);
        if nextOffset < size {
          assert ValueLies(buf, c.offset, at[v.count], at[v.count + 1], vs[v.count]);
          LoadValue(c.offset, v, nextOffset, at[v.count + 1], vs[v.count]);
          found := true;
        }
      }
    }

    /** Advance to the next unsupported experiment of a component. */
    method NextUnsupportedExperiment(c: ComponentCursor, e: ValueCursor, ghost hashes: seq<nat>) returns (found: bool)
      requires Valid() && On(c) && c.count > 0
      requires HashesTile(buf, c.offset, ComponentSize(comps[c.count - 1]), hashes)
      requires e.count <= |hashes|
      requires e.offset == if e.count == 0 then 0 else COMPONENT_HEADER_SIZE + HASH_SIZE * (e.count - 1)
      modifies e
      ensures found <==> old(e.count) < |hashes|
      ensures found ==> e.count == old(e.count) + 1 && e.offset == COMPONENT_HEADER_SIZE + HASH_SIZE * (e.count - 1)
      ensures found ==> e.hash == hashes[old(e.count)]
      ensures !found ==> e.count == old(e.count)
    {
      found := false;
      if error == Success {
        assert ComponentLies(buf, starts[c.count - 1], starts[c.count], comps[c.count - 1]);
        var size := Field(buf, c.offset + 51, 4);
        var nextOffset := COMPONENT_HEADER_SIZE;
        if e.offset != 0 {
          nextOffset := e.offset + HASH_SIZE;
        }
        assert nextOffset == COMPONENT_HEADER_SIZE + HASH_SIZE * e.count;
        if nextOffset < size {
          e.hash := Field(buf, c.offset + nextOffset, HASH_SIZE);
          e.offset := nextOffset;
          e.count := e.count + 1;
          found := true;
        }
      }
    }
  }

  /** The loop over the values of the component under the cursor. */
  method ReadTiledValues(iter: SettingsIterator, c: ComponentCursor, ghost vs: seq<Value>, ghost at: seq<nat>) returns (values: seq<Value>)
    requires iter.Valid() && iter.On(c) && c.count > 0
    requires ValuesTile(iter.buf, c.offset, ComponentSize(iter.comps[c.count - 1]), at, vs)
    ensures values == vs
  {
    values := [];
    var v := new ValueCursor();
    while true
      invariant fresh(v) && |values| == v.count <= |vs| && values == vs[..v.count]
      invariant v.offset == if v.count == 0 then 0 else at[v.count - 1]
      decreases |vs| - v.count
    {
      var found := iter.NextValue(c, v, vs, at);
      if !found { break; }
      values := values + [Value(v.hash, v.kind, iter.buf[v.dataAt..v.dataAt + v.size])];
    }
  }

  method ReadValues(iter: SettingsIterator, c: ComponentCursor, ghost vs: seq<Value>) returns (values: seq<Value>)
    requires iter.Valid() && iter.On(c) && c.count > 0 && HoldsValues(iter.comps[c.count - 1], vs)
    ensures values == vs
  {
    assert ComponentLies(iter.buf, iter.starts[c.count - 1], iter.starts[c.count], iter.comps[c.count - 1]);
    BodyTiles(iter.buf, c.offset, iter.starts[c.count], iter.comps[c.count - 1], vs);
    values := ReadTiledValues(iter, c, vs, ValueStarts(vs));
  }

  /** The loop over the experiments of the component under the cursor. */
  method ReadTiledExperiments(iter: SettingsIterator, c: ComponentCursor, ghost hashes: seq<nat>) returns (out: seq<nat>)
    requires iter.Valid() && iter.On(c) && c.count > 0
    requires HashesTile(iter.buf, c.offset, ComponentSize(iter.comps[c.count - 1]), hashes)
    ensures out == hashes
  {
    out := [];
    var e := new ValueCursor();
    while true
      invariant fresh(e) && |out| == e.count <= |hashes| && out == hashes[..e.count]
      invariant e.offset == if e.count == 0 then 0 else COMPONENT_HEADER_SIZE + HASH_SIZE * (e.count - 1)
      decreases |hashes| - e.count
    {
      var found := iter.NextUnsupportedExperiment(c, e, hashes);
      if !found { break; }
      out := out + [e.hash];
    }
  }

  method ReadExperiments(iter: SettingsIterator, c: ComponentCursor, ghost hashes: seq<nat>) returns (out: seq<nat>)
    requires iter.Valid() && iter.On(c) && c.count > 0 && HoldsHashes(iter.comps[c.count - 1], hashes)
    ensures out == hashes
  {
    assert ComponentLies(iter.buf, iter.starts[c.count - 1], iter.starts[c.count], iter.comps[c.count - 1]);
    BodyHashesTile(iter.buf, c.offset, iter.starts[c.count], iter.comps[c.count - 1], hashes);
    out := ReadTiledExperiments(iter, c, hashes);
  }

  /** What a consumer of the buffer learns about a component. */
  datatype Reading<T> = Reading(name: seq<Byte>, blobHash: nat, numValues: nat, items: seq<T>)

  ghost predicate Reads<T>(r: Reading<T>, c: Component, items: seq<T>) {
    r == Reading(c.name, c.blobHash, c.numValues, items)
  }

  /** The next component with its values, if there is one. */
  method ReadNext(iter: SettingsIterator, c: ComponentCursor, ghost vss: seq<seq<Value>>) returns (found: bool, reading: Reading<Value>)
    requires iter.Valid() && iter.On(c) && |vss| == |iter.comps|
    requires forall i | 0 <= i < |vss| :: HoldsValues(iter.comps[i], vss[i])
    modifies c
    ensures iter.On(c) && (found <==> old(c.count) < |vss|) && c.count == old(c.count) + if found then 1 else 0
    ensures found ==> Reads(reading, iter.comps[old(c.count)], vss[old(c.count)])
  {
    reading := Reading([], 0, 0, []);
    found := iter.NextComponent(c);
    if found {
      var values := ReadValues(iter, c, vss[c.count - 1]);
      reading := Reading(c.name, c.blobHash, c.numValues, values);
    }
  }

  /** The loop over all components and their values. */
  method ReadComponents(iter: SettingsIterator, ghost vss: seq<seq<Value>>) returns (rs: seq<Reading<Value>>)
    requires iter.Valid() && |vss| == |iter.comps|
    requires forall i | 0 <= i < |vss| :: HoldsValues(iter.comps[i], vss[i])
    ensures |rs| == |vss| && forall i | 0 <= i < |vss| :: Reads(rs[i], iter.comps[i], vss[i])
  {
    var c := new ComponentCursor();
    rs := [];
    while true
      invariant fresh(c) && iter.On(c) && |rs| == c.count
      invariant forall i | 0 <= i < |rs| :: Reads(rs[i], iter.comps[i], vss[i])
      decreases |vss| - c.count
    {
      var found, reading := ReadNext(iter, c, vss);
      if !found { break; }
      rs := rs + [reading];
    }
  }

  /** The round trip: reading an encoded buffer yields exactly its components and values, in order,
      empty components and empty values included. */
  method ReadAllValues(buf: seq<Byte>, ghost n: nat, ghost cs: seq<Component>, ghost vss: seq<seq<Value>>) returns (rs: seq<Reading<Value>>)
    requires buf == EncodeAll(n, cs) && |cs| <= n < U16_LIMIT && |vss| == |cs|
    requires forall i | 0 <= i < |cs| :: WellTyped(cs[i]) && ComponentSize(cs[i]) < U32_LIMIT && HoldsValues(cs[i], vss[i])
    ensures |rs| == |cs| && forall i | 0 <= i < |cs| :: Reads(rs[i], cs[i], vss[i])
  {
    var iter := new SettingsIterator(buf, n, cs);
    rs := ReadComponents(iter, vss);
  }

  method ReadExperimentComponents(iter: SettingsIterator, ghost hss: seq<seq<nat>>) returns (rs: seq<Reading<nat>>)
    requires iter.Valid() && |hss| == |iter.comps|
    requires forall i | 0 <= i < |hss| :: HoldsHashes(iter.comps[i], hss[i])
    ensures |rs| == |hss| && forall i | 0 <= i < |hss| :: Reads(rs[i], iter.comps[i], hss[i])
  {
    var c := new ComponentCursor();
    rs := [];
    while true
      invariant fresh(c) && iter.On(c) && |rs| == c.count
      invariant forall i | 0 <= i < |rs| :: Reads(rs[i], iter.comps[i], hss[i])
      decreases |hss| - c.count
    {
      var found := iter.NextComponent(c);
      if !found { break; }
      var hashes := ReadExperiments(iter, c, hss[c.count - 1]);
      rs := rs + [Reading(c.name, c.blobHash, c.numValues, hashes)];
    }
  }

  /** The same for a buffer of unsupported experiments. */
  method ReadAllExperiments(buf: seq<Byte>, ghost n: nat, ghost cs: seq<Component>, ghost hss: seq<seq<nat>>) returns (rs: seq<Reading<nat>>)
    requires buf == EncodeAll(n, cs) && |cs| <= n < U16_LIMIT && |hss| == |cs|
    requires forall i | 0 <= i < |cs| :: WellTyped(cs[i]) && ComponentSize(cs[i]) < U32_LIMIT && HoldsHashes(cs[i], hss[i])
    ensures |rs| == |cs| && forall i | 0 <= i < |cs| :: Reads(rs[i], cs[i], hss[i])
  {
    var iter := new SettingsIterator(buf, n, cs);
    rs := ReadExperimentComponents(iter, hss);
  }
}
