/** The registry of API structs (apis/tools/src/dd_api_registry.cpp): an append-only pool of records,
    each a header and the bytes of a struct, searched from the front. */
module ApiRegistries {
  import opened Bytes
  import opened Bits

  const POOL_SIZE: nat := 4096

  /** offsetof(ApiData, data) with 64-bit pointers: name, three version numbers and padding, two sizes. */
  const DATA_OFFSET: nat := 40

  datatype Version = Version(major: nat, minor: nat, patch: nat)

  /** What is registered. Names are C strings, taken by value. */
  datatype Api = Api(name: string, version: Version, bytes: seq<Byte>)

  /** The fields of a record in front of its data. */
  datatype Header = Header(name: string, version: Version, size: nat, alignedSize: nat)

  datatype AddStatus = Added | AlreadyExists | BufferTooSmall
  datatype Lookup = Found(data: nat) | VersionMismatch | DoesNotExist

  // ---- The size of a record -------------------------------------------------------------------

  /** The complement of 7 is taken in 32 bits and then widened, so it also clears the upper half. */
  function RecordSize(n: nat): nat {
    And(DATA_OFFSET + n + 7, Not32(7))
  }

  /** The size of a record is its least padded size exactly while header, struct and padding stay
      below 2^32. */
  lemma RecordSizeExact(n: nat)
    ensures RecordSize(n) == RoundUp(DATA_OFFSET + n, 8) <==> DATA_OFFSET + n + 7 < U32_LIMIT
  {
    FloorToEight(DATA_OFFSET + n + 7);
  }

  // ---- Records in the pool --------------------------------------------------------------------

  /** A registered API and the stretch of the pool that it takes. */
  datatype Record = Record(api: Api, extent: nat)

  /** Records in order, and where each begins; the last start is the size in use. */
  datatype Pool = Pool(starts: seq<nat>, records: seq<Record>)

  const EmptyPool := Pool([0], [])

  predicate Shaped(p: Pool) {
    |p.starts| == |p.records| + 1
  }

  function Used(p: Pool): nat
    requires Shaped(p)
  {
    p.starts[|p.records|]
  }

  /** Records end to end from the front of the pool, at multiples of 8, each with room for its struct. */
  ghost predicate Tiled(starts: seq<nat>, rs: seq<Record>) {
    && |starts| == |rs| + 1 && starts[0] == 0
    && (forall i | 0 <= i < |rs| ::
         starts[i + 1] == starts[i] + rs[i].extent && starts[i] + DATA_OFFSET + |rs[i].api.bytes| <= starts[i + 1])
    && forall i | 0 <= i < |starts| :: starts[i] % 8 == 0
  }

  predicate Sized(a: Api) {
    DATA_OFFSET + |a.bytes| + 7 < U32_LIMIT
  }

  ghost predicate Distinct(rs: seq<Record>) {
    forall i, j | 0 <= i < j < |rs| :: rs[i].api.name != rs[j].api.name
  }

  predicate Has(rs: seq<Record>, name: string) {
    exists i | 0 <= i < |rs| :: rs[i].api.name == name
  }

  // ---- The registry as a map ------------------------------------------------------------------

  function RecordOf(a: Api): Record {
    Record(a, RecordSize(|a.bytes|))
  }

  function StatusOf(p: Pool, r: Record): AddStatus
    requires Shaped(p)
  {
    if Has(p.records, r.api.name) then AlreadyExists
    else if r.extent + Used(p) <= POOL_SIZE then Added
    else BufferTooSmall
  }

  function After(p: Pool, r: Record): (p': Pool)
    requires Shaped(p)
    ensures Shaped(p')
  {
    if StatusOf(p, r) == Added then Pool(p.starts + [Used(p) + r.extent], p.records + [r]) else p
  }

  function AfterAll(adds: seq<Api>): (p: Pool)
    ensures Shaped(p)
  {
    if adds == [] then EmptyPool else After(AfterAll(adds[..|adds| - 1]), RecordOf(adds[|adds| - 1]))
  }

  /** The registry as callers see it: for every name the registration that was accepted. */
  function Registered(adds: seq<Api>): map<string, Api> {
    if adds == [] then map[]
    else
      var before, a := adds[..|adds| - 1], adds[|adds| - 1];
      var m := Registered(before);
      if StatusOf(AfterAll(before), RecordOf(a)) == Added then m[a.name := a] else m
  }

  /** What Get must find. */
  ghost predicate LookupFits(starts: seq<nat>, rs: seq<Record>, name: string, asked: Version, r: Lookup)
    requires |starts| == |rs| + 1
  {
    match r
    case DoesNotExist => !Has(rs, name)
    case VersionMismatch => exists i | 0 <= i < |rs| ::
        rs[i].api.name == name && !(rs[i].api.version.major == asked.major && rs[i].api.version.minor >= asked.minor)
    case Found(data) =>
      exists i | 0 <= i < |rs| ::
        && rs[i].api.name == name && data == starts[i] + DATA_OFFSET
        && rs[i].api.version.major == asked.major && rs[i].api.version.minor >= asked.minor
  }

  // ---- What every history of additions keeps --------------------------------------------------

  /** A record that reaches from one multiple of 8 to another and holds its struct. */
  predicate Padded(r: Record) {
    DATA_OFFSET + |r.api.bytes| <= r.extent && r.extent % 8 == 0
  }

  lemma RecordPadded(a: Api)
    requires Sized(a)
    ensures Padded(RecordOf(a)) && RecordOf(a).extent == RoundUp(DATA_OFFSET + |a.bytes|, 8)
  {
    RecordSizeExact(|a.bytes|);
  }

  lemma TiledSnoc(starts: seq<nat>, rs: seq<Record>, end: nat, r: Record)
    requires Tiled(starts, rs) && end == starts[|rs|] && Padded(r)
    ensures Tiled(starts + [end + r.extent], rs + [r])
  {
    MultipleAdd(end, r.extent, 8);
  }

  lemma {:induction false} TiledMonotone(starts: seq<nat>, rs: seq<Record>, i: nat, j: nat)
    requires Tiled(starts, rs) && i <= j <= |rs|
    ensures starts[i] <= starts[j]
    decreases j
  {
    if i < j { TiledMonotone(starts, rs, i, j - 1); }
  }

  /** The map holds exactly the records, under their names. */
  ghost predicate MapFits(rs: seq<Record>, m: map<string, Api>) {
    && (forall name :: name in m <==> Has(rs, name))
    && (forall i | 0 <= i < |rs| :: rs[i].api.name in m && m[rs[i].api.name] == rs[i].api)
  }

  lemma HasSnoc(rs: seq<Record>, r: Record, name: string)
    ensures Has(rs + [r], name) <==> Has(rs, name) || r.api.name == name
  {
    assert (rs + [r])[|rs|] == r;
    if Has(rs, name) {
      var i :| 0 <= i < |rs| && rs[i].api.name == name;
      assert (rs + [r])[i].api.name == name;
    }
  }

  lemma MapSnoc(rs: seq<Record>, m: map<string, Api>, r: Record)
    requires MapFits(rs, m) && !Has(rs, r.api.name)
    ensures MapFits(rs + [r], m[r.api.name := r.api])
  {
    forall name ensures name in m[r.api.name := r.api] <==> Has(rs + [r], name) { HasSnoc(rs, r, name); }
  }

  lemma DistinctSnoc(rs: seq<Record>, r: Record)
    requires Distinct(rs) && !Has(rs, r.api.name)
    ensures Distinct(rs + [r])
  {
  }

  /** The pool holds these records: distinct names, end to end at multiples of 8, within its size. */
  ghost predicate PoolFits(starts: seq<nat>, rs: seq<Record>) {
    Distinct(rs) && Tiled(starts, rs) && starts[|rs|] <= POOL_SIZE
  }

  lemma PoolSnoc(starts: seq<nat>, rs: seq<Record>, end: nat, r: Record)
    requires PoolFits(starts, rs) && end == starts[|rs|] && Padded(r) && !Has(rs, r.api.name) && end + r.extent <= POOL_SIZE
    ensures PoolFits(starts + [end + r.extent], rs + [r])
  {
    DistinctSnoc(rs, r);
    TiledSnoc(starts, rs, end, r);
  }

  lemma PoolStep(p: Pool, r: Record)
    requires Shaped(p) && PoolFits(p.starts, p.records) && Padded(r)
    ensures PoolFits(After(p, r).starts, After(p, r).records)
  {
    if StatusOf(p, r) == Added { PoolSnoc(p.starts, p.records, Used(p), r); }
  }

  lemma MapStep(p: Pool, m: map<string, Api>, r: Record)
    requires Shaped(p) && MapFits(p.records, m)
    ensures MapFits(After(p, r).records, if StatusOf(p, r) == Added then m[r.api.name := r.api] else m)
  {
    if StatusOf(p, r) == Added { MapSnoc(p.records, m, r); }
  }

  /** After any run of additions the pool is well formed and refines the map of registered APIs. */
  lemma {:induction false} PoolRefinesMap(adds: seq<Api>)
    requires forall i | 0 <= i < |adds| :: Sized(adds[i])
    ensures PoolFits(AfterAll(adds).starts, AfterAll(adds).records)
    ensures MapFits(AfterAll(adds).records, Registered(adds))
    decreases |adds|
  {
    if adds != [] {
      var k := |adds| - 1;
      PoolRefinesMap(adds[..k]);
      RecordPadded(adds[k]);
      PoolStep(AfterAll(adds[..k]), RecordOf(adds[k]));
      MapStep(AfterAll(adds[..k]), Registered(adds[..k]), RecordOf(adds[k]));
    }
  }

  /** What Get answers is what the map says under the version rule, and the bytes at the position it
      gives are those of the map. */
  lemma LookupIsMapLookup(adds: seq<Api>, pool: seq<Byte>, name: string, asked: Version, r: Lookup)
    requires (forall i | 0 <= i < |adds| :: Sized(adds[i])) && LookupFits(AfterAll(adds).starts, AfterAll(adds).records, name, asked, r)
    requires r.Found? ==> StructLies(pool, AfterAll(adds).records, name, r.data)
    ensures r == DoesNotExist <==> name !in Registered(adds)
    ensures r.Found? <==>
              && name in Registered(adds)
              && Registered(adds)[name].version.major == asked.major && Registered(adds)[name].version.minor >= asked.minor
    ensures r.Found? ==>
              var bytes := Registered(adds)[name].bytes;
              r.data % 8 == 0 && r.data + |bytes| <= |pool| && pool[r.data..r.data + |bytes|] == bytes
  {
    PoolRefinesMap(adds);
  }

  lemma StatusExactly(p: Pool, m: map<string, Api>, a: Api)
    requires Shaped(p) && MapFits(p.records, m) && Sized(a)
    ensures StatusOf(p, RecordOf(a)) == AlreadyExists <==> a.name in m
    ensures StatusOf(p, RecordOf(a)) == BufferTooSmall <==> a.name !in m && Used(p) + RoundUp(40 + |a.bytes|, 8) > 4096
  {
    RecordPadded(a);
  }

  lemma RegisteredMore(adds: seq<Api>, a: Api)
    ensures Registered(adds + [a]) ==
              if StatusOf(AfterAll(adds), RecordOf(a)) == Added then Registered(adds)[a.name := a] else Registered(adds)
  {
    assert (adds + [a])[..|adds|] == adds;
  }

  /** After any run of additions the next one is registered if and only if its name is new and its
      record, with header and padding, fits behind the others; it is refused as known or as too large
      otherwise. */
  lemma AdditionsExactly(adds: seq<Api>, a: Api)
    requires (forall i | 0 <= i < |adds| :: Sized(adds[i])) && Sized(a)
    ensures var m, fits := Registered(adds), Used(AfterAll(adds)) + RoundUp(40 + |a.bytes|, 8) <= 4096;
            && Registered(adds + [a]) == (if a.name !in m && fits then m[a.name := a] else m)
            && (StatusOf(AfterAll(adds), RecordOf(a)) == AlreadyExists <==> a.name in m)
            && (StatusOf(AfterAll(adds), RecordOf(a)) == BufferTooSmall <==> a.name !in m && !fits)
  {
    PoolRefinesMap(adds);
    RegisteredMore(adds, a);
    StatusExactly(AfterAll(adds), Registered(adds), a);
  }

  /** Later additions move no record. */
  lemma {:induction false} AdditionsExtend(adds: seq<Api>, n: nat)
    requires n <= |adds|
    ensures AfterAll(adds[..n]).records <= AfterAll(adds).records && AfterAll(adds[..n]).starts <= AfterAll(adds).starts
    decreases |adds|
  {
    if n == |adds| {
      assert adds[..n] == adds;
    } else {
      var k := |adds| - 1;
      AdditionsExtend(adds[..k], n);
      assert adds[..k][..n] == adds[..n];
    }
  }

  // ---- The registry in memory -----------------------------------------------------------------

  /** A record lies at a position: header fields, and the struct behind them. */
  ghost predicate RecordLies(pool: seq<Byte>, headers: map<nat, Header>, at: nat, r: Record) {
    && at in headers && headers[at] == HeaderOf(r)
    && at + DATA_OFFSET + |r.api.bytes| <= |pool|
    && pool[at + DATA_OFFSET..at + DATA_OFFSET + |r.api.bytes|] == r.api.bytes
  }

  function HeaderOf(r: Record): Header {
    Header(r.api.name, r.api.version, |r.api.bytes|, r.extent)
  }

  ghost predicate RecordsLie(pool: seq<Byte>, headers: map<nat, Header>, starts: seq<nat>, rs: seq<Record>)
    requires |starts| == |rs| + 1
  {
    forall i | 0 <= i < |rs| :: RecordLies(pool, headers, starts[i], rs[i])
  }

  lemma FrontKept(s: seq<Byte>, s': seq<Byte>, at: nat, src: seq<Byte>, end: nat)
    requires at + |src| <= |s| && end <= at && s' == Written(s, at, src)
    ensures s'[..end] == s[..end]
  {
  }

  /** A record stays while the bytes in front of a position behind it, and its header, are the same. */
  lemma RecordKept(pool: seq<Byte>, headers: map<nat, Header>, at: nat, r: Record, pool': seq<Byte>, headers': map<nat, Header>, end: nat)
    requires RecordLies(pool, headers, at, r) && at + DATA_OFFSET + |r.api.bytes| <= end <= |pool| == |pool'|
    requires pool'[..end] == pool[..end] && at in headers' && headers'[at] == headers[at]
    ensures RecordLies(pool', headers', at, r)
  {
    SubSlice(pool', 0, end, pool[..end], at + DATA_OFFSET, at + DATA_OFFSET + |r.api.bytes|);
    SubSlice(pool, 0, end, pool[..end], at + DATA_OFFSET, at + DATA_OFFSET + |r.api.bytes|);
  }

  lemma RecordsExtend(pool: seq<Byte>, headers: map<nat, Header>, starts: seq<nat>, rs: seq<Record>, end: nat, r: Record, pool': seq<Byte>)
    requires Tiled(starts, rs) && RecordsLie(pool, headers, starts, rs) && end == starts[|rs|]
    requires end + DATA_OFFSET + |r.api.bytes| <= |pool| && pool' == Written(pool, end + DATA_OFFSET, r.api.bytes)
    ensures RecordsLie(pool', headers[end := HeaderOf(r)], starts + [end + r.extent], rs + [r])
    ensures pool'[..end] == pool[..end]
  {
    var headers' := headers[end := HeaderOf(r)];
    FrontKept(pool, pool', end + DATA_OFFSET, r.api.bytes, end);
    assert pool'[end + DATA_OFFSET..end + DATA_OFFSET + |r.api.bytes|] == r.api.bytes;
    forall i | 0 <= i < |rs| ensures RecordLies(pool', headers', starts[i], rs[i]) {
      TiledMonotone(starts, rs, i + 1, |rs|);
      RecordKept(pool, headers, starts[i], rs[i], pool', headers', end);
    }
  }

  /** The bytes registered under a name lie at an aligned position. */
  ghost predicate StructLies(pool: seq<Byte>, rs: seq<Record>, name: string, data: nat) {
    && data % 8 == 0
    && exists i | 0 <= i < |rs| ::
         rs[i].api.name == name && data + |rs[i].api.bytes| <= |pool| && pool[data..data + |rs[i].api.bytes|] == rs[i].api.bytes
  }

  lemma FoundRecord(pool: seq<Byte>, headers: map<nat, Header>, starts: seq<nat>, rs: seq<Record>, i: nat)
    requires Tiled(starts, rs) && RecordsLie(pool, headers, starts, rs) && i < |rs|
    ensures starts[i] in headers && headers[starts[i]] == HeaderOf(rs[i])
    ensures StructLies(pool, rs, rs[i].api.name, starts[i] + DATA_OFFSET)
  {
    assert RecordLies(pool, headers, starts[i], rs[i]);
    assert starts[i] % 8 == 0;
  }

  /** The pool and its headers hold these records. */
  ghost predicate Holds(pool: seq<Byte>, headers: map<nat, Header>, total: nat, starts: seq<nat>, rs: seq<Record>) {
    PoolFits(starts, rs) && total == starts[|rs|] && RecordsLie(pool, headers, starts, rs)
  }

  /** And one more behind them. */
  ghost predicate HoldsAlso(pool: seq<Byte>, headers: map<nat, Header>, total: nat, starts: seq<nat>, rs: seq<Record>, r: Record) {
    Holds(pool, headers[total := HeaderOf(r)], total + r.extent, starts + [total + r.extent], rs + [r])
  }

  lemma HoldsMore(pool: seq<Byte>, headers: map<nat, Header>, total: nat, starts: seq<nat>, rs: seq<Record>, r: Record, pool': seq<Byte>)
    requires |pool| == POOL_SIZE && Holds(pool, headers, total, starts, rs) && Padded(r) && !Has(rs, r.api.name) && total + r.extent <= POOL_SIZE
    requires pool' == Written(pool, total + DATA_OFFSET, r.api.bytes)
    ensures HoldsAlso(pool', headers, total, starts, rs, r)
    ensures pool'[..total] == pool[..total]
  {
    RecordsExtend(pool, headers, starts, rs, total, r, pool');
    PoolSnoc(starts, rs, total, r);
  }

  class ApiRegistry {
    const pool: array<Byte>
    var headers: map<nat, Header>
    var totalSize: nat
    /** What was added, in order. */
    ghost var records: seq<Record>
    ghost var starts: seq<nat>

    ghost predicate Valid()
      reads this, pool
    {
      pool.Length == POOL_SIZE && Holds(pool[..], headers, totalSize, starts, records)
    }

    /** The records as the history of additions has them. */
    ghost function Contents(): Pool
      reads this
    {
      Pool(starts, records)
    }

    constructor ()
      ensures Valid() && fresh(pool) && Contents() == EmptyPool
    {
      pool := new Byte[POOL_SIZE](_ => 0);
      headers, totalSize, records, starts := map[], 0, [], [0];
    }

    /** The search that both operations begin with: the first record of this name, or the end. */
    method Scan(name: string) returns (found: bool, position: nat, ghost i: nat)
      requires Valid()
      ensures i <= |records| && position == starts[i]
      ensures found <==> Has(records, name)
      ensures if found then i < |records| && records[i].api.name == name else i == |records|
    {
      position, i := 0, 0;
      while position < totalSize
        invariant i <= |records| && position == starts[i]
        invariant forall j | 0 <= j < i :: records[j].api.name != name
        decreases |records| - i
      {
        FoundRecord(pool[..], headers, starts, records, i);
        if headers[position].name == name {
          return true, position, i;
        }
        position := position + headers[position].alignedSize;
        i := i + 1;
      }
      found := false;
      if i < |records| { TiledMonotone(starts, records, i + 1, |records|); }
    }

    /** Add: a new name that fits is appended, anything else changes nothing; no byte in use changes. */
    method Add(a: Api) returns (status: AddStatus)
      requires Valid() && Sized(a)
      modifies this, pool
      ensures Valid() && status == StatusOf(old(Contents()), RecordOf(a)) && Contents() == After(old(Contents()), RecordOf(a))
      ensures status == AlreadyExists <==> exists i | 0 <= i < |old(records)| :: old(records)[i].api.name == a.name
      ensures status == Added <==> status != AlreadyExists && old(totalSize) + RoundUp(40 + |a.bytes|, 8) <= 4096
      ensures old(starts) <= starts && pool[..][..old(totalSize)] == old(pool[..])[..old(totalSize)]
      ensures status != Added ==> pool[..] == old(pool[..]) && headers == old(headers) && totalSize == old(totalSize)
    {
      ghost var i;
      var found, position;
      found, position, i := Scan(a.name);
      if found {
        return AlreadyExists;
      }
      var alignedSize := RecordSize(|a.bytes|);
      RecordPadded(a);
      if alignedSize + totalSize > POOL_SIZE {
        return BufferTooSmall;
      }
      Append(a, position, alignedSize);
      status := Added;
    }

    /** Write a record behind all others. */
    method Append(a: Api, position: nat, extent: nat)
      requires Valid() && Padded(Record(a, extent)) && !Has(records, a.name) && position == totalSize && position + extent <= POOL_SIZE
      modifies this, pool
      ensures Valid() && records == old(records) + [Record(a, extent)] && starts == old(starts) + [old(totalSize) + extent]
      ensures pool[..][..old(totalSize)] == old(pool[..])[..old(totalSize)]
    {
      ghost var before, r := pool[..], Record(a, extent);
      CopyInto(pool, position + DATA_OFFSET, a.bytes);
      HoldsMore(before, headers, position, starts, records, r, pool[..]);
      Account(a, position, extent, r);
    }

    /** Enter the header of a record whose bytes are in the pool. */
    method Account(a: Api, position: nat, extent: nat, ghost r: Record)
      requires pool.Length == POOL_SIZE && r == Record(a, extent) && HoldsAlso(pool[..], headers, position, starts, records, r)
      modifies this
      ensures Valid() && pool[..] == old(pool[..])
      ensures records == old(records) + [r] && starts == old(starts) + [position + extent]
    {
      headers := headers[position := Header(a.name, a.version, |a.bytes|, extent)];
      totalSize := position + extent;
      records, starts := records + [r], starts + [position + r.extent];
    }

    /** Get: the struct of the record with this name, if its version serves. */
    method Get(name: string, asked: Version) returns (r: Lookup)
      requires Valid()
      ensures LookupFits(starts, records, name, asked, r)
      ensures r.Found? ==> StructLies(pool[..], records, name, r.data)
    {
      var found, position;
      ghost var i;
      found, position, i := Scan(name);
      if !found {
        return DoesNotExist;
      }
      FoundRecord(pool[..], headers, starts, records, i);
      var header := headers[position];
      if header.version.major == asked.major && header.version.minor >= asked.minor {
        r := Found(position + DATA_OFFSET);
      } else {
        r := VersionMismatch;
      }
    }
  }
}
