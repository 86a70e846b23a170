/** The settings-blob query of the driver siphon: parameters from the tool
    (apis/tools/src/dd_settings.cpp) and the per-driver cache that answers them
    (modules/siphon/src/SiphonModuleConnectionContext.cpp). */
module Siphon {
  import opened Bytes
  import opened Bits
  import opened DynamicBuffers
  import opened SettingsBlobs
  import opened SettingsWriting

  type Path = seq<Byte>

  const DRIVER_TYPES: nat := 7
  const PARAMS_SIZE: nat := 7
  const MAX_DRIVER_PATH: nat := 4096

  /** What the library under a path does: it does not load, it lacks the export, or its export
      reports these bytes (none, if it reports size zero). */
  datatype Library = LoadFails | NoFunction | Blobs(bytes: seq<Byte>)

  /** The libraries on the machine, by C string. */
  type Libraries = Path -> Library

  /** Loading goes through c_str(), so only the part before the first NUL names the library. */
  function At(libs: Libraries, path: Path): Library {
    libs(CString(path))
  }

  datatype Status = Ok | InvalidParameter | NotLoaded | InterfaceNotFound | WriterFailed

  /** A query asks for the default path or for a given one. */
  datatype Wanted = Default | Explicit(path: Path)
  datatype Query = Query(kind: nat, reload: bool, wanted: Wanted)

  /** One element of m_settingsBlobs. */
  datatype Entry = Entry(defaultPath: Path, currentPath: Path, blob: seq<Byte>)

  datatype Reply = Refused(status: Status) | Carries(path: Path, blob: seq<Byte>)

  function Requested(e: Entry, q: Query): Path {
    if q.wanted.Default? then e.defaultPath else q.wanted.path
  }

  // ---- Parameters on the wire -----------------------------------------------------------------

  /** The packed parameter struct and the path. The struct counts a terminator that is not sent. */
  function EncodeParams(kind: nat, reload: bool, path: Path): (s: seq<Byte>)
    ensures |s| == PARAMS_SIZE + |path|
  {
    LittleEndian(kind, 4) + [if reload then 1 else 0] + LittleEndian(if path == [] then 0 else |path| + 1, 2) + path
  }

  /** The path that the server takes lies in the buffer. */
  predicate PathInside(params: seq<Byte>) {
    |params| >= PARAMS_SIZE ==> PARAMS_SIZE + Field(params, 5, 2) - 1 <= |params|
  }

  function DecodeParams(params: seq<Byte>): Query
    requires |params| >= PARAMS_SIZE && PathInside(params)
  {
    var size := Field(params, 5, 2);
    Query(Field(params, 0, 4), params[4] != 0, if size == 0 then Default else Explicit(params[PARAMS_SIZE..PARAMS_SIZE + size - 1]))
  }

  /** What a tool asks for; without a path the server takes its default. */
  function AskedQuery(kind: nat, reload: bool, path: Path): Query {
    Query(kind, reload, if path == [] then Default else Explicit(path))
  }

  /** Every query within the tool's path limit arrives as it was asked. */
  lemma ParamsRoundTrip(kind: nat, reload: bool, path: Path)
    requires kind < U32_LIMIT && |path| <= MAX_DRIVER_PATH
    ensures PathInside(EncodeParams(kind, reload, path))
    ensures DecodeParams(EncodeParams(kind, reload, path)) == AskedQuery(kind, reload, path)
  {
    var s := EncodeParams(kind, reload, path);
    var size := if path == [] then 0 else |path| + 1;
    assert s[0..4] == LittleEndian(kind, 4);
    assert s[5..7] == LittleEndian(size, 2);
    assert s[4] == if reload then 1 else 0;
    assert path != [] ==> s[PARAMS_SIZE..PARAMS_SIZE + size - 1] == path;
    assert Pow256(4) == U32_LIMIT && Pow256(2) == U16_LIMIT;
    LittleEndianRoundTrip(kind, 4);
    LittleEndianRoundTrip(size, 2);
  }

  /** The parameters byte by byte: four bytes of driver type, the flag, two bytes of path size with its
      terminator, the path. */
  lemma ParamsBytes(kind: nat, reload: bool, path: Path)
    requires kind < 256 && path != [] && |path| < 255
    ensures EncodeParams(kind, reload, path) == [kind, 0, 0, 0, if reload then 1 else 0, |path| + 1, 0] + path
  {
    SmallFields(kind);
    SmallFields(|path| + 1);
  }

  // ---- One query ------------------------------------------------------------------------------

  /** The answer of a server without a cache, which loads the requested library every time. */
  function Cacheless(libs: Libraries, path: Path): Reply {
    match At(libs, path)
    case LoadFails => Refused(NotLoaded)
    case NoFunction => Refused(InterfaceNotFound)
    case Blobs(bytes) => Carries(path, bytes)
  }

  predicate Reloads(e: Entry, q: Query) {
    q.reload || e.currentPath != Requested(e, q)
  }

  /** The entry behind a query, and the reply. */
  function Serve(e: Entry, q: Query, libs: Libraries): (Entry, Reply) {
    if !Reloads(e, q) then (e, Carries(e.currentPath, e.blob))
    else
      match Cacheless(libs, Requested(e, q))
      case Refused(status) => (e, Refused(status))
      case Carries(path, bytes) =>
        var blob := if bytes == [] then e.blob else bytes;
        (Entry(e.defaultPath, path, blob), Carries(path, blob))
  }

  /** The reply as written: path size with terminator, path, terminator, blobs or an empty table. */
  function ReplyBytes(path: Path, blob: seq<Byte>): (s: seq<Byte>) {
    LittleEndian(|path| + 1, 2) + (path + [0]) + if blob == [] then EmptyTable() else blob
  }

  /** A header of version 1 without blobs. */
  function EmptyTable(): (s: seq<Byte>)
    ensures |s| == HEADER_SIZE
  {
    HeaderBytes(0)
  }

  lemma EmptyTableBytes()
    ensures EmptyTable() == [1, 0, 0, 0, 0, 0, 0, 0]
  {
    SmallFields(1);
    SmallFields(0);
  }

  /** The reply byte by byte: two bytes of path size with its terminator, the path, the terminator, and
      the blobs or a table of version 1 without any. */
  lemma ReplyAsBytes(path: Path, blob: seq<Byte>)
    requires |path| < 255
    ensures ReplyBytes(path, blob) == [|path| + 1, 0] + path + [0] + if blob == [] then [1, 0, 0, 0, 0, 0, 0, 0] else blob
  {
    SmallFields(|path| + 1);
    EmptyTableBytes();
  }

  /** The paths fit the 16-bit size in front of them. */
  predicate ValidEntry(e: Entry) {
    |e.defaultPath| + 1 < U16_LIMIT && |e.currentPath| + 1 < U16_LIMIT
  }

  // ---- Many queries ---------------------------------------------------------------------------

  ghost predicate ValidQueries(qs: seq<Query>) {
    forall i | 0 <= i < |qs| :: qs[i].kind < DRIVER_TYPES
  }

  /** All entries behind a history of queries. */
  function After(entries: seq<Entry>, qs: seq<Query>, libs: Libraries): (r: seq<Entry>)
    requires |entries| == DRIVER_TYPES && ValidQueries(qs)
    ensures |r| == DRIVER_TYPES
  {
    if qs == [] then entries
    else
      var before := After(entries, qs[..|qs| - 1], libs);
      var q := qs[|qs| - 1];
      before[q.kind := Serve(before[q.kind], q, libs).0]
  }

  /** Path and blob belong together: nothing was loaded yet, or the library under the path reports
      exactly the blob or no blob of its own. */
  ghost predicate Paired(e: Entry, libs: Libraries) {
    || (e.currentPath == [] && e.blob == [])
    || (At(libs, e.currentPath).Blobs? && (At(libs, e.currentPath).bytes != [] ==> e.blob == At(libs, e.currentPath).bytes))
  }

  /** The reply to the i-th query of a history. */
  function ReplyAt(entries: seq<Entry>, qs: seq<Query>, libs: Libraries, i: nat): Reply
    requires |entries| == DRIVER_TYPES && ValidQueries(qs) && i < |qs|
  {
    Serve(After(entries, qs[..i], libs)[qs[i].kind], qs[i], libs).1
  }

  /** The i-th reply carried a blob of driver type k. */
  ghost predicate BlobAt(entries: seq<Entry>, qs: seq<Query>, libs: Libraries, k: nat, i: nat)
    requires |entries| == DRIVER_TYPES && ValidQueries(qs) && i < |qs|
  {
    qs[i].kind == k && CarriesBlob(ReplyAt(entries, qs, libs, i))
  }

  /** A caller has seen a blob of this driver type in an earlier reply. */
  ghost predicate SeenBlob(entries: seq<Entry>, qs: seq<Query>, libs: Libraries, k: nat)
    requires |entries| == DRIVER_TYPES && ValidQueries(qs)
  {
    exists i | 0 <= i < |qs| :: BlobAt(entries, qs, libs, k, i)
  }

  lemma BlobAtPrefix(entries: seq<Entry>, qs: seq<Query>, libs: Libraries, k: nat, n: nat, i: nat)
    requires |entries| == DRIVER_TYPES && ValidQueries(qs) && i < n <= |qs|
    ensures BlobAt(entries, qs[..n], libs, k, i) == BlobAt(entries, qs, libs, k, i)
  {
    assert qs[..n][..i] == qs[..i];
  }

  lemma SeenBlobStep(entries: seq<Entry>, qs: seq<Query>, libs: Libraries, k: nat, n: nat)
    requires |entries| == DRIVER_TYPES && ValidQueries(qs) && |qs| == n + 1
    ensures SeenBlob(entries, qs, libs, k) <==> (SeenBlob(entries, qs[..n], libs, k) || BlobAt(entries, qs, libs, k, n))
  {
    forall i | 0 <= i < n ensures BlobAt(entries, qs[..n], libs, k, i) == BlobAt(entries, qs, libs, k, i) {
      BlobAtPrefix(entries, qs, libs, k, n, i);
    }
  }

  predicate CarriesBlob(r: Reply) {
    match r case Refused(_) => false case Carries(_, blob) => blob != []
  }

  lemma ServeKeeps(e: Entry, q: Query, libs: Libraries)
    requires Paired(e, libs)
    ensures var (e', reply) := Serve(e, q, libs);
            && e'.defaultPath == e.defaultPath && Paired(e', libs)
            && (e'.blob != [] <==> e.blob != [] || CarriesBlob(reply))
            && e'.currentPath == (if reply.Carries? then reply.path else e.currentPath)
  {
  }

  /** The path of the last reply for driver type k that was not refused, or the one it began with. */
  function LastPath(entries: seq<Entry>, qs: seq<Query>, libs: Libraries, k: nat): Path
    requires |entries| == DRIVER_TYPES && ValidQueries(qs) && k < DRIVER_TYPES
  {
    if qs == [] then entries[k].currentPath
    else
      var n := |qs| - 1;
      var reply := ReplyAt(entries, qs, libs, n);
      if qs[n].kind == k && reply.Carries? then reply.path else LastPath(entries, qs[..n], libs, k)
  }

  /** What every history keeps: the default path, the path of the last reply, a blob that belongs to
      it, and a blob exactly when a reply has carried one. */
  lemma {:induction false} EntriesKept(entries: seq<Entry>, qs: seq<Query>, libs: Libraries, k: nat)
    requires |entries| == DRIVER_TYPES && ValidQueries(qs) && k < DRIVER_TYPES && Paired(entries[k], libs)
    ensures var e := After(entries, qs, libs)[k];
            && e.defaultPath == entries[k].defaultPath && Paired(e, libs)
            && e.currentPath == LastPath(entries, qs, libs, k)
            && (e.blob != [] <==> entries[k].blob != [] || SeenBlob(entries, qs, libs, k))
    decreases |qs|
  {
    if qs != [] {
      var n := |qs| - 1;
      EntriesKept(entries, qs[..n], libs, k);
      SeenBlobStep(entries, qs, libs, k, n);
      if qs[n].kind == k { ServeKeeps(After(entries, qs[..n], libs)[k], qs[n], libs); }
    }
  }

  /** A blob of this driver type is cached: from the beginning, or a reply has carried one. */
  ghost predicate Cached(entries: seq<Entry>, qs: seq<Query>, libs: Libraries, k: nat)
    requires |entries| == DRIVER_TYPES && ValidQueries(qs) && k < DRIVER_TYPES
  {
    entries[k].blob != [] || SeenBlob(entries, qs, libs, k)
  }

  /** No path is asked for, none is current, and no reload: nothing is loaded. */
  predicate Rests(entries: seq<Entry>, qs: seq<Query>, libs: Libraries, q: Query)
    requires |entries| == DRIVER_TYPES && ValidQueries(qs) && q.kind < DRIVER_TYPES
  {
    Requested(entries[q.kind], q) == [] && !q.reload && LastPath(entries, qs, libs, q.kind) == []
  }

  /** The cache refines a server without one. After any history, with libraries that do not change,
      every query gets what the cacheless server answers, with two exceptions. A library that reports
      no blobs, although one of this driver type is cached, gets the old blob under its own path. And
      where nothing is to be loaded, the answer is the cached blob or an empty table. */
  lemma CacheRefinesCacheless(entries: seq<Entry>, qs: seq<Query>, libs: Libraries, q: Query)
    requires |entries| == DRIVER_TYPES && ValidQueries(qs) && q.kind < DRIVER_TYPES && Paired(entries[q.kind], libs)
    ensures var (e', reply) := Serve(After(entries, qs, libs)[q.kind], q, libs);
            var path := Requested(entries[q.kind], q);
            var cached, rests := Cached(entries, qs, libs, q.kind), Rests(entries, qs, libs, q);
            && (reply == Cacheless(libs, path) <==>
                 if rests then (At(libs, path) == Blobs([]) <==> !cached) else !(At(libs, path) == Blobs([]) && cached))
            && (rests && !cached ==> reply == Carries([], []))
            && (reply.Carries? <==> rests || Cacheless(libs, path).Carries?) && (reply.Carries? ==> reply.path == path)
            && (reply.Refused? ==> e' == After(entries, qs, libs)[q.kind])
  {
    EntriesKept(entries, qs, libs, q.kind);
  }

  /** Where every library reports some blob, the cache is invisible, but for the empty table of a
      driver type that has no path and never loaded. */
  lemma CacheInvisible(entries: seq<Entry>, qs: seq<Query>, libs: Libraries, i: nat)
    requires |entries| == DRIVER_TYPES && ValidQueries(qs) && i < |qs| && Paired(entries[qs[i].kind], libs)
    requires forall p :: libs(p) != Blobs([])
    ensures ReplyAt(entries, qs, libs, i) ==
              if Rests(entries, qs[..i], libs, qs[i]) && !Cached(entries, qs[..i], libs, qs[i].kind) then Carries([], [])
              else Cacheless(libs, Requested(entries[qs[i].kind], qs[i]))
  {
    CacheRefinesCacheless(entries, qs[..i], libs, qs[i]);
  }

  // ---- Fresh and cached answers ---------------------------------------------------------------

  /** What a query loads: the library that the C string of the given or default path names. */
  ghost predicate Asks(e: Entry, q: Query, path: Path) {
    match q.wanted case Default => path == e.defaultPath case Explicit(p) => path == p
  }

  /** A query that reloads, or asks for another path than the current one, is answered from the library
      as it is now, for every entry, whatever it holds: a library that does not load or lacks the
      export refuses and changes nothing, any other gives its bytes, or the old ones if it has none. */
  lemma FreshAnswer(e: Entry, q: Query, libs: Libraries, path: Path)
    requires Asks(e, q, path) && (q.reload || e.currentPath != path)
    ensures match libs(CString(path))
            case LoadFails => Serve(e, q, libs) == (e, Refused(NotLoaded))
            case NoFunction => Serve(e, q, libs) == (e, Refused(InterfaceNotFound))
            case Blobs(bytes) =>
              var blob := if bytes == [] then e.blob else bytes;
              Serve(e, q, libs) == (Entry(e.defaultPath, path, blob), Carries(path, blob))
  {
  }

  /** Any other query is answered from the entry, whatever the libraries are now. */
  lemma CachedAnswer(e: Entry, q: Query, libs: Libraries, path: Path)
    requires Asks(e, q, path) && !q.reload && e.currentPath == path
    ensures Serve(e, q, libs) == (e, Carries(path, e.blob))
  {
  }

  /** All entries behind a history in which the libraries change from query to query. */
  function AfterChanges(entries: seq<Entry>, steps: seq<(Query, Libraries)>): (r: seq<Entry>)
    requires |entries| == DRIVER_TYPES && forall i | 0 <= i < |steps| :: steps[i].0.kind < DRIVER_TYPES
    ensures |r| == DRIVER_TYPES
  {
    if steps == [] then entries
    else
      var before := AfterChanges(entries, steps[..|steps| - 1]);
      var (q, libs) := steps[|steps| - 1];
      before[q.kind := Serve(before[q.kind], q, libs).0]
  }

  lemma {:induction false} DefaultsKept(entries: seq<Entry>, steps: seq<(Query, Libraries)>, k: nat)
    requires |entries| == DRIVER_TYPES && k < DRIVER_TYPES && forall i | 0 <= i < |steps| :: steps[i].0.kind < DRIVER_TYPES
    ensures AfterChanges(entries, steps)[k].defaultPath == entries[k].defaultPath
    decreases |steps|
  {
    if steps != [] { DefaultsKept(entries, steps[..|steps| - 1], k); }
  }

  /** So after any history of queries and changing libraries, a reload gives the bytes that the library
      reports now, if it reports any. */
  lemma ReloadGivesPresent(entries: seq<Entry>, steps: seq<(Query, Libraries)>, q: Query, libs: Libraries, path: Path, bytes: seq<Byte>)
    requires |entries| == DRIVER_TYPES && q.kind < DRIVER_TYPES && forall i | 0 <= i < |steps| :: steps[i].0.kind < DRIVER_TYPES
    requires q.reload && Asks(entries[q.kind], q, path) && libs(CString(path)) == Blobs(bytes) && bytes != []
    ensures Serve(AfterChanges(entries, steps)[q.kind], q, libs).1 == Carries(path, bytes)
  {
    DefaultsKept(entries, steps, q.kind);
    FreshAnswer(AfterChanges(entries, steps)[q.kind], q, libs, path);
  }

  /** An entry behind start-up, which loads every default path there is. */
  function StartUp(path: Path, libs: Libraries): Entry {
    if path != [] && At(libs, path).Blobs? then Entry(path, path, At(libs, path).bytes) else Entry(path, [], [])
  }

  /** The stale reply: behind start-up with a library that has a blob, one without gets that blob under
      its own path. */
  lemma ZeroSizeKeepsStaleBlob(a: Path, b: Path, bytes: seq<Byte>, libs: Libraries)
    requires a != [] && b != [] && bytes != [] && At(libs, a) == Blobs(bytes) && At(libs, b) == Blobs([])
    ensures var entries := seq(DRIVER_TYPES, _ => StartUp(a, libs));
            ReplyAt(entries, [Query(0, false, Explicit(b))], libs, 0) == Carries(b, bytes) && Cacheless(libs, b) == Carries(b, [])
  {
    var entries := seq(DRIVER_TYPES, _ => StartUp(a, libs));
    assert After(entries, [Query(0, false, Explicit(b))][..0], libs)[0] == Entry(a, a, bytes);
  }

  // ---- The module -----------------------------------------------------------------------------

  /** The buffer a reply goes to: new, without error. */
  ghost predicate Unused(out: DynamicBuffer)
    reads out, out.buf
  {
    out.Valid() && out.error == Success && out.size == 0 && out.capacity == 0
  }

  /** Announce the sum of three sizes and write the three parts. */
  method WriteParts(out: DynamicBuffer, a: seq<Byte>, b: seq<Byte>, c: seq<Byte>) returns (ok: bool)
    requires Unused(out) && a != []
    modifies out, out.buf
    ensures out.Valid() && (ok <==> out.grants(old(out.asks)))
    ensures ok ==> out.error == Success && out.contents == a + b + c && out.capacity == out.size
    ensures !ok ==> out.contents == []
  {
    ok := ByteWriterBegin(out, |a| + |b| + |c|);
    if ok { ok := ByteWriterWrite(out, a); }
    if ok { ok := ByteWriterWrite(out, b); }
    if ok { ok := ByteWriterWrite(out, c); }
  }

  /** WriteQuerySettingsBlobsAllResult: it succeeds exactly if the one request for the announced size is
      granted, and exactly that many bytes are written, so the receive buffer is full and can be
      handed over. */
  method WriteResult(out: DynamicBuffer, path: Path, blob: seq<Byte>) returns (status: Status)
    requires Unused(out) && |path| + 1 < U16_LIMIT
    modifies out, out.buf
    ensures out.Valid() && status == if out.grants(old(out.asks)) then Ok else WriterFailed
    ensures status == Ok ==> out.error == Success && out.contents == ReplyBytes(path, blob) && out.capacity == out.size
    ensures status != Ok ==> out.contents == []
  {
    var ok := WriteParts(out, LittleEndian(|path| + 1, 2), path + [0], if |blob| > 0 then blob else EmptyTable());
    status := if ok then Ok else WriterFailed;
  }

  class SiphonModule {
    var entries: seq<Entry>

    ghost predicate Valid()
      reads this
    {
      |entries| == DRIVER_TYPES && forall k | 0 <= k < DRIVER_TYPES :: ValidEntry(entries[k])
    }

    /** Start-up: the default paths that the environment gives are loaded, one driver type after the
        other (LoadSettingsBlobFromDefaultPath). */
    constructor (defaults: seq<Path>, libs: Libraries)
      requires |defaults| == DRIVER_TYPES && forall k | 0 <= k < DRIVER_TYPES :: |defaults[k]| + 1 < U16_LIMIT
      ensures Valid() && forall k | 0 <= k < DRIVER_TYPES :: entries[k] == StartUp(defaults[k], libs) && Paired(entries[k], libs)
    {
      entries := seq(DRIVER_TYPES, i requires 0 <= i < DRIVER_TYPES => Entry(defaults[i], [], []));
      new;
      for k := 0 to DRIVER_TYPES
        invariant |entries| == DRIVER_TYPES
        invariant forall i | 0 <= i < DRIVER_TYPES :: entries[i] == if i < k then StartUp(defaults[i], libs) else Entry(defaults[i], [], [])
      {
        if |entries[k].defaultPath| > 0 {
          var status := LoadSettingsBlobs(k, entries[k].defaultPath, libs);
          if status == Ok { entries := entries[k := entries[k].(currentPath := entries[k].defaultPath)]; }
        }
      }
    }

    /** LoadSettingsBlobs into the blob of one entry; a library that reports size zero leaves it. */
    method LoadSettingsBlobs(k: nat, path: Path, libs: Libraries) returns (status: Status)
      requires Valid() && k < DRIVER_TYPES
      modifies this
      ensures match Cacheless(libs, path)
              case Refused(s) => status == s && entries == old(entries)
              case Carries(_, bytes) =>
                && status == Ok
                && entries == old(entries)[k := old(entries)[k].(blob := if bytes == [] then old(entries)[k].blob else bytes)]
    {
      match At(libs, path)
      case LoadFails => status := NotLoaded;
      case NoFunction => status := InterfaceNotFound;
      case Blobs(bytes) =>
        status := Ok;
        if |bytes| > 0 {
          entries := entries[k := entries[k].(blob := bytes)];
        }
    }

    /** The part of a query that may reload the entry. */
    method Refresh(q: Query, libs: Libraries) returns (status: Status)
      requires Valid() && q.kind < DRIVER_TYPES
      modifies this
      ensures entries == old(entries)[q.kind := Serve(old(entries)[q.kind], q, libs).0]
      ensures match Serve(old(entries)[q.kind], q, libs).1
              case Refused(s) => status == s && status != Ok
              case Carries(path, blob) => status == Ok && entries[q.kind].currentPath == path && entries[q.kind].blob == blob
    {
      status := Ok;
      var k := q.kind;
      var path := match q.wanted case Default => entries[k].defaultPath case Explicit(p) => p;
      var reload := q.reload || entries[k].currentPath != path;
      if reload {
        status := LoadSettingsBlobs(k, path, libs);
        if status == Ok && path != entries[k].currentPath {
          entries := entries[k := entries[k].(currentPath := path)];
        }
      }
    }

    /** WriteQuerySettingsBlobsAllResultWithReload. */
    method QueryWithReload(q: Query, libs: Libraries, out: DynamicBuffer) returns (status: Status)
      requires Valid() && q.kind < DRIVER_TYPES && Unused(out)
      requires q.wanted.Explicit? ==> |q.wanted.path| + 1 < U16_LIMIT
      modifies this, out, out.buf
      ensures Valid() && out.Valid()
      ensures entries == old(entries)[q.kind := Serve(old(entries)[q.kind], q, libs).0]
      ensures match Serve(old(entries)[q.kind], q, libs).1
              case Refused(s) => status == s && out.contents == []
              case Carries(path, blob) =>
                && status == (if out.grants(old(out.asks)) then Ok else WriterFailed)
                && (status == Ok ==> out.error == Success && out.contents == ReplyBytes(path, blob) && out.capacity == out.size)
    {
      status := Refresh(q, libs);
      if status == Ok {
        status := WriteResult(out, entries[q.kind].currentPath, entries[q.kind].blob);
      }
    }

    /** QuerySettingsBlobsAll: short buffers and unknown driver types are refused and change nothing,
        every other query is served. */
    method QuerySettingsBlobsAll(params: seq<Byte>, libs: Libraries, out: DynamicBuffer) returns (status: Status)
      requires Valid() && Unused(out) && PathInside(params)
      modifies this, out, out.buf
      ensures Valid() && out.Valid()
      ensures status == InvalidParameter <==> |params| < PARAMS_SIZE || DecodeParams(params).kind >= DRIVER_TYPES
      ensures status == InvalidParameter ==> entries == old(entries) && out.contents == []
      ensures status != InvalidParameter ==>
                var q := DecodeParams(params);
                entries == old(entries)[q.kind := Serve(old(entries)[q.kind], q, libs).0]
      ensures status != InvalidParameter ==>
                match Serve(old(entries)[DecodeParams(params).kind], DecodeParams(params), libs).1
                case Refused(s) => status == s
                case Carries(path, blob) => status == if out.grants(old(out.asks)) then Ok else WriterFailed
      ensures status == Ok ==>
                var reply := Serve(old(entries)[DecodeParams(params).kind], DecodeParams(params), libs).1;
                reply.Carries? && out.error == Success && out.contents == ReplyBytes(reply.path, reply.blob) && out.capacity == out.size
    {
      if |params| < PARAMS_SIZE {
        return InvalidParameter;
      }
      var q := DecodeParams(params);
      if q.kind >= DRIVER_TYPES {
        return InvalidParameter;
      }
      FieldBelowU16(params, 5);
      status := QueryWithReload(q, libs, out);
    }
  }

  lemma FieldBelowU16(s: seq<Byte>, at: nat)
    requires at + 2 <= |s|
    ensures Field(s, at, 2) < U16_LIMIT
  {
    FromLittleEndianBound(s[at..at + 2]);
    assert Pow256(2) == U16_LIMIT;
  }

  // ---- From the driver's nodes to the tool's parser -------------------------------------------

  /** The bytes that an export gives: these nodes packed end to end, none of them empty. */
  ghost predicate Exports(bytes: seq<Byte>, starts: seq<nat>, ns: seq<Node>) {
    && Spaced(starts, ns) && starts[|ns|] == |bytes| && Packed(bytes, 0, starts, ns, |ns|)
    && forall i | 0 <= i < |ns| :: ns[i].blob != []
  }

  /** The driver's export called twice, as the loader does: once for the size, once for the bytes.
      It never reports size zero, and all blobs are packed. */
  method ExportBlobs(nodes: seq<Node>) returns (bytes: seq<Byte>)
    requires Packable(nodes)
    ensures bytes != []
    ensures Exports(bytes, Starts(NonEmpty(nodes)), NonEmpty(nodes))
  {
    var size := GetAllSettingsBlobs(nodes, null);
    var buffer := new Byte[size](_ => 0);
    ghost var was := buffer[..];
    size := GetAllSettingsBlobs(nodes, buffer);
    bytes := buffer[..];
    ExportedAll(nodes, bytes, was);
  }

  /** A buffer of the required size is filled with everything. */
  lemma FilledExports(bytes: seq<Byte>, was: seq<Byte>, starts: seq<nat>, ns: seq<Node>)
    requires Spaced(starts, ns) && Filled(bytes, was, starts, ns) && |bytes| == starts[|ns|]
    requires forall i | 0 <= i < |ns| :: ns[i].blob != []
    ensures bytes != [] && Exports(bytes, starts, ns)
  {
    SpacedMonotone(starts, ns, 0, |ns|);
    FullSizeHoldsAll(starts, ns, |bytes|, |ns|);
  }

  lemma ExportedAll(nodes: seq<Node>, bytes: seq<Byte>, was: seq<Byte>)
    requires Packable(nodes) && |bytes| == Starts(NonEmpty(nodes))[|NonEmpty(nodes)|]
    requires Filled(bytes, was, Starts(NonEmpty(nodes)), NonEmpty(nodes))
    ensures bytes != [] && Exports(bytes, Starts(NonEmpty(nodes)), NonEmpty(nodes))
  {
    NonEmptyMembers(nodes);
    StartsSpaced(NonEmpty(nodes));
    FilledExports(bytes, was, Starts(NonEmpty(nodes)), NonEmpty(nodes));
  }

  lemma ThreeParts(a: seq<Byte>, b: seq<Byte>, c: seq<Byte>)
    ensures (a + b + c)[0..|a|] == a && (a + b + c)[|a| + |b|..|a| + |b| + |c|] == c
  {
  }

  lemma ReplyLayout(path: Path, bytes: seq<Byte>)
    requires bytes != [] && |path| + 1 < U16_LIMIT
    ensures var s, base := ReplyBytes(path, bytes), |path| + 3;
            |s| == base + |bytes| && s[base..base + |bytes|] == bytes && Field(s, 0, 2) + 2 == base
  {
    ThreeParts(LittleEndian(|path| + 1, 2), path + [0], bytes);
    assert Pow256(2) == U16_LIMIT;
    LittleEndianRoundTrip(|path| + 1, 2);
  }

  /** Packed blobs stay packed behind anything. */
  lemma PackedBehind(s: seq<Byte>, base: nat, bytes: seq<Byte>, starts: seq<nat>, ns: seq<Node>)
    requires Spaced(starts, ns) && Packed(bytes, 0, starts, ns, |ns|) && starts[|ns|] == |bytes|
    requires |s| == base + |bytes| && s[base..base + |bytes|] == bytes
    ensures Packed(s, base, starts, ns, |ns|)
  {
    SubSlice(s, base, base + |bytes|, bytes, 0, 4);
    SubSlice(s, base, base + |bytes|, bytes, 4, 8);
    SpacedMonotone(starts, ns, 0, |ns|);
    SubSlice(s, base, base + |bytes|, bytes, HEADER_SIZE, |bytes|);
    BlobsLieMoved(bytes, s, starts, ns, |ns|, base);
  }

  /** So also behind the path of a reply, where the parser looks for them. */
  lemma ReplyIsPacked(path: Path, bytes: seq<Byte>, starts: seq<nat>, ns: seq<Node>)
    requires Spaced(starts, ns) && Packed(bytes, 0, starts, ns, |ns|) && starts[|ns|] == |bytes| && |path| + 1 < U16_LIMIT
    ensures var s := ReplyBytes(path, bytes);
            |s| >= 2 && Field(s, 0, 2) + 2 == |path| + 3 && Packed(s, |path| + 3, starts, ns, |ns|)
  {
    ReplyLayout(path, bytes);
    PackedBehind(ReplyBytes(path, bytes), |path| + 3, bytes, starts, ns);
  }

  /** QuerySettingsBlobsAll_Wrapper: the tool's side of a query, with the allocator of its receive buffer.
      The reply fills the reserved memory, so the memory itself is handed to the caller: whether a copy
      would be granted does not matter, and no reply is lost silently. */
  method Ask(siphon: SiphonModule, kind: nat, reload: bool, path: Path, libs: Libraries, grants: Allocator, copyGranted: bool)
    returns (status: Status, reply: seq<Byte>)
    requires siphon.Valid() && kind < U32_LIMIT
    modifies siphon
    ensures siphon.Valid()
    ensures status == InvalidParameter <==> |path| > MAX_DRIVER_PATH || kind >= DRIVER_TYPES
    ensures status == InvalidParameter ==> siphon.entries == old(siphon.entries)
    ensures status != InvalidParameter ==>
              var (e', answer) := Serve(old(siphon.entries)[kind], AskedQuery(kind, reload, path), libs);
              && siphon.entries == old(siphon.entries)[kind := e']
              && status == (if answer.Refused? then answer.status else if grants(0) then Ok else WriterFailed)
              && (status == Ok ==> reply == ReplyBytes(answer.path, answer.blob))
  {
    reply := [];
    if |path| > MAX_DRIVER_PATH {
      return InvalidParameter, reply;
    }
    var out := new DynamicBuffer(grants);
    ParamsRoundTrip(kind, reload, path);
    status := siphon.QuerySettingsBlobsAll(EncodeParams(kind, reload, path), libs, out);
    if status == Ok { reply := Receive(out, copyGranted); }
  }

  /** What the caller of a wrapper gets from a full receive buffer. */
  method Receive(out: DynamicBuffer, copyGranted: bool) returns (reply: seq<Byte>)
    requires out.Valid() && out.error == Success && out.capacity == out.size
    modifies out
    ensures reply == old(out.contents)
  {
    var memory, size := out.HandOver(copyGranted);
    reply := if memory == null then [] else memory[..size];
  }

  /** The whole way: a tool that asks for a path, or for the default one, whose driver exports these
      nodes parses exactly their payloads, in order. It fails exactly if the memory for the reply is
      refused. A driver type that has no path and never loaded gives an empty table. */
  method QueryAndParse(siphon: SiphonModule, kind: nat, reload: bool, path: Path, libs: Libraries, grants: Allocator, copyGranted: bool,
                       ghost starts: seq<nat>, ghost ns: seq<Node>)
    returns (status: Status, found: bool, payloads: seq<seq<Byte>>)
    requires siphon.Valid() && kind < DRIVER_TYPES && Paired(siphon.entries[kind], libs)
    requires var lib := At(libs, Requested(siphon.entries[kind], AskedQuery(kind, reload, path)));
             lib.Blobs? && Exports(lib.bytes, starts, ns)
    modifies siphon
    ensures status == if |path| > MAX_DRIVER_PATH then InvalidParameter else if grants(0) then Ok else WriterFailed
    ensures status == Ok ==>
              var shown := if NothingLoaded(old(siphon.entries)[kind], AskedQuery(kind, reload, path)) then [] else ns;
              payloads == Payloads(shown) && (found <==> shown != [])
  {
    found, payloads := false, [];
    ghost var e, q := siphon.entries[kind], AskedQuery(kind, reload, path);
    ghost var bytes, starts', shown := AnswerExports(e, q, libs, starts, ns);
    var reply;
    status, reply := Ask(siphon, kind, reload, path, libs, grants, copyGranted);
    if status == Ok { found, payloads := ParseReply(reply, Requested(e, q), bytes, starts', shown); }
  }

  /** The reply to such a query is an export behind the requested path. */
  lemma AnswerExports(e: Entry, q: Query, libs: Libraries, starts: seq<nat>, ns: seq<Node>) returns (bytes: seq<Byte>, starts': seq<nat>, shown: seq<Node>)
    requires Paired(e, libs) && At(libs, Requested(e, q)).Blobs? && Exports(At(libs, Requested(e, q)).bytes, starts, ns)
    ensures var answer := Serve(e, q, libs).1;
            answer.Carries? && answer.path == Requested(e, q) && ReplyBytes(answer.path, answer.blob) == ReplyBytes(answer.path, bytes)
    ensures Exports(bytes, starts', shown) && shown == if NothingLoaded(e, q) then [] else ns
  {
    assert At(libs, Requested(e, q)).bytes != [];
    if NothingLoaded(e, q) {
      EmptyTableExports(Requested(e, q));
      bytes, starts', shown := EmptyTable(), [HEADER_SIZE], [];
    } else {
      bytes, starts', shown := At(libs, Requested(e, q)).bytes, starts, ns;
    }
  }

  /** No path is asked for, nothing was loaded yet, and no reload. */
  predicate NothingLoaded(e: Entry, q: Query) {
    Requested(e, q) == [] && !q.reload && e.currentPath == [] && e.blob == []
  }

  /** The empty table is what a driver without blobs would export. */
  lemma EmptyTableExports(path: Path)
    ensures Exports(EmptyTable(), [HEADER_SIZE], [])
    ensures ReplyBytes(path, EmptyTable()) == ReplyBytes(path, [])
  {
    var t := EmptyTable();
    assert t[0..4] == LittleEndian(1, 4) && t[4..8] == LittleEndian(0, 4);
    assert Pow256(4) == U32_LIMIT;
    LittleEndianRoundTrip(1, 4);
    LittleEndianRoundTrip(0, 4);
  }

  /** The tool's parser on a reply. */
  method ParseReply(reply: seq<Byte>, ghost path: Path, ghost bytes: seq<Byte>, ghost starts: seq<nat>, ghost ns: seq<Node>)
    returns (found: bool, payloads: seq<seq<Byte>>)
    requires |path| + 1 < U16_LIMIT && Exports(bytes, starts, ns) && reply == ReplyBytes(path, bytes)
    ensures payloads == Payloads(ns) && (found <==> ns != [])
  {
    ReplyIsPacked(path, bytes, starts, ns);
    found, payloads := ParseSettingsBlobs(reply, false, |path| + 3, starts, ns);
  }
}
