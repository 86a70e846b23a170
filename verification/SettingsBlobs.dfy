/** The packing of settings blobs into one buffer (apis/settings/src/dd_settings_blob.cpp) and the walk
    that reads them back (apis/settings/src/dd_settings_utils.cpp). */
module SettingsBlobs {
  import opened Bytes
  import opened Bits

  const HEADER_SIZE: nat := 8
  const BLOB_OFFSET: nat := 24

  /** A settings blob node, as its virtual functions report it. */
  datatype Node = Node(blob: seq<Byte>, encoded: bool, magicOffset: nat, hash: nat)

  ghost predicate ValidNode(n: Node) {
    BLOB_OFFSET + |n.blob| + 7 < U32_LIMIT && n.magicOffset < U32_LIMIT && n.hash < U64_LIMIT
  }

  /** CalcSettingsBlobSizeAligned: the offset behind the blob, rounded up to 8 by a 32-bit mask. */
  function AlignedSize(blobSize: nat): nat {
    And((BLOB_OFFSET + blobSize + 7) % U32_LIMIT, Not32(7))
  }

  /** It is the least multiple of 8 that holds header and blob, exactly while that does not wrap. */
  lemma AlignedSizeExact(blobSize: nat)
    ensures AlignedSize(blobSize) == RoundUp(BLOB_OFFSET + blobSize, 8) <==> BLOB_OFFSET + blobSize + 7 < U32_LIMIT
  {
    var v := BLOB_OFFSET + blobSize + 7;
    FloorToEight(v % U32_LIMIT);
    SmallIsItself(v);
  }

  lemma SmallIsItself(v: nat)
    ensures v < U32_LIMIT ==> v % U32_LIMIT == v
  {
  }

  function NonEmpty(nodes: seq<Node>): seq<Node> {
    if nodes == [] then []
    else
      var rest := NonEmpty(nodes[..|nodes| - 1]);
      var last := nodes[|nodes| - 1];
      if last.blob == [] then rest else rest + [last]
  }

  lemma {:induction false} NonEmptyMembers(nodes: seq<Node>)
    ensures forall n :: n in NonEmpty(nodes) <==> n in nodes && n.blob != []
  {
    if nodes != [] {
      var k := |nodes| - 1;
      NonEmptyMembers(nodes[..k]);
      assert nodes == nodes[..k] + [nodes[k]];
    }
  }

  lemma {:induction false} NonEmptyPrefix(nodes: seq<Node>, i: nat)
    requires i <= |nodes|
    ensures NonEmpty(nodes[..i]) <= NonEmpty(nodes)
    decreases |nodes| - i
  {
    if i == |nodes| {
      assert nodes[..i] == nodes;
    } else {
      NonEmptyPrefix(nodes, i + 1);
      NonEmptyStep(nodes, i);
    }
  }

  lemma NonEmptyStep(nodes: seq<Node>, i: nat)
    requires i < |nodes|
    ensures NonEmpty(nodes[..i + 1]) == NonEmpty(nodes[..i]) + if nodes[i].blob == [] then [] else [nodes[i]]
  {
    assert nodes[..i + 1][..i] == nodes[..i];
  }

  /** The m-th non-empty node is the next non-empty one. */
  lemma NextNonEmpty(nodes: seq<Node>, ns: seq<Node>, i: nat, m: nat)
    requires i < |nodes| && ns == NonEmpty(nodes) && m == |NonEmpty(nodes[..i])|
    ensures nodes[i].blob == [] ==> |NonEmpty(nodes[..i + 1])| == m
    ensures nodes[i].blob != [] ==> |NonEmpty(nodes[..i + 1])| == m + 1 <= |ns| && ns[m] == nodes[i]
  {
    NonEmptyStep(nodes, i);
    NonEmptyPrefix(nodes, i + 1);
  }

  // ---- Starts and fit -------------------------------------------------------------------------

  /** Where the i-th blob starts; the last entry is the size required for all. */
  function Starts(ns: seq<Node>): (starts: seq<nat>)
    ensures |starts| == |ns| + 1
  {
    if ns == [] then [HEADER_SIZE]
    else
      var before := Starts(ns[..|ns| - 1]);
      before + [before[|ns| - 1] + AlignedSize(|ns[|ns| - 1].blob|)]
  }

  /** Starts ascend from behind the header, with room for each blob. */
  ghost predicate Spaced(starts: seq<nat>, ns: seq<Node>) {
    && |starts| == |ns| + 1 && starts[0] == HEADER_SIZE
    && forall i | 0 <= i < |ns| :: starts[i] + BLOB_OFFSET + |ns[i].blob| <= starts[i + 1]
  }

  /** Each start is one aligned blob behind the one before it. */
  ghost predicate Stepping(starts: seq<nat>, ns: seq<Node>) {
    |starts| == |ns| + 1 && forall i | 0 <= i < |ns| :: starts[i + 1] == starts[i] + AlignedSize(|ns[i].blob|)
  }

  lemma {:induction false} StartsSpaced(ns: seq<Node>)
    requires forall i | 0 <= i < |ns| :: ValidNode(ns[i])
    ensures Spaced(Starts(ns), ns) && Stepping(Starts(ns), ns)
  {
    if ns != [] {
      var k := |ns| - 1;
      StartsSpaced(ns[..k]);
      AlignedSizeExact(|ns[k].blob|);
      forall i | 0 <= i < |ns|
        ensures Starts(ns)[i + 1] == Starts(ns)[i] + AlignedSize(|ns[i].blob|)
        ensures Starts(ns)[i] + BLOB_OFFSET + |ns[i].blob| <= Starts(ns)[i + 1]
      {
        if i < k { assert ns[..k][i] == ns[i]; }
      }
    }
  }

  lemma {:induction false} SpacedMonotone(starts: seq<nat>, ns: seq<Node>, i: nat, j: nat)
    requires Spaced(starts, ns) && i <= j <= |ns|
    ensures HEADER_SIZE <= starts[i] <= starts[j]
    decreases j
  {
    if i < j { SpacedMonotone(starts, ns, i, j - 1); } else if i > 0 { SpacedMonotone(starts, ns, i - 1, j - 1); }
  }

  /** How many of the first i blobs are written to a buffer: the count after the last that fits. */
  function FitCount(starts: seq<nat>, size: nat, i: nat): (k: nat)
    requires i < |starts|
    ensures k <= i
  {
    if i == 0 then 0 else if starts[i] <= size then FitCount(starts, size, i - 1) + 1 else FitCount(starts, size, i - 1)
  }

  /** It is the length of the longest prefix that fits: the end of that prefix is inside the buffer
      and the next blob's end is not. */
  lemma {:induction false} FitCountExact(starts: seq<nat>, ns: seq<Node>, size: nat, i: nat)
    requires Spaced(starts, ns) && i <= |ns|
    ensures var k := FitCount(starts, size, i);
            (k > 0 ==> starts[k] <= size) && (k < i ==> size < starts[k + 1])
    decreases i
  {
    if i > 0 {
      FitCountExact(starts, ns, size, i - 1);
      var k := FitCount(starts, size, i - 1);
      if k < i - 1 { SpacedMonotone(starts, ns, k + 1, i); }
    }
  }

  /** A buffer of the size that the packer reports holds every blob. */
  lemma {:induction false} FullSizeHoldsAll(starts: seq<nat>, ns: seq<Node>, size: nat, i: nat)
    requires Spaced(starts, ns) && i <= |ns| && starts[|ns|] <= size
    ensures FitCount(starts, size, i) == i
    decreases i
  {
    if i > 0 {
      FullSizeHoldsAll(starts, ns, size, i - 1);
      SpacedMonotone(starts, ns, i, |ns|);
    }
  }

  // ---- Blobs in a buffer ----------------------------------------------------------------------

  /** A blob lies at a position: all header fields, a size field that leads to `next`, the payload. */
  ghost predicate BlobLies(buf: seq<Byte>, at: nat, next: nat, n: Node) {
    && at + BLOB_OFFSET + |n.blob| <= next <= |buf|
    && Field(buf, at, 4) == next - at && Field(buf, at + 4, 4) == |n.blob|
    && buf[at + 8] == (if n.encoded then 1 else 0)
    && Field(buf, at + 12, 4) == n.magicOffset && Field(buf, at + 16, 8) == n.hash
    && buf[at + BLOB_OFFSET..at + BLOB_OFFSET + |n.blob|] == n.blob
  }

  /** A blob whose range is the same in another buffer lies there too. */
  lemma BlobLiesFrame(a: seq<Byte>, at: nat, next: nat, b: seq<Byte>, to: nat, n: Node)
    requires BlobLies(a, at, next, n) && to + (next - at) <= |b|
    requires b[to..to + (next - at)] == a[at..next]
    ensures BlobLies(b, to, to + (next - at), n)
  {
    var part := a[at..next];
    SamePart(a, b, at, to, part, 0, 4);
    SamePart(a, b, at, to, part, 4, 8);
    SamePart(a, b, at, to, part, 12, 16);
    SamePart(a, b, at, to, part, 16, 24);
    SamePart(a, b, at, to, part, BLOB_OFFSET, BLOB_OFFSET + |n.blob|);
    assert part[8] == a[at + 8] && part[8] == b[to + 8];
  }

  lemma SamePart(a: seq<Byte>, b: seq<Byte>, at: nat, to: nat, part: seq<Byte>, i: nat, j: nat)
    requires at + |part| <= |a| && to + |part| <= |b| && i <= j <= |part|
    requires a[at..at + |part|] == part && b[to..to + |part|] == part
    ensures a[at + i..at + j] == b[to + i..to + j]
  {
    SubSlice(a, at, at + |part|, part, i, j);
    SubSlice(b, to, to + |part|, part, i, j);
  }

  /** The bytes of a blob header up to the padding, and those behind it with the payload. */
  function BlobFront(n: Node, extent: nat): (s: seq<Byte>)
    ensures |s| == 9
  {
    LittleEndian(extent, 4) + LittleEndian(|n.blob|, 4) + [if n.encoded then 1 else 0]
  }

  function BlobRest(n: Node): (s: seq<Byte>)
    ensures |s| == 12 + |n.blob|
  {
    LittleEndian(n.magicOffset, 4) + LittleEndian(n.hash, 8) + n.blob
  }

  lemma BlobWritten(buf: seq<Byte>, at: nat, extent: nat, n: Node)
    requires ValidNode(n) && BLOB_OFFSET + |n.blob| <= extent < U32_LIMIT && at + extent <= |buf|
    requires buf[at..at + 9] == BlobFront(n, extent)
    requires buf[at + 12..at + BLOB_OFFSET + |n.blob|] == BlobRest(n)
    ensures BlobLies(buf, at, at + extent, n)
  {
    var f, r := BlobFront(n, extent), BlobRest(n);
    assert Pow256(4) == U32_LIMIT && Pow256(8) == U64_LIMIT;
    assert f[0..4] == LittleEndian(extent, 4) && f[4..8] == LittleEndian(|n.blob|, 4);
    assert r[0..4] == LittleEndian(n.magicOffset, 4) && r[4..12] == LittleEndian(n.hash, 8) && r[12..|r|] == n.blob;
    SubSlice(buf, at, at + 9, f, 0, 4);
    SubSlice(buf, at, at + 9, f, 4, 8);
    assert f[8] == buf[at + 8];
    SubSlice(buf, at + 12, at + 12 + |r|, r, 0, 4);
    SubSlice(buf, at + 12, at + 12 + |r|, r, 4, 12);
    SubSlice(buf, at + 12, at + 12 + |r|, r, 12, |r|);
    LittleEndianRoundTrip(extent, 4);
    LittleEndianRoundTrip(|n.blob|, 4);
    LittleEndianRoundTrip(n.magicOffset, 4);
    LittleEndianRoundTrip(n.hash, 8);
  }

  lemma TwoWrites(a: seq<Byte>, b: seq<Byte>, c: seq<Byte>, at: nat, front: seq<Byte>, rest: seq<Byte>, end: nat)
    requires |front| == 9 && at + 12 + |rest| <= end <= |a|
    requires b == Written(a, at, front) && c == Written(b, at + 12, rest)
    ensures |c| == |a| && c[..at] == a[..at] && c[end..] == a[end..]
    ensures c[at..at + 9] == front && c[at + 12..at + 12 + |rest|] == rest
  {
  }

  /** Write one blob in place; only its own range changes. */
  method WriteBlob(buffer: array<Byte>, at: nat, extent: nat, n: Node)
    requires ValidNode(n) && BLOB_OFFSET + |n.blob| <= extent < U32_LIMIT && at + extent <= buffer.Length
    modifies buffer
    ensures BlobLies(buffer[..], at, at + extent, n)
    ensures buffer[..at] == old(buffer[..at]) && buffer[at + extent..] == old(buffer[at + extent..])
  {
    ghost var before := buffer[..];
    CopyInto(buffer, at, BlobFront(n, extent));
    ghost var middle := buffer[..];
    CopyInto(buffer, at + 12, BlobRest(n));
    TwoWrites(before, middle, buffer[..], at, BlobFront(n, extent), BlobRest(n), at + extent);
    BlobWritten(buffer[..], at, extent, n);
  }

  /** The first k blobs lie at their starts, counted from the base. */
  ghost predicate BlobsLie(buf: seq<Byte>, base: nat, starts: seq<nat>, ns: seq<Node>, k: nat)
    requires k <= |ns| && |starts| == |ns| + 1
  {
    forall i | 0 <= i < k :: BlobLies(buf, base + starts[i], base + starts[i + 1], ns[i])
  }

  lemma BlobLiesMoved(a: seq<Byte>, b: seq<Byte>, starts: seq<nat>, ns: seq<Node>, k: nat, base: nat, i: nat)
    requires Spaced(starts, ns) && i < k <= |ns| && BlobLies(a, starts[i], starts[i + 1], ns[i])
    requires starts[k] <= |a| && base + starts[k] <= |b| && HEADER_SIZE <= starts[k]
    requires b[base + HEADER_SIZE..base + starts[k]] == a[HEADER_SIZE..starts[k]]
    ensures BlobLies(b, base + starts[i], base + starts[i + 1], ns[i])
  {
    SpacedMonotone(starts, ns, i, i + 1);
    SpacedMonotone(starts, ns, i + 1, k);
    SamePart(a, b, HEADER_SIZE, base + HEADER_SIZE, a[HEADER_SIZE..starts[k]], starts[i] - HEADER_SIZE, starts[i + 1] - HEADER_SIZE);
    BlobLiesFrame(a, starts[i], starts[i + 1], b, base + starts[i], ns[i]);
  }

  /** Blobs stay, also behind a prefix, while the stretch they fill is the same. */
  lemma BlobsLieMoved(a: seq<Byte>, b: seq<Byte>, starts: seq<nat>, ns: seq<Node>, k: nat, base: nat)
    requires Spaced(starts, ns) && k <= |ns| && BlobsLie(a, 0, starts, ns, k)
    requires HEADER_SIZE <= starts[k] && (k > 0 ==> starts[k] <= |a| && base + starts[k] <= |b|)
    requires k > 0 ==> b[base + HEADER_SIZE..base + starts[k]] == a[HEADER_SIZE..starts[k]]
    ensures BlobsLie(b, base, starts, ns, k)
  {
    forall i | 0 <= i < k ensures BlobLies(b, base + starts[i], base + starts[i + 1], ns[i]) {
      assert BlobLies(a, 0 + starts[i], 0 + starts[i + 1], ns[i]);
      BlobLiesMoved(a, b, starts, ns, k, base, i);
    }
  }

  /** Writing the next blob behind the first m keeps those. */
  lemma BlobsExtend(a: seq<Byte>, b: seq<Byte>, starts: seq<nat>, ns: seq<Node>, m: nat)
    requires Spaced(starts, ns) && m < |ns| && BlobsLie(a, 0, starts, ns, m)
    requires starts[m] <= |a| && starts[m] <= |b| && b[..starts[m]] == a[..starts[m]]
    requires BlobLies(b, starts[m], starts[m + 1], ns[m])
    ensures BlobsLie(b, 0, starts, ns, m + 1)
  {
    SpacedMonotone(starts, ns, 0, m);
    SubSlice(b, 0, starts[m], a[..starts[m]], HEADER_SIZE, starts[m]);
    SubSlice(a, 0, starts[m], a[..starts[m]], HEADER_SIZE, starts[m]);
    BlobsLieMoved(a, b, starts, ns, m, 0);
  }

  // ---- The packer -----------------------------------------------------------------------------

  /** After m non-empty nodes: those that fit lie in the buffer, and behind them it is as it was. */
  ghost predicate PackedSoFar(buf: seq<Byte>, original: seq<Byte>, starts: seq<nat>, ns: seq<Node>, m: nat, count: nat)
    requires m <= |ns| && |starts| == |ns| + 1
  {
    && |buf| == |original| && count == FitCount(starts, |buf|, m)
    && BlobsLie(buf, 0, starts, ns, count)
    && (starts[count] <= |buf| ==> buf[starts[count]..] == original[starts[count]..])
    && (count == 0 ==> buf == original)
  }

  lemma PackedStep(original: seq<Byte>, a: seq<Byte>, b: seq<Byte>, starts: seq<nat>, ns: seq<Node>, m: nat, count: nat)
    requires Spaced(starts, ns) && m < |ns| && PackedSoFar(a, original, starts, ns, m, count)
    requires |b| == |a| && starts[m] <= starts[m + 1] <= |a|
    requires b[..starts[m]] == a[..starts[m]] && b[starts[m + 1]..] == a[starts[m + 1]..]
    requires BlobLies(b, starts[m], starts[m + 1], ns[m])
    ensures PackedSoFar(b, original, starts, ns, m + 1, count + 1)
  {
    FitCountExact(starts, ns, |a|, m);
    if count < m { SpacedMonotone(starts, ns, count + 1, m); }
    BlobsExtend(a, b, starts, ns, m);
    var skip := starts[m + 1] - starts[m];
    assert a[starts[m]..][skip..] == a[starts[m + 1]..] && original[starts[m]..][skip..] == original[starts[m + 1]..];
  }

  lemma PackedSkip(original: seq<Byte>, a: seq<Byte>, starts: seq<nat>, ns: seq<Node>, m: nat, count: nat)
    requires Spaced(starts, ns) && m < |ns| && PackedSoFar(a, original, starts, ns, m, count) && |a| < starts[m + 1]
    ensures PackedSoFar(a, original, starts, ns, m + 1, count)
  {
  }

  /** One non-empty node of the packing loop: it is written if it ends inside the buffer. */
  method PackOne(buffer: array<Byte>, n: Node, position: nat, extent: nat, count: nat,
                 ghost original: seq<Byte>, ghost starts: seq<nat>, ghost ns: seq<Node>, ghost m: nat)
    returns (count': nat)
    requires Spaced(starts, ns) && m < |ns| && ns[m] == n && ValidNode(n)
    requires position == starts[m] && position + extent == starts[m + 1] && extent < U32_LIMIT
    requires PackedSoFar(buffer[..], original, starts, ns, m, count)
    modifies buffer
    ensures PackedSoFar(buffer[..], original, starts, ns, m + 1, count')
  {
    count' := count;
    ghost var before := buffer[..];
    if position + extent <= buffer.Length {
      WriteBlob(buffer, position, extent, n);
      PackedStep(original, before, buffer[..], starts, ns, m, count);
      count' := count + 1;
    } else {
      PackedSkip(original, before, starts, ns, m, count);
    }
  }

  /** k packed blobs behind a base: version 1, the count, the blobs. */
  ghost predicate Packed(buf: seq<Byte>, base: nat, starts: seq<nat>, ns: seq<Node>, k: nat)
    requires k <= |ns| && |starts| == |ns| + 1
  {
    && base + HEADER_SIZE <= |buf|
    && Field(buf, base, 4) == 1 && Field(buf, base + 4, 4) == k
    && BlobsLie(buf, base, starts, ns, k)
  }

  /** What the source's checked additions demand: no 32-bit total overflows. */
  ghost predicate Packable(nodes: seq<Node>) {
    && (forall i | 0 <= i < |nodes| :: ValidNode(nodes[i]))
    && Starts(NonEmpty(nodes))[|NonEmpty(nodes)|] < U32_LIMIT
  }

  /** The state of the packing loop behind m non-empty nodes. */
  ghost predicate PackState(buffer: array?<Byte>, original: seq<Byte>, starts: seq<nat>, ns: seq<Node>, m: nat, total: nat, count: nat)
    reads buffer
  {
    && m <= |ns| && |starts| == |ns| + 1 && total == starts[m]
    && (buffer != null ==> PackedSoFar(buffer[..], original, starts, ns, m, count))
  }

  /** One turn of the packing loop for a non-empty node. */
  method PackNode(n: Node, buffer: array?<Byte>, total: nat, count: nat,
                  ghost original: seq<Byte>, ghost starts: seq<nat>, ghost ns: seq<Node>, ghost m: nat)
    returns (total': nat, count': nat)
    requires Spaced(starts, ns) && Stepping(starts, ns) && m < |ns| && ns[m] == n && ValidNode(n)
    requires PackState(buffer, original, starts, ns, m, total, count)
    modifies buffer
    ensures PackState(buffer, original, starts, ns, m + 1, total', count')
  {
    var extent := AlignedSize(|n.blob|);
    count' := count;
    if buffer != null {
      ExtentBound(n, extent);
      count' := PackOne(buffer, n, total, extent, count, original, starts, ns, m);
    }
    total' := total + extent;
  }

  /** The loop over the nodes: the size required, and the blobs that fit if there is a buffer. */
  method PackNodes(nodes: seq<Node>, buffer: array?<Byte>, ghost starts: seq<nat>, ghost ns: seq<Node>) returns (total: nat, count: nat)
    requires (forall i | 0 <= i < |nodes| :: ValidNode(nodes[i])) && ns == NonEmpty(nodes) && Spaced(starts, ns) && Stepping(starts, ns)
    modifies buffer
    ensures PackState(buffer, if buffer == null then [] else old(buffer[..]), starts, ns, |ns|, total, count)
  {
    total, count := HEADER_SIZE, 0;
    ghost var m := 0;
    ghost var original := if buffer == null then [] else buffer[..];
    for i := 0 to |nodes|
      invariant m == |NonEmpty(nodes[..i])|
      invariant PackState(buffer, original, starts, ns, m, total, count)
    {
      NextNonEmpty(nodes, ns, i, m);
      if |nodes[i].blob| > 0 {
        total, count := PackNode(nodes[i], buffer, total, count, original, starts, ns, m);
        m := m + 1;
      }
    }
    NonEmptyWhole(nodes);
  }

  lemma NonEmptyWhole(nodes: seq<Node>)
    ensures NonEmpty(nodes[..|nodes|]) == NonEmpty(nodes)
  {
    assert nodes[..|nodes|] == nodes;
  }

  lemma ExtentBound(n: Node, extent: nat)
    requires ValidNode(n) && extent == AlignedSize(|n.blob|)
    ensures extent < U32_LIMIT
  {
    AlignedSizeExact(|n.blob|);
  }

  /** What packing these nodes leaves in a buffer: nothing in one too small for the header, else exactly
      the longest prefix that fits, with everything behind it as it was. */
  ghost predicate Filled(buf: seq<Byte>, was: seq<Byte>, starts: seq<nat>, ns: seq<Node>)
    requires |starts| == |ns| + 1
  {
    && |buf| == |was|
    && if |buf| < HEADER_SIZE then buf == was
       else
         var k := FitCount(starts, |buf|, |ns|);
         Packed(buf, 0, starts, ns, k) && starts[k] <= |buf| && buf[starts[k]..] == was[starts[k]..]
  }

  /** GetAllSettingsBlobs: for any nodes and any buffer it returns the size needed for all blobs and
      packs exactly the longest prefix of non-empty blobs that fits; nothing behind them changes. A
      buffer too small for the header is left alone. */
  method GetAllSettingsBlobs(nodes: seq<Node>, buffer: array?<Byte>) returns (total: nat)
    requires Packable(nodes)
    modifies buffer
    ensures total == Starts(NonEmpty(nodes))[|NonEmpty(nodes)|]
    ensures buffer != null ==> Filled(buffer[..], old(buffer[..]), Starts(NonEmpty(nodes)), NonEmpty(nodes))
  {
    ghost var ns := NonEmpty(nodes);
    ghost var starts := Starts(ns);
    NonEmptyMembers(nodes);
    StartsSpaced(ns);
    total := PackInto(nodes, buffer, starts, ns);
  }

  /** The same for given starts: the nodes are packed, and then the header is written if it fits. */
  method PackInto(nodes: seq<Node>, buffer: array?<Byte>, ghost starts: seq<nat>, ghost ns: seq<Node>) returns (total: nat)
    requires (forall i | 0 <= i < |nodes| :: ValidNode(nodes[i])) && ns == NonEmpty(nodes) && Spaced(starts, ns) && Stepping(starts, ns)
    requires starts[|ns|] < U32_LIMIT
    modifies buffer
    ensures total == starts[|ns|] && (buffer != null ==> Filled(buffer[..], old(buffer[..]), starts, ns))
  {
    var count;
    total, count := PackNodes(nodes, buffer, starts, ns);
    if buffer != null {
      FitCountExact(starts, ns, buffer.Length, |ns|);
      SpacedMonotone(starts, ns, 0, count);
      if buffer.Length >= HEADER_SIZE {
        CountIsSmall(starts, ns, |ns|);
        ghost var before := buffer[..];
        CopyInto(buffer, 0, HeaderBytes(count));
        HeaderWritten(before, buffer[..], starts, ns, count);
      }
    }
  }

  /** Fewer blobs than bytes, so the count fits its field. */
  lemma {:induction false} CountIsSmall(starts: seq<nat>, ns: seq<Node>, i: nat)
    requires Spaced(starts, ns) && i <= |ns|
    ensures i <= starts[i]
    decreases i
  {
    if i > 0 { CountIsSmall(starts, ns, i - 1); }
  }

  /** Overwriting the front of a buffer leaves every stretch behind it. */
  lemma BehindWritten(a: seq<Byte>, b: seq<Byte>, head: seq<Byte>, i: nat, j: nat)
    requires |head| <= i <= j <= |a| && b == Written(a, 0, head)
    ensures |b| == |a| && b[i..j] == a[i..j] && b[j..] == a[j..]
  {
  }

  function HeaderBytes(k: nat): (s: seq<Byte>)
    ensures |s| == HEADER_SIZE
  {
    LittleEndian(1, 4) + LittleEndian(k, 4)
  }

  lemma HeaderFields(a: seq<Byte>, b: seq<Byte>, k: nat)
    requires HEADER_SIZE <= |a| && k < U32_LIMIT && b == Written(a, 0, HeaderBytes(k))
    ensures Field(b, 0, 4) == 1 && Field(b, 4, 4) == k
  {
    assert b[0..4] == LittleEndian(1, 4) && b[4..8] == LittleEndian(k, 4);
    assert Pow256(4) == U32_LIMIT;
    LittleEndianRoundTrip(1, 4);
    LittleEndianRoundTrip(k, 4);
  }

  lemma HeaderWritten(a: seq<Byte>, b: seq<Byte>, starts: seq<nat>, ns: seq<Node>, k: nat)
    requires Spaced(starts, ns) && k <= |ns| && k < U32_LIMIT && BlobsLie(a, 0, starts, ns, k)
    requires HEADER_SIZE <= |a| && HEADER_SIZE <= starts[k] <= |a|
    requires b == Written(a, 0, HeaderBytes(k))
    ensures Packed(b, 0, starts, ns, k) && b[starts[k]..] == a[starts[k]..]
  {
    HeaderFields(a, b, k);
    BehindWritten(a, b, HeaderBytes(k), HEADER_SIZE, starts[k]);
    BlobsLieMoved(a, b, starts, ns, k, 0);
  }

  // ---- The walk of the parser -----------------------------------------------------------------

  function Payloads(ns: seq<Node>): (ps: seq<seq<Byte>>)
    ensures |ps| == |ns| && forall i | 0 <= i < |ns| :: ps[i] == ns[i].blob
  {
    seq(|ns|, i requires 0 <= i < |ns| => ns[i].blob)
  }

  /** One payload of the walk, and where the next blob lies. */
  method NextPayload(buffer: seq<Byte>, position: nat, ghost next: nat, ghost n: Node) returns (payload: seq<Byte>, position': nat)
    requires BlobLies(buffer, position, next, n)
    ensures payload == n.blob && position' == next
  {
    var blobSize := Field(buffer, position + 4, 4);
    payload := buffer[position + BLOB_OFFSET..position + BLOB_OFFSET + blobSize];
    position' := position + Field(buffer, position, 4);
  }

  /** The loop of the walk; a blob of size zero would not be stepped over, but none is packed. */
  method WalkBlobs(buffer: seq<Byte>, nblobs: nat, first: nat, ghost base: nat, ghost starts: seq<nat>, ghost ns: seq<Node>)
    returns (payloads: seq<seq<Byte>>)
    requires |starts| == |ns| + 1 && nblobs == |ns| && first == base + starts[0] && BlobsLie(buffer, base, starts, ns, |ns|)
    requires forall i | 0 <= i < |ns| :: ns[i].blob != []
    ensures payloads == Payloads(ns)
  {
    payloads := [];
    var position := first;
    for i := 0 to nblobs
      invariant position == base + starts[i] && payloads == Payloads(ns)[..i]
    {
      assert BlobLies(buffer, base + starts[i], base + starts[i + 1], ns[i]);
      if Field(buffer, position + 4, 4) == 0 { continue; }
      var payload;
      payload, position := NextPayload(buffer, position, base + starts[i + 1], ns[i]);
      payloads := payloads + [payload];
    }
  }

  /** The header and blob walk of ParseSettingsBlobs, behind the path prefix that all but kernel-mode
      buffers carry: it finds every packed payload in order, and reports failure for none. */
  method ParseSettingsBlobs(buffer: seq<Byte>, kernelMode: bool, ghost base: nat, ghost starts: seq<nat>, ghost ns: seq<Node>)
    returns (ok: bool, payloads: seq<seq<Byte>>)
    requires Spaced(starts, ns) && Packed(buffer, base, starts, ns, |ns|) && forall i | 0 <= i < |ns| :: ns[i].blob != []
    requires if kernelMode then base == 0 else |buffer| >= 2 && base == Field(buffer, 0, 2) + 2
    ensures ok <==> ns != []
    ensures payloads == Payloads(ns)
  {
    var header := if kernelMode then 0 else Field(buffer, 0, 2) + 2;
    var nblobs := Field(buffer, header + 4, 4);
    payloads := [];
    ok := nblobs > 0;
    if ok { payloads := WalkBlobs(buffer, nblobs, header + HEADER_SIZE, base, starts, ns); }
  }
}
