/** The locked ring buffer over mirrored memory of apis/common/src/dd_ring_buffer.cpp. The view of
    2 * size bytes shows the same physical cells twice, so a work range may run past the size. */
module Ring {
  import opened Bytes
  import opened Bits

  datatype Work = Work(offset: nat, size: nat)

  lemma ModAdd(p: nat, i: nat, n: nat)
    requires n > 0
    ensures (p % n + i) % n == (p + i) % n
  {
    var q, r := p / n, p % n;
    var q', r' := (r + i) / n, (r + i) % n;
    assert p == q * n + r && r + i == q' * n + r';
    assert (q + q') * n == q * n + q' * n;
    QuotientUnique(p + i, n, q + q', r');
  }

  /** Positions less than n apart live in different cells. */
  lemma CellsDistinct(p: nat, q: nat, n: nat)
    requires n > 0 && p < q < p + n
    ensures p % n != q % n
  {
    var d := q / n - p / n;
    assert q - p == d * n + (q % n - p % n) by {
      assert q == (q / n) * n + q % n && p == (p / n) * n + p % n;
      assert (q / n) * n - (p / n) * n == d * n;
    }
    assert d >= 1 ==> d * n >= n;
    assert d <= 0 ==> d * n <= 0;
  }

  /** The bytes that the doubled view shows in a range. */
  function Shown(cells: seq<Byte>, offset: nat, size: nat): (s: seq<Byte>)
    requires |cells| > 0
    ensures |s| == size
  {
    seq(size, i requires 0 <= i < size => cells[(offset + i) % |cells|])
  }

  lemma ShownIsHistory(cells: seq<Byte>, history: seq<Byte>, at: nat, size: nat)
    requires |cells| > 0 && at + size <= |history|
    requires forall p | at <= p < at + size :: cells[p % |cells|] == history[p]
    ensures Shown(cells, at % |cells|, size) == history[at..at + size]
  {
    forall i | 0 <= i < size ensures Shown(cells, at % |cells|, size)[i] == history[at + i] {
      ModAdd(at, i, |cells|);
      assert cells[(at + i) % |cells|] == history[at + i];
    }
  }

  /** A sequence with the first i bytes of data laid over it from a position on. */
  ghost function Overlaid(s: seq<Byte>, at: nat, data: seq<Byte>, i: nat): seq<Byte>
    requires at + |data| <= |s| && i <= |data|
  {
    s[..at] + data[..i] + s[at + i..]
  }

  lemma OverlaidStep(s: seq<Byte>, at: nat, data: seq<Byte>, i: nat)
    requires at + |data| <= |s| && i < |data|
    ensures Overlaid(s, at, data, i)[at + i := data[i]] == Overlaid(s, at, data, i + 1)
  {
  }

  class RingBuffer {
    const cells: array<Byte>
    const bufSize: nat
    const bufSizeMask: nat
    var write: nat
    var read: nat
    var locked: bool
    /** The byte at every position below `write`, as its writer left it. */
    ghost var history: seq<Byte>
    ghost const exponent: nat

    ghost predicate Valid()
      reads this, cells
    {
      && cells.Length == bufSize == Pow2(exponent) && bufSizeMask == bufSize - 1
      && read <= write <= read + bufSize
      && |history| == write
      && forall p | read <= p < write :: cells[p % bufSize] == history[p]
    }

    /** What has been written and not yet read. */
    ghost function Unread(): seq<Byte>
      requires Valid()
      reads this, cells
    {
      history[read..write]
    }

    /** SetBuffer on a fresh ring: the size of a mirrored buffer is a power of two. */
    constructor (buffer: array<Byte>, ghost k: nat)
      requires buffer.Length == Pow2(k)
      ensures Valid() && !locked && cells == buffer && Unread() == [] && history == [] && read == 0
    {
      cells, bufSize, bufSizeMask, exponent := buffer, buffer.Length, buffer.Length - 1, k;
      write, read, locked := 0, 0, false;
      history := [];
    }

    /** Take the lock and, if it fits, a range of empty memory. The range starts at the write
        position modulo the size, lies inside the doubled view and holds no unread byte. */
    method AcquireForWrite(size: nat) returns (work: Work)
      requires Valid() && !locked
      modifies this
      ensures Valid() && locked && read == old(read)
      ensures work.size == if size <= bufSize - |old(Unread())| then size else 0
      ensures write == old(write) + work.size && old(history) <= history
      ensures work.size > 0 ==> work.offset == old(write) % bufSize
      ensures work.offset + work.size <= 2 * bufSize
    {
      work := Work(0, 0);
      locked := true;
      if size > 0 {
        var occupied := write - read;
        var available := bufSize - occupied;
        if available >= size {
          MaskIsMod(write, exponent);
          work := Work(And(write, bufSizeMask), size);
          history := history + seq(size, i requires 0 <= i < size reads this, cells requires cells.Length > 0 => cells[(write + i) % cells.Length]);
          write := write + size;
        }
      }
    }

    /** Store one byte at an unread position, in its cell. */
    method Store(cell: nat, ghost p: nat, b: Byte)
      requires Valid() && read <= p < write && cell == p % bufSize
      modifies this`history, cells
      ensures Valid() && history == old(history)[p := b]
    {
      forall q | read <= q < write && q != p ensures q % bufSize != p % bufSize {
        if q < p { CellsDistinct(q, p, bufSize); } else { CellsDistinct(p, q, bufSize); }
      }
      cells[cell] := b;
      history := history[p := b];
    }

    /** The holder of a write range stores its data through the view, byte by byte. */
    method Fill(work: Work, data: seq<Byte>)
      requires Valid() && locked && |data| == work.size <= write - read
      requires work.size > 0 ==> work.offset == (write - work.size) % bufSize
      modifies this`history, cells
      ensures Valid()
      ensures history == old(history)[..write - work.size] + data
    {
      ghost var at, before := write - work.size, history;
      assert history == Overlaid(before, at, data, 0);
      for i := 0 to work.size
        invariant Valid() && history == Overlaid(before, at, data, i)
      {
        ModAdd(at, i, bufSize);
        OverlaidStep(before, at, data, i);
        Store((work.offset + i) % bufSize, at + i, data[i]);
      }
    }

    /** Take the lock and the oldest written bytes, up to maxSize. */
    method AcquireForRead(maxSize: nat) returns (work: Work)
      requires Valid() && !locked
      modifies this
      ensures Valid() && locked && write == old(write) && history == old(history)
      ensures work.size == Min(maxSize, |old(Unread())|) && read == old(read) + work.size
      ensures work.offset == old(read) % bufSize && work.offset + work.size <= 2 * bufSize
      ensures Shown(cells[..], work.offset, work.size) == history[old(read)..read]
    {
      locked := true;
      var written := write - read;
      MaskIsMod(read, exponent);
      work := Work(And(read, bufSizeMask), if written > maxSize then maxSize else written);
      ShownIsHistory(cells[..], history, read, work.size);
      read := read + work.size;
    }

    /** AcquireForReadAll takes everything. */
    method AcquireForReadAll() returns (work: Work)
      requires Valid() && !locked
      modifies this
      ensures Valid() && locked && write == old(write) && history == old(history)
      ensures work.size == |old(Unread())| && read == write
      ensures work.offset == old(read) % bufSize && work.offset + work.size <= 2 * bufSize
      ensures Shown(cells[..], work.offset, work.size) == history[old(read)..read]
    {
      locked := true;
      var written := write - read;
      MaskIsMod(read, exponent);
      work := Work(And(read, bufSizeMask), written);
      ShownIsHistory(cells[..], history, read, work.size);
      read := read + work.size;
    }

    /** The holder of a read range loads it through the view. */
    method Fetch(work: Work) returns (data: seq<Byte>)
      requires Valid() && locked
      ensures data == Shown(cells[..], work.offset, work.size)
    {
      data := [];
      while |data| < work.size
        invariant |data| <= work.size
        invariant data == Shown(cells[..], work.offset, |data|)
      {
        data := data + [cells[(work.offset + |data|) % bufSize]];
      }
    }

    method Release()
      requires Valid() && locked
      modifies this`locked
      ensures Valid() && !locked
    {
      locked := false;
    }

    /** A writer's whole section: the data is appended if it fits, else nothing happens. */
    method WriteSection(data: seq<Byte>)
      requires Valid() && !locked
      modifies this, cells
      ensures Valid() && !locked && read == old(read)
      ensures history == old(history) + if |data| <= bufSize - |old(Unread())| then data else []
    {
      var work := AcquireForWrite(|data|);
      if work.size > 0 { Fill(work, data); }
      Release();
    }

    /** A reader's whole section: it gets the oldest unread bytes. */
    method ReadSection(maxSize: nat) returns (data: seq<Byte>)
      requires Valid() && !locked
      modifies this
      ensures Valid() && !locked && history == old(history) && read == old(read) + |data|
      ensures |data| == Min(maxSize, |old(Unread())|) && data == history[old(read)..read]
    {
      var work := AcquireForRead(maxSize);
      data := Fetch(work);
      Release();
    }

    method ReadAllSection() returns (data: seq<Byte>)
      requires Valid() && !locked
      modifies this
      ensures Valid() && !locked && history == old(history) && read == write == old(write)
      ensures data == history[old(read)..read]
    {
      var work := AcquireForReadAll();
      data := Fetch(work);
      Release();
    }
  }

  // ---- Every interleaving --------------------------------------------------------------------

  /** What one holder of the lock does between its acquire and its release. */
  datatype Section = Write(data: seq<Byte>) | Read(maxSize: nat) | ReadAll

  /** An unbounded queue with an admission test: all bytes accepted and all bytes read so far. */
  datatype Fifo = Fifo(accepted: seq<Byte>, delivered: nat)

  function FifoStep(q: Fifo, capacity: nat, s: Section): Fifo
    requires q.delivered <= |q.accepted|
  {
    var unread := |q.accepted| - q.delivered;
    match s
    case Write(data) => if |data| <= capacity - unread then q.(accepted := q.accepted + data) else q
    case Read(maxSize) => q.(delivered := q.delivered + Min(maxSize, unread))
    case ReadAll => q.(delivered := |q.accepted|)
  }

  function FifoRun(capacity: nat, sections: seq<Section>): (q: Fifo)
    ensures q.delivered <= |q.accepted| <= q.delivered + capacity
  {
    if sections == [] then Fifo([], 0)
    else FifoStep(FifoRun(capacity, sections[..|sections| - 1]), capacity, sections[|sections| - 1])
  }

  /** The ring holds what the queue holds, and so much has been read. */
  ghost predicate Refines(ring: RingBuffer, q: Fifo, got: seq<Byte>)
    reads ring, ring.cells
  {
    ring.Valid() && !ring.locked && q == Fifo(ring.history, ring.read) && got == ring.history[..ring.read]
  }

  method RunSection(ring: RingBuffer, s: Section, got: seq<Byte>, ghost q: Fifo) returns (got': seq<Byte>)
    requires Refines(ring, q, got)
    modifies ring, ring.cells
    ensures q.delivered <= |q.accepted| && Refines(ring, FifoStep(q, ring.bufSize, s), got')
  {
    got' := got;
    match s {
      case Write(data) =>
        ring.WriteSection(data);
      case Read(maxSize) =>
        var data := ring.ReadSection(maxSize);
        got' := got + data;
      case ReadAll =>
        var data := ring.ReadAllSection();
        got' := got + data;
    }
  }

  /** Every sequence of sections that writers and readers run under the lock, in whatever order they
      get it, reads exactly what the unbounded queue delivers: a prefix of the accepted bytes, in
      order, with none lost, repeated or overwritten before it was read. */
  method RunSections(k: nat, sections: seq<Section>) returns (got: seq<Byte>)
    ensures var q := FifoRun(Pow2(k), sections);
            got == q.accepted[..q.delivered]
  {
    var buffer := new Byte[Pow2(k)](_ => 0);
    var ring := new RingBuffer(buffer, k);
    got := [];
    for i := 0 to |sections|
      invariant fresh(ring) && fresh(ring.cells) && ring.bufSize == Pow2(k)
      invariant Refines(ring, FifoRun(Pow2(k), sections[..i]), got)
    {
      assert sections[..i + 1][..i] == sections[..i];
      got := RunSection(ring, sections[i], got, FifoRun(Pow2(k), sections[..i]));
    }
    assert sections[..|sections|] == sections;
  }
}
