/** The growing byte buffer of apis/common/src/dd_dynamic_buffer.cpp and the hand-over of its
    contents to API callers (apis/tools/src/dd_settings.cpp). The allocator of a buffer is a script
    that says which of its requests are granted. */
module DynamicBuffers {
  import opened Bytes
  import opened Bits

  datatype Result = Success | OutOfHeapMemory | AlreadyExists

  function Max(x: nat, y: nat): nat {
    if x <= y then y else x
  }

  type Allocator = nat -> bool

  /** All requests from..to are granted. */
  ghost predicate Granted(grants: Allocator, from: nat, to: nat) {
    forall i: nat | from <= i < to :: grants(i)
  }

  /** The allocator never refuses. */
  ghost predicate Generous(grants: Allocator) {
    forall i: nat :: grants(i)
  }

  lemma GrantedStep(grants: Allocator, from: nat, to: nat)
    requires from <= to
    ensures Granted(grants, from, to + 1) <==> Granted(grants, from, to) && grants(to)
  {
  }

  /** A capacity that at least doubles allows one more growth. */
  lemma GrownStep(grown: nat, capacity: nat, newCapacity: nat)
    requires newCapacity >= 2 * capacity && newCapacity >= 1
    ensures grown == 0 || Pow2(grown) <= 2 * capacity ==> Pow2(grown + 1) <= 2 * newCapacity
  {
  }

  class DynamicBuffer {
    const grants: Allocator
    /** How many requests the allocator has had. */
    var asks: nat
    var buf: array?<Byte>
    var capacity: nat
    var size: nat
    var error: Result

    /** The bytes copied since the buffer was last cleared. */
    ghost var contents: seq<Byte>
    /** The largest reservation, the largest size, the bytes that growing copies had to move, the first
        request, the requests made by reservations and the granted growths, all since construction or
        transfer. */
    ghost var reserved: nat
    ghost var peak: nat
    ghost var moved: nat
    ghost var since: nat
    ghost var reservations: nat
    ghost var grown: nat

    /** An error sticks exactly if a request was refused; without one the contents are in memory. The
        capacity is at most the largest reservation or twice the largest size, and all growing copies
        together have moved no more bytes than it. */
    ghost predicate Valid()
      reads this, buf
    {
      && size <= capacity && size <= peak
      && |contents| == size
      && (error == Success ==> (capacity == 0 || (buf != null && buf.Length == capacity)))
      && (error == Success && size > 0 ==> buf[..size] == contents)
      && capacity <= Max(reserved, 2 * peak)
      && moved <= capacity
      && since <= asks && (error == Success <==> Granted(grants, since, asks))
    }

    /** Besides reservations there are only granted growths, of which a capacity allows no more than its
        logarithm, and one that was refused. */
    ghost predicate Frugal()
      reads this
    {
      && (grown == 0 || Pow2(grown) <= 2 * capacity)
      && asks - since <= reservations + grown + if error == Success then 0 else 1
    }

    constructor (grants: Allocator)
      ensures Frugal() && reservations == 0
      ensures Valid() && buf == null && capacity == 0 && size == 0 && error == Success
      ensures this.grants == grants && asks == since == 0
      ensures contents == [] && reserved == peak == moved == 0
    {
      this.grants, asks, since := grants, 0, 0;
      buf, capacity, size, error := null, 0, 0, Success;
      contents, reserved, peak, moved := [], 0, 0, 0;
      reservations, grown := 0, 0;
    }

    /** Realloc: the first bytes are kept. */
    method Realloc(newCapacity: nat) returns (granted: bool)
      requires size <= newCapacity && (error == Success && size > 0 ==> buf != null && size <= buf.Length && buf[..size] == contents)
      modifies this`buf, this`asks
      ensures granted == grants(old(asks)) && asks == old(asks) + 1
      ensures granted ==> buf != null && fresh(buf) && buf.Length == newCapacity
      ensures granted && error == Success && size > 0 ==> buf[..size] == contents
      ensures !granted ==> buf == null
    {
      granted := grants(asks);
      asks := asks + 1;
      if granted {
        var memory := new Byte[newCapacity](_ => 0);
        if error == Success && size > 0 {
          forall i | 0 <= i < size { memory[i] := buf[i]; }
          assert memory[..size] == buf[..size];
        }
        buf := memory;
      } else {
        buf := null;
      }
    }

    /** The reservation of an empty buffer for more than it has. */
    method Expand(reserveSize: nat) returns (r: Result)
      requires Valid() && size == 0 && capacity < reserveSize <= reserved
      modifies this`buf, this`asks, this`error, this`capacity, this`reservations
      ensures Valid() && r == if grants(old(asks)) then Success else OutOfHeapMemory
      ensures asks == old(asks) + 1 && error == (if r == Success then old(error) else r)
      ensures if r == Success then capacity == reserveSize && fresh(buf) else capacity == old(capacity) && buf == null
      ensures old(Frugal()) ==> Frugal()
      ensures reservations == old(reservations) + 1
    {
      GrantedStep(grants, since, asks);
      var granted := Realloc(reserveSize);
      reservations := reservations + 1;
      r := Success;
      if buf == null {
        error := OutOfHeapMemory;
        r := error;
      } else {
        capacity := reserveSize;
      }
    }

    /** Reserve before any data is written; with data in the buffer, or for zero bytes, it refuses and
        changes nothing. */
    method Reserve(reserveSize: nat) returns (r: Result)
      requires Valid()
      modifies this
      ensures Valid() && size == old(size) && contents == old(contents) && since == old(since)
      ensures r == AlreadyExists <==> old(size) > 0 || reserveSize == 0
      ensures r == AlreadyExists ==> capacity == old(capacity) && buf == old(buf)
      ensures r == OutOfHeapMemory ==> capacity == old(capacity) && buf == null
      ensures r == OutOfHeapMemory <==> old(size) == 0 && reserveSize > old(capacity) && !grants(old(asks))
      ensures error == if r == OutOfHeapMemory then r else old(error)
      ensures r == Success ==> capacity == Max(old(capacity), reserveSize)
      ensures asks == old(asks) + if old(size) == 0 && reserveSize > old(capacity) then 1 else 0
      ensures old(Frugal()) ==> Frugal() && reservations == old(reservations) + asks - old(asks)
      ensures peak == old(peak) && reserved == if r == AlreadyExists then old(reserved) else Max(old(reserved), reserveSize)
      ensures buf == old(buf) || fresh(buf) || buf == null
    {
      r := Success;
      if size == 0 && reserveSize > 0 {
        reserved := Max(reserved, reserveSize);
        if reserveSize > capacity { r := Expand(reserveSize); }
      } else {
        r := AlreadyExists;
      }
    }

    method Clear()
      requires Valid()
      modifies this`size, this`contents
      ensures Valid() && size == 0 && contents == [] && error == old(error)
    {
      size := 0;
      contents := [];
    }

    /** Make room for n more bytes; the new capacity at least doubles the old one. */
    method Grow(n: nat) returns (granted: bool)
      requires Valid() && error == Success && capacity - size < n
      modifies this`buf, this`asks, this`error, this`capacity, this`peak, this`moved, this`grown
      ensures Valid()
      ensures granted == grants(old(asks)) && asks == old(asks) + 1
      ensures old(Frugal()) ==> Frugal()
      ensures peak == if granted then Max(old(peak), size + n) else old(peak)
      ensures granted ==> error == Success && n <= capacity - size && capacity >= 2 * old(capacity) && fresh(buf)
      ensures !granted ==> error == OutOfHeapMemory && capacity == old(capacity) && buf == null
    {
      var newCapacity := if n > capacity then capacity + n else capacity * 2;
      GrantedStep(grants, since, asks);
      granted := Realloc(newCapacity);
      if buf == null {
        error := OutOfHeapMemory;
      } else {
        moved := moved + capacity;
        GrownStep(grown, capacity, newCapacity);
        grown := grown + 1;
        peak := Max(peak, size + n);
        capacity := newCapacity;
      }
    }

    /** Copy behind the present contents, where there is room. */
    method Append(src: seq<Byte>)
      requires Valid() && error == Success && 0 < |src| <= capacity - size
      modifies this`size, this`contents, this`peak, buf
      ensures Valid() && contents == old(contents) + src && peak == Max(old(peak), size)
    {
      var dest := buf;
      ghost var before := dest[..];
      forall i | 0 <= i < |src| { dest[size + i] := src[i]; }
      assert dest[..size] == before[..size] == contents;
      assert dest[..size + |src|] == dest[..size] + src;
      size := size + |src|;
      contents := contents + src;
      peak := Max(peak, size);
    }

    /** Copy appends, unless an earlier error sticks or the needed growth is refused; a growth at
        least doubles the capacity. */
    method Copy(src: seq<Byte>)
      requires Valid()
      modifies this, buf
      ensures Valid() && since == old(since)
      ensures old(error) != Success ==> error == old(error) && contents == old(contents)
      ensures old(error) == Success ==>
                && (error == Success <==> (|src| <= old(capacity) - old(size) || grants(old(asks))))
                && (error == Success || error == OutOfHeapMemory)
      ensures contents == old(contents) + if error == Success then src else []
      ensures capacity != old(capacity) ==> capacity >= 2 * old(capacity) && |src| > old(capacity) - old(size)
      ensures buf == old(buf) || buf == null || fresh(buf)
      ensures asks == old(asks) + if old(error) == Success && |src| > old(capacity) - old(size) then 1 else 0
      ensures old(Frugal()) ==> Frugal()
      ensures reservations == old(reservations) && reserved == old(reserved) && old(peak) <= peak <= Max(old(peak), size)
    {
      if error == Success && |src| > 0 {
        if capacity - size < |src| { var granted := Grow(|src|); }
        if error == Success { Append(src); }
      }
    }

    /** The written bytes, as Data() and Size() give them. */
    method View() returns (bytes: seq<Byte>)
      requires Valid() && (error == Success || size == 0)
      ensures bytes == contents
    {
      bytes := if size == 0 then [] else buf[..size];
    }

    /** A write through the pointer that Data() returns: bytes already copied are overwritten. */
    method Patch(at: nat, src: seq<Byte>)
      requires Valid() && error == Success && at + |src| <= size
      modifies this`contents, buf
      ensures Valid() && contents == Written(old(contents), at, src)
    {
      if |src| > 0 {
        var dest := buf;
        ghost var before := dest[..];
        forall i | 0 <= i < |src| { dest[at + i] := src[i]; }
        contents := Written(contents, at, src);
        assert dest[..size] == Written(before[..size], at, src);
      } else {
        assert contents == Written(contents, at, src);
      }
    }

    /** Give the memory away, with its capacity as size; the buffer starts afresh. */
    method Transfer() returns (memory: array?<Byte>, memorySize: nat)
      modifies this
      ensures Valid() && buf == null && capacity == size == 0 && contents == [] && error == Success
      ensures memory == old(buf) && memorySize == old(capacity) && since == asks == old(asks)
    {
      memory, memorySize := buf, capacity;
      buf, size, capacity, error := null, 0, 0, Success;
      contents, reserved, peak, moved, since := [], 0, 0, 0, asks;
      reservations, grown := 0, 0;
    }

    /** How the API wrappers hand the received bytes to their caller: a copy of exactly the contents,
        or the memory itself where it is full. Either way the caller gets exactly the contents; if the
        memory for the copy is refused it gets nothing, although the wrappers report success. */
    method HandOver(granted: bool) returns (out: array?<Byte>, outSize: nat)
      requires Valid() && error == Success
      modifies this
      ensures Valid()
      ensures old(size) == old(capacity) || granted ==>
                outSize == |old(contents)| && (outSize > 0 ==> out != null && out.Length == outSize && out[..] == old(contents))
      ensures old(size) != old(capacity) && !granted ==> out == null && outSize == 0
      ensures old(size) != old(capacity) ==> contents == old(contents) && buf == old(buf)
    {
      out, outSize := null, 0;
      if size != capacity {
        if granted {
          var memory := new Byte[size](_ => 0);
          if size > 0 {
            forall i | 0 <= i < size { memory[i] := buf[i]; }
            assert memory[..] == buf[..size];
          }
          out, outSize := memory, size;
        }
      } else {
        assert size > 0 ==> buf[..] == buf[..size];
        out, outSize := Transfer();
      }
    }
  }
}
