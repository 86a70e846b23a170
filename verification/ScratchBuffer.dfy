/** The commit-on-demand scratch stack of apis/common/src/dd_memory.cpp, in 32-bit arithmetic. */
module Scratch {
  import opened Bytes
  import opened Bits

  datatype Result = Success | InvalidParameter | OsError

  /** A block handed out by Push. */
  datatype Block = Block(start: nat, size: nat)

  /** Blocks in order, without overlap, ending at or below top. */
  ghost predicate Stacked(blocks: seq<Block>, top: nat) {
    && (forall i, j | 0 <= i < j < |blocks| :: blocks[i].start + blocks[i].size <= blocks[j].start)
    && (forall i | 0 <= i < |blocks| :: blocks[i].start + blocks[i].size <= top)
  }

  /** The blocks that survive lowering the top: those that end at or below it. */
  function Surviving(blocks: seq<Block>, top: nat): seq<Block> {
    if blocks == [] then []
    else
      var rest := Surviving(blocks[..|blocks| - 1], top);
      var last := blocks[|blocks| - 1];
      if last.start + last.size <= top then rest + [last] else rest
  }

  /** Exactly those. */
  lemma {:induction false} SurvivingMember(blocks: seq<Block>, top: nat, b: Block)
    ensures b in Surviving(blocks, top) <==> b in blocks && b.start + b.size <= top
  {
    if blocks != [] {
      var k := |blocks| - 1;
      SurvivingMember(blocks[..k], top, b);
      assert blocks == blocks[..k] + [blocks[k]];
    }
  }

  lemma {:induction false} SurvivingStacked(blocks: seq<Block>, top: nat, newTop: nat)
    requires Stacked(blocks, top)
    ensures Stacked(Surviving(blocks, newTop), newTop)
    ensures forall i | 0 <= i < |Surviving(blocks, newTop)| :: Surviving(blocks, newTop)[i] in blocks
  {
    if blocks != [] {
      var k := |blocks| - 1;
      SurvivingStacked(blocks[..k], top, newTop);
      var rest := Surviving(blocks[..k], newTop);
      forall i | 0 <= i < |rest| ensures rest[i].start + rest[i].size <= blocks[k].start {
        var j :| 0 <= j < k && blocks[..k][j] == rest[i];
        assert blocks[j] == rest[i];
      }
    }
  }

  class ScratchBuffer {
    var totalSize: nat
    var committedSize: nat
    var pageSize: nat
    var top: nat
    /** The live blocks, oldest first. */
    ghost var live: seq<Block>
    ghost var pageExponent: nat

    ghost predicate Valid()
      reads this
    {
      && pageExponent < 32 && pageSize == Pow2(pageExponent)
      && top <= committedSize <= totalSize < U32_LIMIT
      && committedSize % pageSize == 0 && totalSize % pageSize == 0
      && Stacked(live, top)
    }

    constructor ()
      ensures totalSize == committedSize == pageSize == top == 0 && live == []
    {
      totalSize, committedSize, pageSize, top := 0, 0, 0, 0;
      live, pageExponent := [], 0;
    }

    /** Initialize, given the platform's page size and whether the OS will reserve and commit. A
        reservation of zero bytes always fails, which is where a total that aligns to 2^32 ends. On
        success the invariant holds exactly if the top, which is not reset, is within the initial
        commit. */
    method Initialize(total: nat, initialCommit: nat, page: nat, ghost j: nat, osReserves: bool, osCommits: bool) returns (r: Result)
      requires total < U32_LIMIT && initialCommit < U32_LIMIT && j < 32 && page == Pow2(j) < U32_LIMIT
      modifies this
      ensures top == old(top)
      ensures r == InvalidParameter <==> total == 0 || total < initialCommit
      ensures r == Success <==>
                0 < total && initialCommit <= total && RoundUp(total, page) < U32_LIMIT && osReserves && osCommits
      ensures r == Success ==> totalSize == RoundUp(total, page) && committedSize == RoundUp(initialCommit, page)
      ensures r == Success ==> (Valid() <==> top <= committedSize)
    {
      if total == 0 || total < initialCommit { return InvalidParameter; }
      pageSize, pageExponent := page, j;
      AlignU32Correct(total, j);
      AlignU32Correct(initialCommit, j);
      RoundUpLeast(initialCommit, page, RoundUp(total, page));
      var alignedTotal := AlignU32(total, page);
      var alignedCommit := AlignU32(initialCommit, page);
      r := OsError;
      if alignedTotal > 0 && osReserves {
        totalSize := alignedTotal;
        if osCommits {
          committedSize := alignedCommit;
          live := [];
          r := Success;
        }
      }
    }

    /** How much more must be committed for a block that does not fit the committed memory. */
    method ToCommit(size: nat) returns (aligned: nat)
      requires Valid() && committedSize - top < size <= totalSize - top
      ensures aligned < U32_LIMIT && committedSize + aligned == RoundUp(top + size, pageSize) <= totalSize
      ensures (committedSize + aligned) % pageSize == 0
    {
      var extra := Sub32(size, Sub32(committedSize, top));
      CommitFits(extra, committedSize, totalSize, pageExponent);
      aligned := AlignU32(extra, pageSize);
    }

    /** Push either hands out the block at the old top, committing just the missing pages, or fails
        and changes nothing. It fails exactly when the block does not fit, or a needed commit fails. */
    method Push(size: nat, osCommits: bool) returns (block: Block, ok: bool)
      requires Valid() && size < U32_LIMIT
      modifies this
      ensures Valid() && totalSize == old(totalSize) && pageSize == old(pageSize)
      ensures ok <==> size <= totalSize - old(top) && (size <= old(committedSize) - old(top) || osCommits)
      ensures old(committedSize) <= committedSize
      ensures ok ==> block == Block(old(top), size) && live == old(live) + [block] && top == old(top) + size
      ensures ok ==> committedSize == if size <= old(committedSize) - old(top) then old(committedSize)
                                      else RoundUp(old(top) + size, pageSize)
      ensures !ok ==> top == old(top) && committedSize == old(committedSize) && live == old(live)
    {
      block, ok := Block(0, 0), false;
      if size > Sub32(totalSize, top) { return; }
      ok := true;
      var alignedSizeToCommit := 0;
      if size > Sub32(committedSize, top) {
        alignedSizeToCommit := ToCommit(size);
        ok := osCommits;
      }
      if ok {
        committedSize := Add32(committedSize, alignedSizeToCommit);
        block := Block(top, size);
        top := Add32(top, size);
        live := live + [block];
      }
    }

    /** Pop lowers the top; blocks that reach above it are gone, the others stay where they are. */
    method Pop(size: nat)
      requires Valid() && size <= top
      modifies this`top, this`live
      ensures Valid() && top == old(top) - size && live == Surviving(old(live), top)
      ensures forall b :: b in live <==> b in old(live) && b.start + b.size <= top
    {
      top := Sub32(top, size);
      forall b ensures b in Surviving(live, top) <==> b in live && b.start + b.size <= top { SurvivingMember(live, top, b); }
      SurvivingStacked(live, top + size, top);
      live := Surviving(live, top);
    }

    method Clear()
      requires Valid()
      modifies this`top, this`live
      ensures Valid() && top == 0 && live == Surviving(old(live), 0)
      ensures forall b :: b in live <==> b in old(live) && b == Block(0, 0)
    {
      forall b ensures b in Surviving(live, 0) <==> b in live && b.start + b.size <= 0 { SurvivingMember(live, 0, b); }
      SurvivingStacked(live, top, 0);
      top := 0;
      live := Surviving(live, 0);
    }
  }

  /** The missing bytes, aligned, still fit below the total: no 32-bit sum wraps, and the new
      committed size is the needed size rounded up to a page. */
  lemma CommitFits(extra: nat, committed: nat, total: nat, j: nat)
    requires j < 32 && extra < U32_LIMIT && committed + extra <= total < U32_LIMIT
    requires committed % Pow2(j) == 0 && total % Pow2(j) == 0
    ensures Pow2(j) < U32_LIMIT && AlignU32(extra, Pow2(j)) == RoundUp(extra, Pow2(j))
    ensures committed + RoundUp(extra, Pow2(j)) <= total
    ensures (committed + RoundUp(extra, Pow2(j))) % Pow2(j) == 0
    ensures committed + RoundUp(extra, Pow2(j)) == RoundUp(committed + extra, Pow2(j))
  {
    var a := Pow2(j);
    AlignU32Correct(extra, j);
    MultipleAdd(total, committed, a);
    RoundUpLeast(extra, a, total - committed);
    MultipleAdd(committed, RoundUp(extra, a), a);
    RoundUpShift(extra, committed, a);
  }

  lemma RoundUpShift(x: nat, c: nat, a: nat)
    requires a > 0 && c % a == 0
    ensures RoundUp(c + x, a) == c + RoundUp(x, a)
  {
    MultipleAdd(c, RoundUp(x, a), a);
    RoundUpLeast(c + x, a, c + RoundUp(x, a));
    MultipleAdd(RoundUp(c + x, a), c, a);
    RoundUpLeast(x, a, RoundUp(c + x, a) - c);
  }
}
