/** The size computation of MirroredBufferCreate (apis/common/src/dd_memory_linux.cpp). */
module MirroredBuffer {
  import opened Bytes
  import opened Bits

  const MIRRORED_BUFFER_MAX_SIZE: nat := 0x4000_0000

  datatype SizeResult = Size(bytes: nat) | InvalidParameter | OutOfRange

  function MirroredBufferSize(requested: nat, pageSize: nat): SizeResult
    requires requested < U32_LIMIT && pageSize < U32_LIMIT
  {
    if requested == 0 then InvalidParameter
    else
      var aligned := AlignU32(requested, pageSize);
      AlignStays32(requested, pageSize);
      RangeCheck(NextSmallestPow2(aligned))
  }

  function RangeCheck(actual: nat): SizeResult {
    if actual == 0 || actual > MIRRORED_BUFFER_MAX_SIZE then OutOfRange else Size(actual)
  }

  lemma MirroredBufferSizeSteps(requested: nat, j: nat, aligned: nat)
    requires 0 < requested < U32_LIMIT && j < 32 && aligned == Aligned(requested, Pow2(j))
    ensures Pow2(j) < U32_LIMIT
    ensures MirroredBufferSize(requested, Pow2(j)) == RangeCheck(NextSmallestPow2(aligned))
  {
    AlignU32Correct(requested, j);
  }

  lemma AlignStays32(x: nat, a: nat)
    requires x < U32_LIMIT && a < U32_LIMIT
    ensures AlignU32(x, a) < U32_LIMIT
  {
    AndAtMost(Add32(x, Sub32(a, 1)), Not32(Sub32(a, 1)));
  }

  lemma PageMultiple(requested: nat, j: nat, i: nat)
    requires requested <= Pow2(i) && Pow2(j) <= Pow2(i)
    ensures RoundUp(requested, Pow2(j)) <= Pow2(i)
  {
    if i < j { Pow2Monotone(i, j); }
    Pow2Divides(j, i);
    RoundUpLeast(requested, Pow2(j), Pow2(i));
  }

  lemma PageWithin(j: nat)
    requires j <= 30
    ensures Pow2(j) <= MIRRORED_BUFFER_MAX_SIZE
  {
    Pow2Of32();
    Pow2Monotone(j, 30);
  }

  lemma InRange(requested: nat, j: nat) returns (k: nat)
    requires 0 < requested <= MIRRORED_BUFFER_MAX_SIZE && j <= 30
    ensures Pow2(j) < U32_LIMIT && MirroredBufferSize(requested, Pow2(j)) == Size(Pow2(k))
    ensures RoundUp(requested, Pow2(j)) <= Pow2(k) && (k > 0 ==> Pow2(k - 1) < RoundUp(requested, Pow2(j)))
  {
    PageWithin(j);
    var rounded := RoundUp(requested, Pow2(j));
    assert rounded <= MIRRORED_BUFFER_MAX_SIZE by {
      Pow2Of32();
      PageMultiple(requested, j, 30);
    }
    MirroredBufferSizeSteps(requested, j, rounded);
    k := NextSmallestPow2Exponent(rounded);
    assert Pow2(k) <= MIRRORED_BUFFER_MAX_SIZE by {
      Pow2Of32();
      if 30 < k { Pow2Monotone(30, k - 1); } else { Pow2Monotone(k, 30); }
    }
  }

  lemma BeyondRange(requested: nat, j: nat)
    requires MIRRORED_BUFFER_MAX_SIZE < requested < U32_LIMIT && j <= 30
    ensures Pow2(j) < U32_LIMIT && MirroredBufferSize(requested, Pow2(j)) == OutOfRange
  {
    PageWithin(j);
    var aligned := Aligned(requested, Pow2(j));
    MirroredBufferSizeSteps(requested, j, aligned);
    assert aligned == 0 || requested <= aligned by { AlignU32Correct(requested, j); }
    NextSmallestPow2Zero(aligned);
    if 0 < aligned <= 0x8000_0000 {
      var k := NextSmallestPow2Exponent(aligned);
    }
  }

  /** For every page size 2^j of at most 1 GB: the range check passes exactly for requests up to
      2^30, also where the alignment wraps to zero, and the size is then the least power of two
      that is at least the request and the page. */
  lemma MirroredBufferSizeExact(requested: nat, j: nat)
    requires requested < U32_LIMIT && j <= 30
    ensures Pow2(j) < U32_LIMIT
    ensures MirroredBufferSize(requested, Pow2(j)).Size? <==> 0 < requested <= 0x4000_0000
    ensures MirroredBufferSize(requested, Pow2(j)) == InvalidParameter <==> requested == 0
    ensures MirroredBufferSize(requested, Pow2(j)) == OutOfRange <==> requested > 0x4000_0000
    ensures MirroredBufferSize(requested, Pow2(j)).Size? ==>
              var size := MirroredBufferSize(requested, Pow2(j)).bytes;
              && IsPow2(size) && requested <= size && Pow2(j) <= size
              && forall i: nat | requested <= Pow2(i) && Pow2(j) <= Pow2(i) :: size <= Pow2(i)
  {
    PageWithin(j);
    if requested > MIRRORED_BUFFER_MAX_SIZE {
      BeyondRange(requested, j);
    } else if requested > 0 {
      var k := InRange(requested, j);
      MultiplesApart(0, RoundUp(requested, Pow2(j)), Pow2(j));
      forall i: nat | requested <= Pow2(i) && Pow2(j) <= Pow2(i) ensures Pow2(k) <= Pow2(i) {
        PageMultiple(requested, j, i);
        if i < k { Pow2Monotone(i, k - 1); } else { Pow2Monotone(k, i); }
      }
    }
  }
}
