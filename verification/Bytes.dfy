/** Bytes, little-endian integers and concatenation: what every buffer of the system is made of. */
module Bytes {

  type Byte = b: int | 0 <= b < 256

  const U16_LIMIT: nat := 0x1_0000
  const U32_LIMIT: nat := 0x1_0000_0000
  const U64_LIMIT: nat := 0x1_0000_0000_0000_0000

  function Min(x: nat, y: nat): nat {
    if x <= y then x else y
  }

  function Pow256(k: nat): (p: nat)
    ensures p > 0
  {
    if k == 0 then 1 else 256 * Pow256(k - 1)
  }

  /** The low k bytes of n, least significant first: a fixed-width unsigned field in memory. */
  function LittleEndian(n: nat, k: nat): (s: seq<Byte>)
    ensures |s| == k
    decreases k, n
  {
    if k == 0 then [] else [n % 256] + LittleEndian(n / 256, k - 1)
  }

  function FromLittleEndian(s: seq<Byte>): nat {
    if s == [] then 0 else s[0] + 256 * FromLittleEndian(s[1..])
  }

  /** A field wide enough for the value gives it back. */
  lemma {:induction false} LittleEndianRoundTrip(n: nat, k: nat)
    requires n < Pow256(k)
    ensures FromLittleEndian(LittleEndian(n, k)) == n
    decreases k
  {
    if k > 0 {
      LittleEndianRoundTrip(n / 256, k - 1);
      assert LittleEndian(n, k)[1..] == LittleEndian(n / 256, k - 1);
    }
  }

  /** A field wider than its value ends in zeros. */
  lemma SmallFields(n: nat)
    requires n < 256
    ensures LittleEndian(n, 2) == [n, 0] && LittleEndian(n, 4) == [n, 0, 0, 0]
  {
    var zero := 0;
    assert LittleEndian(zero, 0) == [];
    assert LittleEndian(zero, 1) == [0];
    assert LittleEndian(zero, 2) == [0, 0];
    assert LittleEndian(zero, 3) == [0, 0, 0];
    assert n % 256 == n && n / 256 == zero;
    assert LittleEndian(n, 2) == [n] + LittleEndian(zero, 1);
    assert LittleEndian(n, 4) == [n] + LittleEndian(zero, 3);
  }

  /** Reading a field and writing it back gives the same bytes. */
  lemma {:induction false} FromLittleEndianRoundTrip(s: seq<Byte>)
    ensures LittleEndian(FromLittleEndian(s), |s|) == s
  {
    if s != [] {
      FromLittleEndianRoundTrip(s[1..]);
      var n := FromLittleEndian(s);
      assert n % 256 == s[0] && n / 256 == FromLittleEndian(s[1..]);
      assert s == [s[0]] + s[1..];
    }
  }

  lemma {:induction false} FromLittleEndianBound(s: seq<Byte>)
    ensures FromLittleEndian(s) < Pow256(|s|)
  {
    if s != [] { FromLittleEndianBound(s[1..]); }
  }

  function Flatten<T>(parts: seq<seq<T>>): seq<T> {
    if parts == [] then [] else Flatten(parts[..|parts| - 1]) + parts[|parts| - 1]
  }

  lemma FlattenSnoc<T>(parts: seq<seq<T>>, last: seq<T>)
    ensures Flatten(parts + [last]) == Flatten(parts) + last
  {
    assert (parts + [last])[..|parts|] == parts;
  }

  lemma {:induction false} FlattenConcat<T>(a: seq<seq<T>>, b: seq<seq<T>>)
    ensures Flatten(a + b) == Flatten(a) + Flatten(b)
  {
    if b == [] {
      assert a + b == a;
    } else {
      var k := |b| - 1;
      var front, last := b[..k], b[k];
      FlattenConcat(a, front);
      assert a + b == (a + front) + [last];
      FlattenSnoc(a + front, last);
      Regroup(Flatten(a), Flatten(front), last);
    }
  }

  /** Where the i-th part begins in a concatenation. */
  function Offset<T>(parts: seq<seq<T>>, i: nat): nat
    requires i <= |parts|
  {
    |Flatten(parts[..i])|
  }

  lemma OffsetStep<T>(parts: seq<seq<T>>, i: nat)
    requires i < |parts|
    ensures Flatten(parts[..i + 1]) == Flatten(parts[..i]) + parts[i]
    ensures Offset(parts, i + 1) == Offset(parts, i) + |parts[i]|
  {
    assert parts[..i + 1] == parts[..i] + [parts[i]];
    FlattenSnoc(parts[..i], parts[i]);
  }

  /** Every part is found in the concatenation at its offset. */
  lemma PartAt<T>(parts: seq<seq<T>>, i: nat)
    requires i < |parts|
    ensures Offset(parts, i + 1) == Offset(parts, i) + |parts[i]| <= |Flatten(parts)|
    ensures Flatten(parts)[Offset(parts, i)..Offset(parts, i + 1)] == parts[i]
  {
    OffsetStep(parts, i);
    FlattenConcat(parts[..i + 1], parts[i + 1..]);
    assert parts == parts[..i + 1] + parts[i + 1..];
    var a, b, c := Flatten(parts[..i]), parts[i], Flatten(parts[i + 1..]);
    assert Flatten(parts) == (a + b) + c;
    assert ((a + b) + c)[|a|..|a| + |b|] == b;
  }

  lemma FlattenWhole<T>(parts: seq<seq<T>>)
    ensures Flatten(parts[..|parts|]) == Flatten(parts)
  {
    assert parts[..|parts|] == parts;
  }

  lemma OffsetEnds<T>(parts: seq<seq<T>>)
    ensures Offset(parts, 0) == 0 && Offset(parts, |parts|) == |Flatten(parts)|
  {
    assert parts[..|parts|] == parts;
  }

  /** The unsigned field of k bytes at a position. */
  function Field(buf: seq<Byte>, at: nat, k: nat): nat
    requires at + k <= |buf|
  {
    FromLittleEndian(buf[at..at + k])
  }

  /** A stretch of a stretch. */
  lemma SubSlice<T>(s: seq<T>, a: nat, b: nat, part: seq<T>, i: nat, j: nat)
    requires a <= b <= |s| && s[a..b] == part && i <= j <= |part|
    ensures s[a + i..a + j] == part[i..j]
  {
    forall k | 0 <= k < j - i ensures s[a + i..a + j][k] == part[i..j][k] {
      assert s[a..b][i + k] == s[a + i + k];
    }
  }

  /** The contents of a buffer after src was copied to position start. */
  function Written(s: seq<Byte>, start: nat, src: seq<Byte>): seq<Byte>
    requires start + |src| <= |s|
  {
    s[..start] + src + s[start + |src|..]
  }

  method CopyInto(dst: array<Byte>, start: nat, src: seq<Byte>)
    requires start + |src| <= dst.Length
    modifies dst
    ensures dst[..] == Written(old(dst[..]), start, src)
  {
    forall i | 0 <= i < |src| { dst[start + i] := src[i]; }
  }

  /** Two successive stretches of a stream, each split into what came out and what stayed, compose. */
  lemma Compose<T>(a: seq<T>, t1: seq<T>, d1: seq<T>, b: seq<T>, t2: seq<T>, d2: seq<T>, c: seq<T>)
    requires a + t1 == d1 + b && b + t2 == d2 + c
    ensures a + (t1 + t2) == (d1 + d2) + c
  {
    calc {
      a + (t1 + t2);
      (a + t1) + t2;
      (d1 + b) + t2;
      d1 + (b + t2);
      d1 + (d2 + c);
      (d1 + d2) + c;
    }
  }

  lemma Regroup<T>(a: seq<T>, b: seq<T>, c: seq<T>)
    ensures (a + b) + c == a + (b + c)
  {
  }

  /** strnlen: the bytes before the first NUL. */
  function CString(s: seq<Byte>): (r: seq<Byte>)
    ensures r <= s && 0 !in r
    ensures |r| < |s| ==> s[|r|] == 0
  {
    if s == [] || s[0] == 0 then [] else [s[0]] + CString(s[1..])
  }
}
