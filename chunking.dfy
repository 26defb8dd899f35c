/**
 * The chunk walk: how the file is cut into lockable byte ranges, which
 * ranges one pass requests, which bytes of them exist, and how many zero
 * bits an instance collects from the chunks whose lock it obtained.
 */
module Chunking {
  import opened Bits

  /** Java's `Integer.MAX_VALUE`, 2^31 - 1: the largest length one lock or mapping may request. */
  const IntegerMaxValue: nat := 0x7FFF_FFFF

  /** The chunk size: the whole file when its size fits in an `int`, else `Integer.MAX_VALUE`. */
  function ChunkSize(size: nat): (c: nat)
    ensures c <= size && c <= IntegerMaxValue
    ensures c == size || c == IntegerMaxValue
    ensures size > 0 ==> c > 0
  {
    if size > IntegerMaxValue then IntegerMaxValue else size
  }

  /**
   * The channel position at the start of pass `k`: it starts at 0 and every
   * pass, whether its lock succeeded or not, advances it by `c`.
   */
  function Offset(c: nat, k: nat): (position: nat)
  {
    if k == 0 then 0 else Offset(c, k - 1) + c
  }

  /** Pass `k` starts at byte k*c. */
  lemma {:induction false} OffsetIsProduct(c: nat, k: nat)
    ensures Offset(c, k) == k * c
  {
    if k > 0 {
      OffsetIsProduct(c, k - 1);
    }
  }

  /** The position only grows, and strictly when the chunk is not empty. */
  lemma {:induction false} OffsetGrows(c: nat, a: nat, b: nat)
    requires a <= b
    ensures Offset(c, a) <= Offset(c, b)
    ensures c > 0 && a < b ==> Offset(c, a) < Offset(c, b)
  {
    if a < b {
      OffsetGrows(c, a, b - 1);
    }
  }

  /**
   * The number of passes of the position loop over a file of `size` bytes
   * when every pass advances by `c`: the ceiling of size / c, the one pass
   * count whose last pass starts inside the file and whose end reaches or
   * passes its end.
   */
  function Passes(size: nat, c: nat): (n: nat)
    requires size == 0 || c > 0
    ensures Offset(c, n) >= size
    ensures size > 0 ==> Offset(c, n - 1) < size
    ensures n == 0 <==> size == 0
    decreases size
  {
    if size == 0 then 0
    else if size <= c then 1
    else
      var n' := Passes(size - c, c);
      OffsetShift(c, n');
      OffsetShift(c, n' - 1);
      1 + n'
  }

  lemma {:induction false} OffsetShift(c: nat, k: nat)
    ensures Offset(c, k + 1) == c + Offset(c, k)
  {
  }

  /** The loop test `position < size` holds at pass `k` exactly when pass `k` is one of the passes. */
  lemma PassesIsCeiling(size: nat, c: nat, k: nat)
    requires c > 0
    ensures Offset(c, k) < size <==> k < Passes(size, c)
  {
    var n := Passes(size, c);
    if k < n {
      OffsetGrows(c, k, n - 1);
    } else {
      OffsetGrows(c, n, k);
    }
  }

  /** The pass count is the ceiling of size / c, in integer division. */
  lemma PassesIsDivisionCeiling(size: nat, c: nat)
    requires c > 0
    ensures Passes(size, c) == (size + c - 1) / c
  {
    var n := Passes(size, c);
    OffsetIsProduct(c, n);
    if n > 0 {
      OffsetIsProduct(c, n - 1);
    }
    CeilingByBounds(size, c, n);
  }

  /** The one `n` with (n - 1) * c < size <= n * c is (size + c - 1) / c. */
  lemma CeilingByBounds(size: nat, c: nat, n: nat)
    requires c > 0
    requires n * c >= size
    requires n > 0 ==> (n - 1) * c < size
    ensures n == (size + c - 1) / c
  {
    var q, r := (size + c - 1) / c, (size + c - 1) % c;
    assert size + c - 1 == q * c + r && r < c;
    assert n < q + 1 by {
      if n > 0 {
        assert n * c < (q + 1) * c by {
          assert n * c == (n - 1) * c + c;
          assert (q + 1) * c == q * c + c;
        }
        FactorLess(n, q + 1, c);
      }
    }
    assert q < n + 1 by {
      assert q * c < (n + 1) * c by {
        assert (n + 1) * c == n * c + c;
      }
      FactorLess(q, n + 1, c);
    }
  }

  lemma FactorLess(a: int, b: int, c: nat)
    requires a * c < b * c
    ensures a < b
  {
    assert b * c - a * c == (b - a) * c;
  }

  /** An empty file gives no pass and no zero bits. */
  lemma EmptyFileNoPasses(claimed: set<nat>)
    ensures ChunkSize(0) == 0 && Passes(0, ChunkSize(0)) == 0
    ensures InstanceZeroBits([], claimed) == 0
  {
  }

  /** A byte range [offset, offset + length) of the file, as handed to `tryLock` and `map`. */
  datatype Range = Range(offset: nat, length: nat) {
    function End(): nat { offset + length }
    predicate Contains(x: nat) { offset <= x < End() }
  }

  /** The range pass `k` locks and maps: always `c` bytes from k*c, even past the end of the file. */
  function Requested(c: nat, k: nat): Range
  {
    Range(Offset(c, k), c)
  }

  function Min(a: nat, b: nat): nat
  {
    if a <= b then a else b
  }

  /** Where pass `k`'s bytes begin, clamped to the end of a file of `size` bytes. */
  function ChunkStart(size: nat, c: nat, k: nat): nat
  {
    Min(Offset(c, k), size)
  }

  /** The bytes of pass `k`'s request that exist in a file of `size` bytes. */
  function Scanned(size: nat, c: nat, k: nat): (r: Range)
    ensures r.End() <= size
    ensures forall x: nat :: r.Contains(x) <==> Requested(c, k).Contains(x) && x < size
  {
    Range(ChunkStart(size, c, k), ChunkStart(size, c, k + 1) - ChunkStart(size, c, k))
  }

  /**
   * Coverage: the existing bytes of the passes tile the file. The first
   * starts at 0, each ends where the next begins, none is empty, and the
   * last ends at the end of the file.
   */
  lemma ScannedRangesTileFile(size: nat, c: nat, k: nat)
    requires c > 0
    requires k < Passes(size, c)
    ensures k == 0 ==> Scanned(size, c, k).offset == 0
    ensures Scanned(size, c, k).length > 0
    ensures k + 1 < Passes(size, c) ==> Scanned(size, c, k).End() == Scanned(size, c, k + 1).offset
    ensures k + 1 == Passes(size, c) ==> Scanned(size, c, k).End() == size
  {
    PassesIsCeiling(size, c, k);
    PassesIsCeiling(size, c, k + 1);
  }

  /** When the file fits in one `int`-sized chunk, the single request is exactly the file. */
  lemma OneChunkRequestIsWholeFile(size: nat)
    requires 0 < size <= IntegerMaxValue
    ensures Passes(size, ChunkSize(size)) == 1
    ensures Requested(ChunkSize(size), 0) == Range(0, size)
  {
  }

  /**
   * A file of 2^31 bytes is walked in two passes of `Integer.MAX_VALUE`
   * bytes. The second pass requests bytes 2^31 - 1 through 2^32 - 3, and
   * only the first of them lies inside the file.
   */
  lemma LastRequestOverrunsFile()
    ensures var size := IntegerMaxValue + 1;
            var c := ChunkSize(size);
            && Passes(size, c) == 2
            && Requested(c, 1).End() > size
            && Scanned(size, c, 1).length == 1
  {
    var size := IntegerMaxValue + 1;
    var c := ChunkSize(size);
    assert Passes(size - c, c) == 1;
    assert Offset(c, 1) == c;
  }

  /** The zero bits in the existing bytes of pass `k`. */
  function ChunkZeroBits(file: seq<int8>, c: nat, k: nat): (z: nat)
  {
    ZeroBitsIn(file[ChunkStart(|file|, c, k)..ChunkStart(|file|, c, k + 1)])
  }

  /**
   * The zero bits an instance collects in the first `n` passes: the chunk's
   * bits for every pass whose lock succeeded (its index is in `claimed`),
   * nothing for a pass whose lock failed. Never more than 8 bits per byte
   * those passes cover.
   */
  function ClaimedZeroBits(file: seq<int8>, c: nat, claimed: set<nat>, n: nat): (z: nat)
    ensures z <= 8 * ChunkStart(|file|, c, n)
  {
    if n == 0 then 0
    else
      ClaimedZeroBits(file, c, claimed, n - 1)
        + (if n - 1 in claimed then ChunkZeroBits(file, c, n - 1) else 0)
  }

  /** A failed lock adds nothing: an instance that locks no chunk collects no bits. */
  lemma {:induction false} NothingClaimedNothingCounted(file: seq<int8>, c: nat, n: nat)
    ensures ClaimedZeroBits(file, c, {}, n) == 0
  {
    if n > 0 {
      NothingClaimedNothingCounted(file, c, n - 1);
    }
  }

  /** One more successful lock adds exactly the bits of that chunk. */
  lemma {:induction false} ClaimOneMore(file: seq<int8>, c: nat, claimed: set<nat>, k: nat, n: nat)
    requires k !in claimed && k < n
    ensures ClaimedZeroBits(file, c, claimed + {k}, n) == ClaimedZeroBits(file, c, claimed, n) + ChunkZeroBits(file, c, k)
  {
    if k < n - 1 {
      ClaimOneMore(file, c, claimed, k, n - 1);
    } else {
      assert ClaimedZeroBits(file, c, claimed + {k}, n - 1) == ClaimedZeroBits(file, c, claimed, n - 1) by {
        SameClaimsBelow(file, c, claimed + {k}, claimed, n - 1);
      }
    }
  }

  /** Only the outcomes of the first `n` passes matter to the first `n` passes. */
  lemma {:induction false} SameClaimsBelow(file: seq<int8>, c: nat, a: set<nat>, b: set<nat>, n: nat)
    requires forall k :: 0 <= k < n ==> (k in a <==> k in b)
    ensures ClaimedZeroBits(file, c, a, n) == ClaimedZeroBits(file, c, b, n)
  {
    if n > 0 {
      SameClaimsBelow(file, c, a, b, n - 1);
    }
  }

  /** When every one of the first `n` locks succeeds, the instance counts every byte of the prefix those passes cover. */
  lemma {:induction false} AllClaimedCountsPrefix(file: seq<int8>, c: nat, claimed: set<nat>, n: nat)
    requires forall k :: 0 <= k < n ==> k in claimed
    ensures ClaimedZeroBits(file, c, claimed, n) == ZeroBitsIn(file[..ChunkStart(|file|, c, n)])
  {
    if n > 0 {
      AllClaimedCountsPrefix(file, c, claimed, n - 1);
      OffsetShift(c, n - 1);
      var lo, hi := ChunkStart(|file|, c, n - 1), ChunkStart(|file|, c, n);
      assert lo <= hi <= |file|;
      assert ClaimedZeroBits(file, c, claimed, n) == ClaimedZeroBits(file, c, claimed, n - 1) + ZeroBitsIn(file[lo..hi]);
      ZeroBitsInSplit(file, lo, hi);
    }
  }

  /**
   * The zero bits one instance adds to `countOfZeroBytes`: the claimed
   * chunks over all passes of a file walked in chunks of `ChunkSize`.
   */
  function InstanceZeroBits(file: seq<int8>, claimed: set<nat>): (z: nat)
    ensures z <= 8 * |file|
  {
    ClaimedZeroBits(file, ChunkSize(|file|), claimed, Passes(|file|, ChunkSize(|file|)))
  }

  /** An instance that locks every chunk of the file counts the whole file. */
  lemma AllLocksCountWholeFile(file: seq<int8>, claimed: set<nat>)
    requires forall k :: 0 <= k < Passes(|file|, ChunkSize(|file|)) ==> k in claimed
    ensures InstanceZeroBits(file, claimed) == ZeroBitsIn(file)
  {
    var c := ChunkSize(|file|);
    var n := Passes(|file|, c);
    AllClaimedCountsPrefix(file, c, claimed, n);
    assert file[..ChunkStart(|file|, c, n)] == file;
  }

  /** How many of the claim sets hold chunk `k`. */
  function Owners(claims: seq<set<nat>>, k: nat): (owners: nat)
  {
    if |claims| == 0 then 0
    else Owners(claims[..|claims| - 1], k) + (if k in claims[|claims| - 1] then 1 else 0)
  }

  /** The bits all instances collect together in the first `n` passes: the sum over instances of each one's count. */
  function SumClaimed(file: seq<int8>, c: nat, claims: seq<set<nat>>, n: nat): (z: nat)
  {
    if |claims| == 0 then 0
    else SumClaimed(file, c, claims[..|claims| - 1], n) + ClaimedZeroBits(file, c, claims[|claims| - 1], n)
  }

  /** Pass `n` adds its chunk to the instances' joint count once per owner: nothing when no one locked it, its bits once when one instance did. */
  lemma {:induction false} SumClaimedStep(file: seq<int8>, c: nat, claims: seq<set<nat>>, n: nat)
    requires Owners(claims, n) <= 1
    ensures SumClaimed(file, c, claims, n + 1) == SumClaimed(file, c, claims, n) + if Owners(claims, n) == 1 then ChunkZeroBits(file, c, n) else 0
  {
    if |claims| > 0 {
      SumClaimedStep(file, c, claims[..|claims| - 1], n);
    }
  }

  /** When every chunk below `n` has exactly one owner, the instances together count the covered prefix once. */
  lemma {:induction false} PartitionCountsPrefix(file: seq<int8>, c: nat, claims: seq<set<nat>>, n: nat)
    requires forall k :: 0 <= k < n ==> Owners(claims, k) == 1
    ensures SumClaimed(file, c, claims, n) == ZeroBitsIn(file[..ChunkStart(|file|, c, n)])
  {
    if n == 0 {
      ZeroClaimedAtStart(file, c, claims);
    } else {
      OffsetShift(c, n - 1);
      var lo, hi := ChunkStart(|file|, c, n - 1), ChunkStart(|file|, c, n);
      assert lo <= hi <= |file|;
      calc {
        SumClaimed(file, c, claims, n);
        { assert Owners(claims, n - 1) == 1;
          SumClaimedStep(file, c, claims, n - 1); }
        SumClaimed(file, c, claims, n - 1) + ZeroBitsIn(file[lo..hi]);
        { PartitionCountsPrefix(file, c, claims, n - 1); }
        ZeroBitsIn(file[..lo]) + ZeroBitsIn(file[lo..hi]);
        { ZeroBitsInSplit(file, lo, hi); }
        ZeroBitsIn(file[..hi]);
      }
    }
  }

  lemma {:induction false} ZeroClaimedAtStart(file: seq<int8>, c: nat, claims: seq<set<nat>>)
    ensures SumClaimed(file, c, claims, 0) == 0
  {
    if |claims| > 0 {
      ZeroClaimedAtStart(file, c, claims[..|claims| - 1]);
    }
  }

  /** The local counts of instances with the given claim sets. */
  function LocalCounts(file: seq<int8>, claims: seq<set<nat>>): (counts: seq<nat>)
    ensures |counts| == |claims|
    ensures forall i :: 0 <= i < |claims| ==> counts[i] == InstanceZeroBits(file, claims[i])
  {
    if |claims| == 0 then []
    else LocalCounts(file, claims[..|claims| - 1]) + [InstanceZeroBits(file, claims[|claims| - 1])]
  }

  function Sum(s: seq<nat>): (total: nat)
  {
    if |s| == 0 then 0 else Sum(s[..|s| - 1]) + s[|s| - 1]
  }

  lemma {:induction false} SumOfLocalCounts(file: seq<int8>, claims: seq<set<nat>>)
    ensures Sum(LocalCounts(file, claims)) == SumClaimed(file, ChunkSize(|file|), claims, Passes(|file|, ChunkSize(|file|)))
  {
    if |claims| > 0 {
      SumOfLocalCounts(file, claims[..|claims| - 1]);
      assert LocalCounts(file, claims)[..|claims| - 1] == LocalCounts(file, claims[..|claims| - 1]);
    }
  }

  /**
   * The claim of the program's header comment: when the instances' locked
   * chunks partition the chunks of the file (each chunk locked by exactly
   * one instance), their local counts add up to the zero bits of the whole file.
   */
  lemma PartitionCountsWholeFile(file: seq<int8>, claims: seq<set<nat>>)
    requires forall k :: 0 <= k < Passes(|file|, ChunkSize(|file|)) ==> Owners(claims, k) == 1
    ensures Sum(LocalCounts(file, claims)) == ZeroBitsIn(file)
  {
    var c := ChunkSize(|file|);
    var n := Passes(|file|, c);
    SumOfLocalCounts(file, claims);
    PartitionCountsPrefix(file, c, claims, n);
    assert file[..ChunkStart(|file|, c, n)] == file;
  }

  lemma ScenarioBytes()
    ensures ZeroBitsOf(0x0F) == 4 && ZeroBitsOf(-0x10) == 4 && ZeroBitsOf(0) == 8 && ZeroBitsOf(-1) == 0
  {
    assert ToUnsignedInt(-0x10) == 240 && ToUnsignedInt(-1) == 255;
    assert BitCount(15) == 4;
    assert BitCount(30) == 4 && BitCount(60) == 4 && BitCount(120) == 4 && BitCount(240) == 4;
    ZeroBitsOfExtremes(0);
    ZeroBitsOfExtremes(-1);
  }

  lemma HalfHoldsSixteen()
    ensures ZeroBitsIn([0x0F, -0x10, 0x00, -1]) == 16
  {
    ScenarioBytes();
    FourBytes(0x0F, -0x10, 0x00, -1);
  }

  lemma FourBytes(w: int8, x: int8, y: int8, z: int8)
    ensures ZeroBitsIn([w, x, y, z]) == ZeroBitsOf(w) + ZeroBitsOf(x) + ZeroBitsOf(y) + ZeroBitsOf(z)
  {
    var s4, s3, s2 := [w, x, y, z], [w, x, y], [w, x];
    assert s4[..3] == s3 && s4[3] == z;
    assert s3[..2] == s2 && s3[2] == y;
    assert s2[..1] == [w] && s2[1] == x;
    OneByte(w);
    assert ZeroBitsIn(s2) == ZeroBitsOf(w) + ZeroBitsOf(x);
    assert ZeroBitsIn(s3) == ZeroBitsIn(s2) + ZeroBitsOf(y);
  }

  lemma OneByte(b: int8)
    ensures ZeroBitsIn([b]) == ZeroBitsOf(b)
  {
    assert [b][..0] == [];
  }

  /** A 16-byte file of 0xFF bytes has no zero bits; one of 0x00 bytes has 128; one chunk covers each. */
  lemma SixteenByteFiles()
    ensures ChunkSize(16) == 16 && Passes(16, 16) == 1
    ensures InstanceZeroBits(seq(16, _ => -1), {0}) == 0
    ensures InstanceZeroBits(seq(16, _ => 0), {0}) == 128
  {
    ZeroBitsOfExtremes(-1);
    ZeroBitsOfExtremes(0);
    ZeroBitsInRepeated(-1, 16);
    ZeroBitsInRepeated(0, 16);
    AllLocksCountWholeFile(seq(16, _ => -1), {0});
    AllLocksCountWholeFile(seq(16, _ => 0), {0});
  }

  /** A file made of two equal halves, cut into chunks of one half each: each half's owner counts exactly that half. */
  lemma TwoEqualHalves(half: seq<int8>)
    requires |half| > 0
    ensures var file := half + half;
            && ClaimedZeroBits(file, |half|, {0}, 2) == ZeroBitsIn(half)
            && ClaimedZeroBits(file, |half|, {1}, 2) == ZeroBitsIn(half)
            && ZeroBitsIn(file) == 2 * ZeroBitsIn(half)
  {
    var file, c := half + half, |half|;
    assert file[0..c] == half && file[c..2 * c] == half;
    assert Offset(c, 1) == c && Offset(c, 2) == 2 * c;
    assert ChunkZeroBits(file, c, 0) == ZeroBitsIn(half);
    assert ChunkZeroBits(file, c, 1) == ZeroBitsIn(half);
    assert ClaimedZeroBits(file, c, {0}, 1) == ZeroBitsIn(half);
    assert ClaimedZeroBits(file, c, {1}, 1) == 0;
    ZeroBitsInConcat(half, half);
  }

  /**
   * The 8-byte file 0F F0 00 FF 0F F0 00 FF cut into chunks of 4 bytes and
   * split between two instances that each lock one half: each half holds
   * 16 zero bits, and together they hold the file's 32. The program itself
   * never cuts this file in two (see `EightByteFileIsOneChunk`).
   */
  lemma TwoHalvesScenario()
    ensures var file: seq<int8> := [0x0F, -0x10, 0x00, -1] + [0x0F, -0x10, 0x00, -1];
            && ClaimedZeroBits(file, 4, {0}, 2) == 16
            && ClaimedZeroBits(file, 4, {1}, 2) == 16
            && ZeroBitsIn(file) == 32
  {
    HalfHoldsSixteen();
    TwoEqualHalves([0x0F, -0x10, 0x00, -1]);
  }

  /**
   * What the program does with that 8-byte file: the chunk is the whole
   * file, so there is one pass; the instance that locks it counts all 32
   * zero bits and any other instance counts none.
   */
  lemma EightByteFileIsOneChunk()
    ensures var file: seq<int8> := [0x0F, -0x10, 0x00, -1] + [0x0F, -0x10, 0x00, -1];
            && ChunkSize(8) == 8 && Passes(8, 8) == 1
            && InstanceZeroBits(file, {0}) == 32
            && InstanceZeroBits(file, {}) == 0
  {
    var file: seq<int8> := [0x0F, -0x10, 0x00, -1] + [0x0F, -0x10, 0x00, -1];
    TwoHalvesScenario();
    AllLocksCountWholeFile(file, {0});
    NothingClaimedNothingCounted(file, 8, 1);
  }
}
