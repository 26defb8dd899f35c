/**
 * Bit arithmetic of the chunk scanner: Java's signed `byte`,
 * `Byte.toUnsignedInt`, `Integer.bitCount`, and the number of zero bits
 * of one byte and of a run of bytes.
 */
module Bits {

  /** A Java `byte`: a signed 8-bit value, as `MappedByteBuffer.get()` returns it. */
  newtype int8 = x: int | -128 <= x < 128

  /** `Byte.toUnsignedInt`: the value in 0..255 that has the same eight bits as `b`. */
  function ToUnsignedInt(b: int8): (u: nat)
    ensures u < 256
    ensures (u - b as int) % 256 == 0
  {
    if b < 0 then b as int + 256 else b as int
  }

  /** 2 to the power `w`. */
  function Pow2(w: nat): (r: nat)
    ensures r >= 1
  {
    if w == 0 then 1 else 2 * Pow2(w - 1)
  }

  /** `Integer.bitCount` on a non-negative value: the number of 1 bits of `x`. */
  function BitCount(x: nat): (ones: nat)
  {
    if x == 0 then 0 else x % 2 + BitCount(x / 2)
  }

  /** Reference definition: how many of the `w` lowest bit positions of `x` hold a 0. */
  function ZeroBitsBelow(x: nat, w: nat): (zeros: nat)
  {
    if w == 0 then 0 else (if x % 2 == 0 then 1 else 0) + ZeroBitsBelow(x / 2, w - 1)
  }

  /** A value below 2^w has at most `w` one bits. */
  lemma {:induction false} BitCountBound(x: nat, w: nat)
    requires x < Pow2(w)
    ensures BitCount(x) <= w
  {
    if w > 0 && x > 0 {
      BitCountBound(x / 2, w - 1);
    }
  }

  /** Among the `w` low positions of a value below 2^w, every position holds a 1 or a 0. */
  lemma {:induction false} OnesAndZerosFillWidth(x: nat, w: nat)
    requires x < Pow2(w)
    ensures BitCount(x) + ZeroBitsBelow(x, w) == w
  {
    if w > 0 {
      OnesAndZerosFillWidth(x / 2, w - 1);
      assert BitCount(x) == x % 2 + BitCount(x / 2);
    }
  }

  /** Only 0 has no one bits. */
  lemma {:induction false} NoOnesOnlyForZero(x: nat)
    ensures BitCount(x) == 0 <==> x == 0
  {
    if x > 0 && x % 2 == 0 {
      NoOnesOnlyForZero(x / 2);
    }
  }

  /** Below 2^w, only 2^w - 1 has all `w` bits set. */
  lemma {:induction false} AllOnesOnlyForMax(x: nat, w: nat)
    requires x < Pow2(w)
    ensures BitCount(x) == w <==> x == Pow2(w) - 1
  {
    if w > 0 {
      AllOnesOnlyForMax(x / 2, w - 1);
      BitCountBound(x / 2, w - 1);
      assert BitCount(x) == x % 2 + BitCount(x / 2);
    }
  }

  lemma ByteWidth()
    ensures Pow2(8) == 256
  {
  }

  /**
   * The zero bits of one byte, `8 - Integer.bitCount(Byte.toUnsignedInt(b))`:
   * exactly the number of its eight bit positions that hold a 0.
   */
  function ZeroBitsOf(b: int8): (z: nat)
    ensures z <= 8
    ensures z == ZeroBitsBelow(ToUnsignedInt(b), 8)
  {
    ByteWidth();
    OnesAndZerosFillWidth(ToUnsignedInt(b), 8);
    8 - BitCount(ToUnsignedInt(b))
  }

  /** A byte has all eight bits zero exactly when it is 0x00, and none exactly when it is 0xFF (-1 as a Java byte). */
  lemma ZeroBitsOfExtremes(b: int8)
    ensures ZeroBitsOf(b) == 8 <==> b == 0
    ensures ZeroBitsOf(b) == 0 <==> b == -1
  {
    ByteWidth();
    NoOnesOnlyForZero(ToUnsignedInt(b));
    AllOnesOnlyForMax(ToUnsignedInt(b), 8);
  }

  /** The zero bits of a run of bytes: the sum of the zero bits of each byte, at most 8 per byte. */
  function ZeroBitsIn(s: seq<int8>): (z: nat)
    ensures z <= 8 * |s|
  {
    if |s| == 0 then 0 else ZeroBitsIn(s[..|s| - 1]) + ZeroBitsOf(s[|s| - 1])
  }

  /** Counting is additive: the bits of a concatenation are the bits of its parts. */
  lemma {:induction false} ZeroBitsInConcat(a: seq<int8>, b: seq<int8>)
    ensures ZeroBitsIn(a + b) == ZeroBitsIn(a) + ZeroBitsIn(b)
  {
    if |b| > 0 {
      assert (a + b)[..|a + b| - 1] == a + b[..|b| - 1];
      ZeroBitsInConcat(a, b[..|b| - 1]);
    } else {
      assert a + b == a;
    }
  }

  /** `n` copies of one byte hold `n` times its zero bits. */
  lemma {:induction false} ZeroBitsInRepeated(b: int8, n: nat)
    ensures ZeroBitsIn(seq(n, _ => b)) == n * ZeroBitsOf(b)
  {
    if n > 0 {
      var s := seq(n, _ => b);
      assert s[..n - 1] == seq(n - 1, _ => b);
      ZeroBitsInRepeated(b, n - 1);
    }
  }

  /** Each byte of a run adds its own zero bits: one step of the scanning loop. */
  lemma ZeroBitsInExtend(s: seq<int8>, lo: nat, hi: nat)
    requires lo <= hi < |s|
    ensures ZeroBitsIn(s[lo..hi + 1]) == ZeroBitsIn(s[lo..hi]) + ZeroBitsOf(s[hi])
  {
    assert s[lo..hi + 1][..hi - lo] == s[lo..hi];
  }

  /** The bits of a prefix are the bits of a shorter prefix plus those of the bytes between. */
  lemma ZeroBitsInSplit(s: seq<int8>, lo: nat, hi: nat)
    requires lo <= hi <= |s|
    ensures ZeroBitsIn(s[..hi]) == ZeroBitsIn(s[..lo]) + ZeroBitsIn(s[lo..hi])
  {
    assert s[..hi] == s[..lo] + s[lo..hi];
    ZeroBitsInConcat(s[..lo], s[lo..hi]);
  }
}
