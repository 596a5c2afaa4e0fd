/**
  Integer distance measures between binary and byte descriptors
  (`DescriptorDistance.hamming` and `DescriptorDistance.sad` on `TupleDesc_U8`).

  A Java `int` is read through its 32-bit two's-complement pattern, held here as a
  natural number below 2^32; `^`, `&` and the population count are defined on that
  pattern bit by bit. A Java `byte` is read as unsigned through `& 0xFF`.
*/
module DescriptorDistance {

  /** A value of Java's 32-bit `int`. */
  type Int32 = x: int | -0x8000_0000 <= x < 0x8000_0000

  /** A value of Java's 8-bit `byte`. */
  type Int8 = x: int | -0x80 <= x < 0x80

  /** A 32-bit pattern read as an unsigned number. */
  type Word = x: nat | x < 0x1_0000_0000

  function Pow2(k: nat): (r: nat)
    ensures r >= 1
  {
    if k == 0 then 1 else 2 * Pow2(k - 1)
  }

  lemma Pow2Of32()
    ensures Pow2(32) == 0x1_0000_0000
  {
    assert Pow2(8) == 0x100;
    assert Pow2(16) == 0x1_0000;
    assert Pow2(24) == 0x100_0000;
  }

  /** The two's-complement bit pattern of a Java `int`. */
  function Pattern(x: Int32): (w: Word)
    ensures w % 0x1_0000_0000 == x % 0x1_0000_0000
  {
    if x < 0 then x + 0x1_0000_0000 else x
  }

  /** Bitwise exclusive or, bit by bit from the least significant. */
  function Xor(a: nat, b: nat): nat
    decreases a + b
  {
    if a == 0 && b == 0 then 0
    else (if a % 2 == b % 2 then 0 else 1) + 2 * Xor(a / 2, b / 2)
  }

  /** Bitwise and; it never exceeds either operand. */
  function And(a: nat, b: nat): (r: nat)
    ensures r <= a && r <= b
  {
    if a == 0 || b == 0 then 0
    else (if a % 2 == 1 && b % 2 == 1 then 1 else 0) + 2 * And(a / 2, b / 2)
  }

  /** Number of set bits. */
  function PopCount(x: nat): nat
  {
    if x == 0 then 0 else x % 2 + PopCount(x / 2)
  }

  /** The specification of `hamming(int,int)`: the number of bit positions in which `a` and `b` differ. */
  function BitDistance(a: Int32, b: Int32): nat
  {
    PopCount(Xor(Pattern(a), Pattern(b)))
  }

  lemma {:induction false} XorBound(a: nat, b: nat, k: nat)
    requires a < Pow2(k) && b < Pow2(k)
    ensures Xor(a, b) < Pow2(k)
    decreases k
  {
    if a == 0 && b == 0 {
    } else if k == 0 {
    } else {
      XorBound(a / 2, b / 2, k - 1);
    }
  }

  lemma {:induction false} XorCommutes(a: nat, b: nat)
    ensures Xor(a, b) == Xor(b, a)
    decreases a + b
  {
    if a == 0 && b == 0 {
    } else {
      XorCommutes(a / 2, b / 2);
    }
  }

  lemma {:induction false} XorZero(a: nat, b: nat)
    ensures Xor(a, b) == 0 <==> a == b
    decreases a + b
  {
    if a == 0 && b == 0 {
    } else {
      XorZero(a / 2, b / 2);
    }
  }

  lemma {:induction false} PopCountZero(x: nat)
    ensures PopCount(x) == 0 <==> x == 0
  {
    if x != 0 && x % 2 == 0 {
      PopCountZero(x / 2);
    }
  }

  lemma {:induction false} PopCountBound(x: nat, k: nat)
    requires x < Pow2(k)
    ensures PopCount(x) <= k
    decreases k
  {
    if x != 0 {
      PopCountBound(x / 2, k - 1);
    }
  }

  /** `v & (v - 1)` clears exactly the lowest set bit of a non-zero `v`. */
  lemma {:induction false} ClearLowestSetBit(v: nat)
    requires v > 0
    ensures And(v, v - 1) < v
    ensures PopCount(And(v, v - 1)) == PopCount(v) - 1
  {
    if v % 2 == 1 {
      assert And(v, v - 1) == 2 * And(v / 2, (v - 1) / 2);
      assert (v - 1) / 2 == v / 2;
      AndSelf(v / 2);
      assert PopCount(v - 1) == PopCount((v - 1) / 2);
    } else {
      assert (v - 1) / 2 == v / 2 - 1 && (v - 1) % 2 == 1;
      ClearLowestSetBit(v / 2);
      assert And(v, v - 1) == 2 * And(v / 2, v / 2 - 1);
    }
  }

  lemma {:induction false} AndSelf(a: nat)
    ensures And(a, a) == a
  {
    if a != 0 {
      AndSelf(a / 2);
    }
  }

  /** `hamming(a, b)`: Kernighan's loop over the differing bits; one iteration per set bit of `a ^ b`. */
  method Hamming(a: Int32, b: Int32) returns (distance: int)
    ensures distance == BitDistance(a, b)
    ensures 0 <= distance <= 32
  {
    distance := 0;
    Pow2Of32();
    XorBound(Pattern(a), Pattern(b), 32);
    var val: Word := Xor(Pattern(a), Pattern(b));
    PopCountBound(val, 32);
    while val != 0
      invariant distance + PopCount(val) == BitDistance(a, b)
      invariant 0 <= distance
      decreases PopCount(val)
    {
      ClearLowestSetBit(val);
      val := And(val, val - 1);
      distance := distance + 1;
    }
    HammingAtMost32(a, b);
  }

  lemma HammingAtMost32(a: Int32, b: Int32)
    ensures BitDistance(a, b) <= 32
  {
    Pow2Of32();
    XorBound(Pattern(a), Pattern(b), 32);
    PopCountBound(Xor(Pattern(a), Pattern(b)), 32);
  }

  lemma HammingSymmetric(a: Int32, b: Int32)
    ensures BitDistance(a, b) == BitDistance(b, a)
  {
    XorCommutes(Pattern(a), Pattern(b));
  }

  lemma HammingZeroIff(a: Int32, b: Int32)
    ensures BitDistance(a, b) == 0 <==> a == b
  {
    XorZero(Pattern(a), Pattern(b));
    PopCountZero(Xor(Pattern(a), Pattern(b)));
  }

  /** Sum of the per-word distances over the first `n` words. */
  function WordsDistance(a: seq<Int32>, b: seq<Int32>, n: nat): nat
    requires n <= |a| && n <= |b|
  {
    if n == 0 then 0 else WordsDistance(a, b, n - 1) + BitDistance(a[n - 1], b[n - 1])
  }

  lemma {:induction false} WordsDistanceBound(a: seq<Int32>, b: seq<Int32>, n: nat)
    requires n <= |a| && n <= |b|
    ensures WordsDistance(a, b, n) <= 32 * n
  {
    if n > 0 {
      WordsDistanceBound(a, b, n - 1);
      HammingAtMost32(a[n - 1], b[n - 1]);
    }
  }

  lemma {:induction false} WordsDistanceSymmetric(a: seq<Int32>, b: seq<Int32>, n: nat)
    requires n <= |a| && n <= |b|
    ensures WordsDistance(a, b, n) == WordsDistance(b, a, n)
  {
    if n > 0 {
      WordsDistanceSymmetric(a, b, n - 1);
      HammingSymmetric(a[n - 1], b[n - 1]);
    }
  }

  /**
    `hamming(BriefFeature, BriefFeature)`: the distance over the words of `a`;
    `b` must have at least as many words (the source indexes `b.data` with `a`'s length).
  */
  method HammingBrief(a: seq<Int32>, b: seq<Int32>) returns (score: int)
    requires |b| >= |a|
    ensures score == WordsDistance(a, b, |a|)
    ensures 0 <= score <= 32 * |a|
  {
    score := 0;
    var i := 0;
    while i < |a|
      invariant 0 <= i <= |a|
      invariant score == WordsDistance(a, b, i)
    {
      var d := Hamming(a[i], b[i]);
      score := score + d;
      i := i + 1;
    }
    WordsDistanceBound(a, b, |a|);
  }

  /** A `byte` read as unsigned (`b & 0xFF`). */
  function Unsigned(x: Int8): (u: nat)
    ensures u < 256
    ensures u % 256 == x % 256
  {
    if x < 0 then x + 256 else x
  }

  function AbsDiff(x: int, y: int): nat
  {
    if x < y then y - x else x - y
  }

  /** Sum of absolute differences of the unsigned bytes over the first `n` positions. */
  function SumAbsDiff(a: seq<Int8>, b: seq<Int8>, n: nat): nat
    requires n <= |a| && n <= |b|
  {
    if n == 0 then 0 else SumAbsDiff(a, b, n - 1) + AbsDiff(Unsigned(a[n - 1]), Unsigned(b[n - 1]))
  }

  lemma {:induction false} SumAbsDiffBound(a: seq<Int8>, b: seq<Int8>, n: nat)
    requires n <= |a| && n <= |b|
    ensures SumAbsDiff(a, b, n) <= 255 * n
  {
    if n > 0 {
      SumAbsDiffBound(a, b, n - 1);
    }
  }

  lemma {:induction false} SadSymmetric(a: seq<Int8>, b: seq<Int8>, n: nat)
    requires n <= |a| && n <= |b|
    ensures SumAbsDiff(a, b, n) == SumAbsDiff(b, a, n)
  {
    if n > 0 {
      SadSymmetric(a, b, n - 1);
    }
  }

  /** The distance is zero exactly when the first `n` bytes agree. */
  lemma {:induction false} SadZeroIff(a: seq<Int8>, b: seq<Int8>, n: nat)
    requires n <= |a| && n <= |b|
    ensures SumAbsDiff(a, b, n) == 0 <==> a[..n] == b[..n]
  {
    if n > 0 {
      SadZeroIff(a, b, n - 1);
      assert a[..n] == a[..n - 1] + [a[n - 1]];
      assert b[..n] == b[..n - 1] + [b[n - 1]];
      if a[..n] == b[..n] {
        assert a[..n - 1] == a[..n][..n - 1];
        assert b[..n - 1] == b[..n][..n - 1];
        assert a[n - 1] == a[..n][n - 1];
        assert b[n - 1] == b[..n][n - 1];
      }
    }
  }

  /** `sad(TupleDesc_U8, TupleDesc_U8)`; `b` must be at least as long as `a`. */
  method Sad(a: seq<Int8>, b: seq<Int8>) returns (total: int)
    requires |b| >= |a|
    ensures total == SumAbsDiff(a, b, |a|)
    ensures 0 <= total <= 255 * |a|
  {
    total := 0;
    var i := 0;
    while i < |a|
      invariant 0 <= i <= |a|
      invariant total == SumAbsDiff(a, b, i)
    {
      var x := Unsigned(a[i]);
      var y := Unsigned(b[i]);
      total := total + (if x < y then y - x else x - y);
      i := i + 1;
    }
    SumAbsDiffBound(a, b, |a|);
  }
}
