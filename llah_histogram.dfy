/**
  The integer part of `learnHashing`: every invariant value falls into a clamped bin
  of a fine histogram, and a warning is raised when the last bin holds more than
  `0.5 / numDiscrete` of the mass. The floating-point bin arithmetic itself is an
  input here (the raw bin index); the clamping, the counting and the threshold test
  are modelled.
*/
module LlahHistogram {

  /** `Math.min(length - 1, raw)`. */
  function ClampBin(length: int, raw: int): int
  {
    if raw < length - 1 then raw else length - 1
  }

  /** Clamping never goes past the last bin, keeps every raw index below it, and sends the rest to it. */
  lemma ClampBinSpec(length: int, raw: int)
    ensures ClampBin(length, raw) <= length - 1
    ensures raw < length - 1 ==> ClampBin(length, raw) == raw
    ensures raw >= length - 1 ==> ClampBin(length, raw) == length - 1
  {
  }

  /** Clamped bins of a sequence of raw bin indices. */
  function ClampAll(length: int, raws: seq<int>): (bins: seq<int>)
    ensures |bins| == |raws|
    ensures forall k :: 0 <= k < |raws| ==> bins[k] == ClampBin(length, raws[k])
  {
    seq(|raws|, k requires 0 <= k < |raws| => ClampBin(length, raws[k]))
  }

  /** How many entries of `bins` equal `j`. */
  function Occurrences(bins: seq<int>, j: int): nat
  {
    if bins == [] then 0
    else Occurrences(bins[..|bins| - 1], j) + (if bins[|bins| - 1] == j then 1 else 0)
  }

  /** The histogram of `bins` over `0..length-1`. */
  function Tally(length: nat, bins: seq<int>): (h: seq<int>)
    ensures |h| == length
  {
    seq(length, j requires 0 <= j < length => Occurrences(bins, j))
  }

  /** Sum of all counters (`IntStream.of(histogram).sum()`). */
  function Total(h: seq<int>): int
  {
    if h == [] then 0 else Total(h[..|h| - 1]) + h[|h| - 1]
  }

  /** Counting one more value increments exactly its bin (`histogram[j]++`). */
  lemma TallySnoc(length: nat, bins: seq<int>, b: int)
    requires 0 <= b < length
    ensures Tally(length, bins + [b]) == Tally(length, bins)[b := Tally(length, bins)[b] + 1]
  {
    assert (bins + [b])[..|bins|] == bins;
  }

  lemma {:induction false} TotalIncrement(h: seq<int>, b: nat)
    requires b < |h|
    ensures Total(h[b := h[b] + 1]) == Total(h) + 1
  {
    var h' := h[b := h[b] + 1];
    if b == |h| - 1 {
      assert h'[..|h'| - 1] == h[..|h| - 1];
    } else {
      assert h'[..|h'| - 1] == h[..|h| - 1][b := h[b] + 1];
      TotalIncrement(h[..|h| - 1], b);
    }
  }

  lemma {:induction false} TotalZero(h: seq<int>)
    requires forall j :: 0 <= j < |h| ==> h[j] == 0
    ensures Total(h) == 0
  {
    if h != [] {
      TotalZero(h[..|h| - 1]);
    }
  }

  /** With every bin in range, the histogram holds exactly one count per value: nothing lost, nothing doubled. */
  lemma {:induction false} TallyTotal(length: nat, bins: seq<int>)
    requires forall k :: 0 <= k < |bins| ==> 0 <= bins[k] < length
    ensures Total(Tally(length, bins)) == |bins|
  {
    if bins == [] {
      TotalZero(Tally(length, bins));
    } else {
      var init := bins[..|bins| - 1];
      var b := bins[|bins| - 1];
      assert bins == init + [b];
      TallyTotal(length, init);
      TallySnoc(length, init, b);
      TotalIncrement(Tally(length, init), b);
    }
  }

  /** How many raw indices reach at least `limit`. */
  function CountAtLeast(raws: seq<int>, limit: int): nat
  {
    if raws == [] then 0
    else CountAtLeast(raws[..|raws| - 1], limit) + (if raws[|raws| - 1] >= limit then 1 else 0)
  }

  /** The last bin collects every value whose raw index is at or past it: values beyond the range pile up there. */
  lemma {:induction false} LastBinCollectsOverflow(length: nat, raws: seq<int>)
    requires length > 0
    ensures Occurrences(ClampAll(length, raws), length - 1) == CountAtLeast(raws, length - 1)
  {
    if raws != [] {
      var init := raws[..|raws| - 1];
      assert ClampAll(length, raws)[..|raws| - 1] == ClampAll(length, init);
      LastBinCollectsOverflow(length, init);
    }
  }

  /**
    The sanity check `last / total > 0.5 / numDiscrete`, taken over the reals.
    With no mass the fraction is NaN and with `numDiscrete == 0` the bound is
    +Infinity: in both cases the comparison is false.
  */
  function Saturated(last: int, total: int, numDiscrete: int): bool
  {
    if total == 0 || numDiscrete == 0 then false
    else (last as real) / (total as real) > 0.5 / (numDiscrete as real)
  }

  /** For a positive mass and bucket count the check is the integer test `2 * last * numDiscrete > total`. */
  lemma SaturatedIff(last: int, total: int, numDiscrete: int)
    requires total > 0 && numDiscrete > 0
    ensures Saturated(last, total, numDiscrete) <==> 2 * last * numDiscrete > total
  {
    var t := total as real;
    var n := numDiscrete as real;
    var f := (last as real) / t;
    var m := 0.5 / n;
    assert f * t == last as real;
    assert m * n == 0.5;
    calc {
      f > m;
    <==> { PositiveScale(f, m, t * n); }
      f * (t * n) > m * (t * n);
    <==> { assert f * (t * n) == (f * t) * n; assert m * (t * n) == (m * n) * t; }
      (last as real) * n > 0.5 * t;
    <==>
      2.0 * (last as real) * n > t;
    }
    assert (2 * last * numDiscrete) as real == 2.0 * (last as real) * n;
  }

  lemma PositiveScale(a: real, b: real, c: real)
    requires c > 0.0
    ensures a > b <==> a * c > b * c
  {
    if a > b {
      assert (a - b) * c > 0.0;
    } else {
      assert (b - a) * c >= 0.0;
    }
  }

  /** When every value clips into the last bin, the warning fires for any positive number of buckets. */
  lemma AllClippedWarns(length: nat, raws: seq<int>, numDiscrete: int)
    requires length > 0 && |raws| > 0 && numDiscrete > 0
    requires forall k :: 0 <= k < |raws| ==> raws[k] >= length - 1
    ensures Saturated(CountAtLeast(raws, length - 1), |raws|, numDiscrete)
  {
    AllAtLeast(raws, length - 1);
    SaturatedIff(|raws|, |raws|, numDiscrete);
  }

  lemma {:induction false} AllAtLeast(raws: seq<int>, limit: int)
    requires forall k :: 0 <= k < |raws| ==> raws[k] >= limit
    ensures CountAtLeast(raws, limit) == |raws|
  {
    if raws != [] {
      AllAtLeast(raws[..|raws| - 1], limit);
    }
  }

  /** Every raw index clamps to a bin the histogram has: the histogram is not empty and no index is negative. */
  predicate InBins(length: int, raws: seq<int>)
  {
    forall k :: 0 <= k < |raws| ==> 0 <= ClampBin(length, raws[k])
  }

  /** Clamping fails for a value exactly when there is no bin at all or its raw index is negative. */
  lemma InBinsIff(length: nat, raws: seq<int>)
    ensures InBins(length, raws) <==> raws == [] || (length > 0 && forall k :: 0 <= k < |raws| ==> raws[k] >= 0)
  {
    if length == 0 && raws != [] {
      assert ClampBin(length, raws[0]) < 0;
    }
  }

  /** The values of two lists all clamp into the histogram exactly when those of each list do. */
  lemma InBinsAppend(length: int, a: seq<int>, b: seq<int>)
    ensures InBins(length, a + b) <==> InBins(length, a) && InBins(length, b)
  {
    if InBins(length, a + b) {
      forall k | 0 <= k < |a| ensures 0 <= ClampBin(length, a[k]) {
        assert (a + b)[k] == a[k];
      }
      forall k | 0 <= k < |b| ensures 0 <= ClampBin(length, b[k]) {
        assert (a + b)[|a| + k] == b[k];
      }
    }
  }

  /** Clamped indices that are not negative are bins of the histogram. */
  lemma ClampedInRange(length: nat, raws: seq<int>)
    requires InBins(length, raws)
    ensures forall k :: 0 <= k < |raws| ==> 0 <= ClampAll(length, raws)[k] < length
  {
  }

  /**
    The inner loop of `learnHashing` for one probe: the raw bin of each invariant is clamped
    with `Math.min(histogram.length - 1, raw)` and that counter is incremented. A negative
    index stops the loop as the array access throws.
  */
  method TallyInvariants(histogram: array<int>, ghost seen: seq<int>, inv: seq<real>, rawBin: real -> int)
    returns (ok: bool)
    requires histogram[..] == Tally(histogram.Length, ClampAll(histogram.Length, seen))
    modifies histogram
    ensures ok <==> InBins(histogram.Length, Map(inv, rawBin))
    ensures ok ==> histogram[..] == Tally(histogram.Length, ClampAll(histogram.Length, seen + Map(inv, rawBin)))
  {
    ghost var bins := Map(inv, rawBin);
    assert seen + bins[..0] == seen;
    var i := 0;
    while i < |inv|
      invariant 0 <= i <= |inv|
      invariant InBins(histogram.Length, bins[..i])
      invariant histogram[..] == Tally(histogram.Length, ClampAll(histogram.Length, seen + bins[..i]))
    {
      var raw := rawBin(inv[i]);
      var j := if raw < histogram.Length - 1 then raw else histogram.Length - 1;
      if j < 0 {
        assert ClampBin(histogram.Length, bins[i]) < 0;
        return false;
      }
      InBinsSnoc(histogram.Length, bins, i);
      TallyStep(histogram.Length, seen, bins, i);
      histogram[j] := histogram[j] + 1;
      i := i + 1;
    }
    assert bins[..i] == bins;
    return true;
  }

  lemma InBinsSnoc(length: int, bins: seq<int>, i: nat)
    requires i < |bins| && InBins(length, bins[..i]) && 0 <= ClampBin(length, bins[i])
    ensures InBins(length, bins[..i + 1])
  {
    assert forall k :: 0 <= k < i ==> bins[..i + 1][k] == bins[..i][k];
  }

  /** Counting raw index `bins[i]` after `seen + bins[..i]` increments its clamped bin. */
  lemma TallyStep(length: nat, seen: seq<int>, bins: seq<int>, i: nat)
    requires i < |bins| && 0 <= ClampBin(length, bins[i]) < length
    ensures Tally(length, ClampAll(length, seen + bins[..i + 1])) ==
      Tally(length, ClampAll(length, seen + bins[..i]))[ClampBin(length, bins[i]) := Tally(length, ClampAll(length, seen + bins[..i]))[ClampBin(length, bins[i])] + 1]
  {
    var prefix := seen + bins[..i];
    var j := ClampBin(length, bins[i]);
    assert seen + bins[..i + 1] == prefix + [bins[i]];
    assert ClampAll(length, prefix + [bins[i]]) == ClampAll(length, prefix) + [j];
    TallySnoc(length, ClampAll(length, prefix), j);
  }

  /** The raw bin index of each invariant (`(int) (length * v / maxInvariantValue)`). */
  function Map(inv: seq<real>, rawBin: real -> int): (bins: seq<int>)
    ensures |bins| == |inv|
    ensures forall i :: 0 <= i < |inv| ==> bins[i] == rawBin(inv[i])
  {
    seq(|inv|, i requires 0 <= i < |inv| => rawBin(inv[i]))
  }

  /** `IntStream.of(histogram).sum()`. */
  method SumHistogram(histogram: array<int>) returns (total: int)
    ensures total == Total(histogram[..])
  {
    total := 0;
    var i := 0;
    while i < histogram.Length
      invariant 0 <= i <= histogram.Length
      invariant total == Total(histogram[..i])
    {
      assert histogram[..i + 1][..i] == histogram[..i];
      total := total + histogram[i];
      i := i + 1;
    }
    assert histogram[..i] == histogram[..];
  }
}
