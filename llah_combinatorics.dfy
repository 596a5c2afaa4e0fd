/**
  The discrete enumeration behind LLAH features: the size-M combinations of a
  point's N angularly sorted neighbours (ddogleg's `Combinations`, modelled as the
  lexicographic list of strictly increasing index tuples), the M cyclic rotations
  of each combination, and the order in which `computeAllFeatures` visits them.
*/
module LlahCombinatorics {

  function Binomial(n: nat, k: nat): nat
  {
    if k == 0 then 1 else if n == 0 then 0 else Binomial(n - 1, k - 1) + Binomial(n - 1, k)
  }

  /** `c` is a strictly increasing tuple of indices in `lo..hi-1`. */
  predicate IsCombination(c: seq<nat>, lo: nat, hi: nat)
  {
    (forall i :: 0 <= i < |c| ==> lo <= c[i] < hi) &&
    (forall i, j :: 0 <= i < j < |c| ==> c[i] < c[j])
  }

  function PrependAll(x: nat, cs: seq<seq<nat>>): (r: seq<seq<nat>>)
    ensures |r| == |cs|
    ensures forall i :: 0 <= i < |cs| ==> r[i] == [x] + cs[i]
  {
    seq(|cs|, i requires 0 <= i < |cs| => [x] + cs[i])
  }

  /** All strictly increasing `k`-tuples over `lo..hi-1`, in lexicographic order. */
  function Combinations(lo: nat, hi: nat, k: nat): seq<seq<nat>>
    decreases hi - lo, k
  {
    if k == 0 then [[]]
    else if lo >= hi then []
    else PrependAll(lo, Combinations(lo + 1, hi, k - 1)) + Combinations(lo + 1, hi, k)
  }

  /** There are C(hi-lo, k) of them. */
  lemma {:induction false} CombinationsCount(lo: nat, hi: nat, k: nat)
    requires lo <= hi
    ensures |Combinations(lo, hi, k)| == Binomial(hi - lo, k)
    decreases hi - lo, k
  {
    if k == 0 {
    } else if lo == hi {
    } else {
      CombinationsCount(lo + 1, hi, k - 1);
      CombinationsCount(lo + 1, hi, k);
    }
  }

  /** Every entry of `cs` is a strictly increasing `k`-tuple over `lo..hi-1`. */
  predicate AllCombinations(cs: seq<seq<nat>>, k: nat, lo: nat, hi: nat)
  {
    forall i :: 0 <= i < |cs| ==> |cs[i]| == k && IsCombination(cs[i], lo, hi)
  }

  /** Every listed tuple has length `k` and is a strictly increasing tuple over `lo..hi-1`. */
  lemma {:induction false} CombinationsSound(lo: nat, hi: nat, k: nat)
    ensures AllCombinations(Combinations(lo, hi, k), k, lo, hi)
    decreases hi - lo, k
  {
    if k > 0 && lo < hi {
      CombinationsSound(lo + 1, hi, k - 1);
      CombinationsSound(lo + 1, hi, k);
      PrependAllSound(lo, Combinations(lo + 1, hi, k - 1), hi, k - 1);
      WidenAll(Combinations(lo + 1, hi, k), k, lo, hi);
      AppendAll(PrependAll(lo, Combinations(lo + 1, hi, k - 1)), Combinations(lo + 1, hi, k), k, lo, hi);
    }
  }

  lemma AppendAll(a: seq<seq<nat>>, b: seq<seq<nat>>, k: nat, lo: nat, hi: nat)
    requires AllCombinations(a, k, lo, hi) && AllCombinations(b, k, lo, hi)
    ensures AllCombinations(a + b, k, lo, hi)
  {
    forall i | 0 <= i < |a + b| ensures |(a + b)[i]| == k && IsCombination((a + b)[i], lo, hi) {
      if i >= |a| { assert (a + b)[i] == b[i - |a|]; }
    }
  }

  lemma WidenAll(cs: seq<seq<nat>>, k: nat, lo: nat, hi: nat)
    requires AllCombinations(cs, k, lo + 1, hi)
    ensures AllCombinations(cs, k, lo, hi)
  {
    forall i | 0 <= i < |cs| ensures IsCombination(cs[i], lo, hi) {
      WidenCombination(cs[i], lo, hi);
    }
  }

  /** Putting `x` in front of combinations over `x+1..hi-1` gives combinations over `x..hi-1`. */
  lemma PrependAllSound(x: nat, cs: seq<seq<nat>>, hi: nat, k: nat)
    requires x < hi && AllCombinations(cs, k, x + 1, hi)
    ensures AllCombinations(PrependAll(x, cs), k + 1, x, hi)
  {
    forall i | 0 <= i < |cs| ensures IsCombination(PrependAll(x, cs)[i], x, hi) {
      PrependCombination(x, cs[i], hi);
    }
  }

  lemma PrependCombination(x: nat, c: seq<nat>, hi: nat)
    requires x < hi && IsCombination(c, x + 1, hi)
    ensures IsCombination([x] + c, x, hi)
  {
    var d := [x] + c;
    forall i, j | 0 <= i < j < |d| ensures d[i] < d[j] {
      if i > 0 { assert d[i] == c[i - 1] && d[j] == c[j - 1]; } else { assert d[j] == c[j - 1]; }
    }
    forall i | 0 <= i < |d| ensures x <= d[i] < hi {
      if i > 0 { assert d[i] == c[i - 1]; }
    }
  }

  lemma WidenCombination(c: seq<nat>, lo: nat, hi: nat)
    requires IsCombination(c, lo + 1, hi)
    ensures IsCombination(c, lo, hi)
  {
  }

  /** Every strictly increasing `k`-tuple over `lo..hi-1` is listed. */
  lemma {:induction false} CombinationsComplete(lo: nat, hi: nat, k: nat, c: seq<nat>)
    requires |c| == k && IsCombination(c, lo, hi)
    ensures c in Combinations(lo, hi, k)
    decreases hi - lo, k
  {
    if k == 0 {
      assert c == [];
    } else if c[0] == lo {
      var rest := DropHead(c, lo, hi);
      CombinationsComplete(lo + 1, hi, k - 1, rest);
      PrependIn(lo, Combinations(lo + 1, hi, k - 1), rest);
    } else {
      RaiseLow(c, lo, hi);
      CombinationsComplete(lo + 1, hi, k, c);
    }
  }

  /** A combination over `lo..hi-1` that starts with `lo` is `lo` followed by one over `lo+1..hi-1`. */
  lemma DropHead(c: seq<nat>, lo: nat, hi: nat) returns (rest: seq<nat>)
    requires |c| > 0 && c[0] == lo && IsCombination(c, lo, hi)
    ensures c == [lo] + rest && |rest| == |c| - 1 && IsCombination(rest, lo + 1, hi)
  {
    rest := c[1..];
    forall i | 0 <= i < |rest| ensures lo + 1 <= rest[i] < hi {
      assert rest[i] == c[i + 1] && c[0] < c[i + 1];
    }
  }

  /** A combination over `lo..hi-1` that does not start with `lo` is one over `lo+1..hi-1`. */
  lemma RaiseLow(c: seq<nat>, lo: nat, hi: nat)
    requires |c| > 0 && c[0] != lo && IsCombination(c, lo, hi)
    ensures IsCombination(c, lo + 1, hi)
  {
    forall i | 0 <= i < |c| ensures lo + 1 <= c[i] < hi {
      if i > 0 { assert c[0] < c[i]; }
    }
  }

  lemma PrependIn(x: nat, cs: seq<seq<nat>>, c: seq<nat>)
    requires c in cs
    ensures [x] + c in PrependAll(x, cs)
  {
    var i :| 0 <= i < |cs| && cs[i] == c;
    assert PrependAll(x, cs)[i] == [x] + c;
  }

  /** Rotation `i` of `s`: element `j` is `s[(i + j) % |s|]`. */
  function Rotation<T>(s: seq<T>, i: nat): (r: seq<T>)
    requires i < |s|
    ensures |r| == |s|
  {
    seq(|s|, j requires 0 <= j < |s| => s[(i + j) % |s|])
  }

  lemma ModStep(x: int, n: int)
    requires 0 < n && 0 <= x < 2 * n
    ensures x % n == if x < n then x else x - n
  {
    if x < n {
      ModBelow(x, n);
    } else {
      ModOnce(x, n);
    }
  }

  lemma ModBelow(x: int, n: int)
    requires 0 <= x < n
    ensures x % n == x
  {
  }

  lemma ModOnce(x: int, n: int)
    requires 0 < n <= x < 2 * n
    ensures x % n == x - n
  {
  }

  /** A rotation moves the first `i` elements to the back. */
  lemma RotationSplice<T>(s: seq<T>, i: nat)
    requires i < |s|
    ensures Rotation(s, i) == s[i..] + s[..i]
  {
    var n := |s|;
    var r := Rotation(s, i);
    var t := s[i..] + s[..i];
    assert |t| == n;
    forall j | 0 <= j < n ensures r[j] == t[j] {
      ModStep(i + j, n);
    }
  }

  /** Every rotation is a permutation of the combination it rotates. */
  lemma RotationIsPermutation<T>(s: seq<T>, i: nat)
    requires i < |s|
    ensures multiset(Rotation(s, i)) == multiset(s)
  {
    RotationSplice(s, i);
    assert s == s[..i] + s[i..];
  }

  /** Rotating a rotation gives another rotation of the original: rotations differ only in starting point. */
  lemma RotationOfRotation<T>(s: seq<T>, a: nat, b: nat)
    requires a < |s| && b < |s|
    ensures Rotation(Rotation(s, a), b) == Rotation(s, (a + b) % |s|)
  {
    var n := |s|;
    var r := Rotation(s, a);
    ModStep(a + b, n);
    var c := (a + b) % n;
    var lhs := Rotation(r, b);
    var rhs := Rotation(s, c);
    forall j | 0 <= j < n ensures lhs[j] == rhs[j] {
      ModStep(b + j, n);
      ModStep(a + (b + j) % n, n);
      ModStep(c + j, n);
    }
  }

  /** Applying every rotation to a rotation of `s` yields exactly the rotations of `s`. */
  lemma RotationsClosed<T>(s: seq<T>, a: nat, b: nat)
    requires a < |s| && b < |s|
    ensures exists i :: 0 <= i < |s| && Rotation(Rotation(s, a), b) == Rotation(s, i)
  {
    RotationOfRotation(s, a, b);
  }

  /** One invocation of the per-permutation processor: the target point and the ordered M points. */
  datatype Probe<T> = Probe(pointID: nat, points: seq<T>)

  /** The points of `nbrs` at the positions listed in `c`. */
  function Select<T>(nbrs: seq<T>, c: seq<nat>): (r: seq<T>)
    requires forall i :: 0 <= i < |c| ==> c[i] < |nbrs|
    ensures |r| == |c|
    ensures forall i :: 0 <= i < |c| ==> r[i] == nbrs[c[i]]
  {
    seq(|c|, i requires 0 <= i < |c| => nbrs[c[i]])
  }

  /** Probes for rotations `0..upTo-1` of `setM`, in that order. */
  function Rotations<T>(id: nat, setM: seq<T>, upTo: nat): seq<Probe<T>>
    requires upTo <= |setM|
  {
    if upTo == 0 then [] else Rotations(id, setM, upTo - 1) + [Probe(id, Rotation(setM, upTo - 1))]
  }

  predicate IndicesBelow(combos: seq<seq<nat>>, n: nat)
  {
    forall k, i :: 0 <= k < |combos| && 0 <= i < |combos[k]| ==> combos[k][i] < n
  }

  /** Probes for the first `upTo` combinations: each combination's rotations, combination by combination. */
  function CombinationProbes<T>(id: nat, nbrs: seq<T>, combos: seq<seq<nat>>, upTo: nat): seq<Probe<T>>
    requires upTo <= |combos| && IndicesBelow(combos, |nbrs|)
  {
    if upTo == 0 then []
    else
      var c := combos[upTo - 1];
      CombinationProbes(id, nbrs, combos, upTo - 1) + Rotations(id, Select(nbrs, c), |c|)
  }

  lemma CombinationsBelow(n: nat, m: nat)
    ensures IndicesBelow(Combinations(0, n, m), n)
  {
    var cs := Combinations(0, n, m);
    CombinationsSound(0, n, m);
    forall k, i | 0 <= k < |cs| && 0 <= i < |cs[k]| ensures cs[k][i] < n {
      assert IsCombination(cs[k], 0, n);
    }
  }

  /** Everything the processor sees for the target point `id` with angularly sorted neighbours `nbrs`. */
  function PointProbes<T>(id: nat, nbrs: seq<T>, m: nat): seq<Probe<T>>
  {
    var combos := Combinations(0, |nbrs|, m);
    CombinationsBelow(|nbrs|, m);
    CombinationProbes(id, nbrs, combos, |combos|)
  }

  lemma {:induction false} RotationsAt<T>(id: nat, setM: seq<T>, upTo: nat)
    requires upTo <= |setM|
    ensures |Rotations(id, setM, upTo)| == upTo
    ensures forall i :: 0 <= i < upTo ==> Rotations(id, setM, upTo)[i] == Probe(id, Rotation(setM, i))
  {
    if upTo > 0 {
      RotationsAt(id, setM, upTo - 1);
    }
  }

  lemma MulSucc(a: nat, m: nat)
    ensures (a + 1) * m == a * m + m
  {
  }

  lemma MulMono(a: nat, b: nat, m: nat)
    requires a <= b
    ensures a * m <= b * m
  {
  }

  /** With every combination of length `m`, the first `upTo` combinations give `upTo * m` probes. */
  lemma {:induction false} CombinationProbesCount<T>(id: nat, nbrs: seq<T>, combos: seq<seq<nat>>, m: nat, upTo: nat)
    requires upTo <= |combos| && IndicesBelow(combos, |nbrs|)
    requires forall k :: 0 <= k < |combos| ==> |combos[k]| == m
    ensures |CombinationProbes(id, nbrs, combos, upTo)| == upTo * m
  {
    if upTo > 0 {
      CombinationProbesCount(id, nbrs, combos, m, upTo - 1);
      RotationsAt(id, Select(nbrs, combos[upTo - 1]), m);
      MulSucc(upTo - 1, m);
    }
  }

  /**
    Enumeration order: with every combination of length `m`, probe `k * m + i` is
    rotation `i` of combination `k`.
  */
  lemma {:induction false} CombinationProbesAt<T>(id: nat, nbrs: seq<T>, combos: seq<seq<nat>>, m: nat, upTo: nat, k: nat, i: nat)
    requires upTo <= |combos| && IndicesBelow(combos, |nbrs|)
    requires forall c :: 0 <= c < |combos| ==> |combos[c]| == m
    requires k < upTo && i < m
    ensures k * m + i < |CombinationProbes(id, nbrs, combos, upTo)|
    ensures CombinationProbes(id, nbrs, combos, upTo)[k * m + i] == Probe(id, Rotation(Select(nbrs, combos[k]), i))
  {
    var prev := CombinationProbes(id, nbrs, combos, upTo - 1);
    var last := Select(nbrs, combos[upTo - 1]);
    CombinationProbesCount(id, nbrs, combos, m, upTo - 1);
    RotationsAt(id, last, m);
    assert CombinationProbes(id, nbrs, combos, upTo) == prev + Rotations(id, last, m);
    ConcatAt(prev, Rotations(id, last, m), m, upTo, k, i);
    if k < upTo - 1 {
      CombinationProbesAt(id, nbrs, combos, m, upTo - 1, k, i);
    }
  }

  /** Where entry `k * m + i` of `prev + rots` comes from, `prev` holding `upTo - 1` blocks of `m`. */
  lemma ConcatAt<U>(prev: seq<U>, rots: seq<U>, m: nat, upTo: nat, k: nat, i: nat)
    requires |prev| == (upTo - 1) * m && |rots| == m && k < upTo && i < m
    ensures k < upTo - 1 ==> k * m + i < |prev| && (prev + rots)[k * m + i] == prev[k * m + i]
    ensures k == upTo - 1 ==> k * m + i == |prev| + i && (prev + rots)[k * m + i] == rots[i]
  {
    if k < upTo - 1 {
      MulSucc(k, m);
      MulMono(k + 1, upTo - 1, m);
    }
  }

  /** Exactly C(N, M) * M probes per target point, `N` being the number of neighbours. */
  lemma PointProbesCount<T>(id: nat, nbrs: seq<T>, m: nat)
    ensures |PointProbes(id, nbrs, m)| == Binomial(|nbrs|, m) * m
  {
    var combos := Combinations(0, |nbrs|, m);
    CombinationsAt(|nbrs|, m);
    CombinationProbesCount(id, nbrs, combos, m, |combos|);
  }

  /** Each probe of a target point is tagged with it, has `m` points, and is a permutation of a combination of its neighbours. */
  lemma PointProbesShape<T>(id: nat, nbrs: seq<T>, m: nat, p: nat)
    requires p < |PointProbes(id, nbrs, m)|
    ensures PointProbes(id, nbrs, m)[p].pointID == id
    ensures |PointProbes(id, nbrs, m)[p].points| == m
    ensures exists c :: c in Combinations(0, |nbrs|, m) && IsCombination(c, 0, |nbrs|) &&
      multiset(PointProbes(id, nbrs, m)[p].points) == multiset(Select(nbrs, c))
  {
    var combos := Combinations(0, |nbrs|, m);
    CombinationsAt(|nbrs|, m);
    CombinationProbesCount(id, nbrs, combos, m, |combos|);
    var k, i := BlockOf(p, m, |combos|);
    CombinationProbesAt(id, nbrs, combos, m, |combos|, k, i);
    var c := combos[k];
    assert c in combos;
    RotationIsPermutation(Select(nbrs, c), i);
  }

  /** Every listed combination, by position, has length `k` and is a combination over `0..n-1`. */
  lemma CombinationsAt(n: nat, k: nat)
    ensures |Combinations(0, n, k)| == Binomial(n, k)
    ensures IndicesBelow(Combinations(0, n, k), n)
    ensures forall c :: 0 <= c < |Combinations(0, n, k)| ==>
      |Combinations(0, n, k)[c]| == k && IsCombination(Combinations(0, n, k)[c], 0, n)
  {
    var combos := Combinations(0, n, k);
    CombinationsBelow(n, k);
    CombinationsSound(0, n, k);
    CombinationsCount(0, n, k);
  }

  /** Probe `k * m + i` of a target point is rotation `i` of its `k`-th combination of neighbours. */
  lemma PointProbesAt<T>(id: nat, nbrs: seq<T>, m: nat, k: nat, i: nat)
    requires k < Binomial(|nbrs|, m) && i < m
    ensures |Combinations(0, |nbrs|, m)| == Binomial(|nbrs|, m)
    ensures |Combinations(0, |nbrs|, m)[k]| == m && IsCombination(Combinations(0, |nbrs|, m)[k], 0, |nbrs|)
    ensures k * m + i < |PointProbes(id, nbrs, m)|
    ensures PointProbes(id, nbrs, m)[k * m + i] == Probe(id, Rotation(Select(nbrs, Combinations(0, |nbrs|, m)[k]), i))
  {
    var combos := Combinations(0, |nbrs|, m);
    CombinationsAt(|nbrs|, m);
    CombinationProbesAt(id, nbrs, combos, m, |combos|, k, i);
  }

  /** Position `p` of `n` blocks of `m` lies in block `k` at offset `i`. */
  lemma BlockOf(p: nat, m: nat, n: nat) returns (k: nat, i: nat)
    requires p < n * m
    ensures k < n && i < m && p == k * m + i
  {
    assert m > 0;
    k, i := p / m, p % m;
    assert k < n by {
      if k >= n {
        MulMono(n, k, m);
      }
    }
  }

  /** `s` is in non-decreasing order of `key`. */
  predicate SortedBy<T>(s: seq<T>, key: T -> real)
  {
    forall i, j :: 0 <= i < j < |s| ==> key(s[i]) <= key(s[j])
  }

  function InsertByKey<T>(x: T, s: seq<T>, key: T -> real): (r: seq<T>)
    requires SortedBy(s, key)
    ensures SortedBy(r, key)
    ensures multiset(r) == multiset(s) + multiset{x}
    ensures |r| == |s| + 1
  {
    if s == [] then [x]
    else if key(x) <= key(s[0]) then [x] + s
    else
      assert s == [s[0]] + s[1..];
      var rest := InsertByKey(x, s[1..], key);
      HeadBelow(s[0], rest, s[1..], x, key);
      [s[0]] + rest
  }

  /** Putting a lower bound of every element in front keeps a sorted sequence sorted. */
  lemma HeadBelow<T>(h: T, rest: seq<T>, pool: seq<T>, x: T, key: T -> real)
    requires SortedBy(rest, key)
    requires multiset(rest) == multiset(pool) + multiset{x}
    requires forall e :: e in pool ==> key(h) <= key(e)
    requires key(h) <= key(x)
    ensures SortedBy([h] + rest, key)
  {
    var r := [h] + rest;
    forall i, j | 0 <= i < j < |r| ensures key(r[i]) <= key(r[j]) {
      assert r[j] == rest[j - 1];
      if i == 0 {
        assert rest[j - 1] in multiset(rest);
      } else {
        assert r[i] == rest[i - 1];
      }
    }
  }

  /** Sorts by ascending key (the sorter applied to the neighbours' angles). */
  function SortByKey<T>(s: seq<T>, key: T -> real): (r: seq<T>)
    ensures SortedBy(r, key)
    ensures multiset(r) == multiset(s)
    ensures |r| == |s|
  {
    if s == [] then []
    else
      assert s == s[..|s| - 1] + [s[|s| - 1]];
      InsertByKey(s[|s| - 1], SortByKey(s[..|s| - 1], key), key)
  }
  /** Concatenation of a list of lists, in order. */
  function Flatten<T>(xss: seq<seq<T>>): seq<T>
  {
    if xss == [] then [] else Flatten(xss[..|xss| - 1]) + xss[|xss| - 1]
  }

  /** Growing the prefix of lists by one appends that list. */
  lemma FlattenSnoc<T>(xss: seq<seq<T>>, p: nat)
    requires p < |xss|
    ensures Flatten(xss[..p + 1]) == Flatten(xss[..p]) + xss[p]
  {
    assert xss[..p + 1][..p] == xss[..p];
  }

  /** Element `i` of list `p` sits right after the lists before it. */
  lemma {:induction false} FlattenAt<T>(xss: seq<seq<T>>, p: nat, i: nat)
    requires p < |xss| && i < |xss[p]|
    ensures |Flatten(xss[..p])| + i < |Flatten(xss)|
    ensures Flatten(xss)[|Flatten(xss[..p])| + i] == xss[p][i]
  {
    var init := xss[..|xss| - 1];
    if p == |xss| - 1 {
      assert xss[..p] == init;
    } else {
      assert init[..p] == xss[..p];
      FlattenAt(init, p, i);
    }
  }

  /** Lists of equal length `n` flatten to `|xss| * n` elements. */
  lemma {:induction false} FlattenUniform<T>(xss: seq<seq<T>>, n: nat)
    requires forall p :: 0 <= p < |xss| ==> |xss[p]| == n
    ensures |Flatten(xss)| == |xss| * n
  {
    if xss != [] {
      FlattenUniform(xss[..|xss| - 1], n);
      MulSucc(|xss| - 1, n);
    }
  }

  /** Every list in `xss` has length `w`. */
  predicate Uniform<T>(xss: seq<seq<T>>, w: nat)
  {
    forall p :: 0 <= p < |xss| ==> |xss[p]| == w
  }

  /** With every list of length `w`, element `q` of list `t` is element `t * w + q` of the whole. */
  lemma FlattenUniformAt<T>(xss: seq<seq<T>>, w: nat, t: nat, q: nat)
    requires Uniform(xss, w)
    requires t < |xss| && q < w
    ensures t * w + q < |Flatten(xss)|
    ensures Flatten(xss)[t * w + q] == xss[t][q]
  {
    FlattenUniform(xss[..t], w);
    FlattenAt(xss, t, q);
  }

  /** Cell `(k, i)` of a `rows` by `width` grid read row by row. */
  lemma RowMajor(k: nat, i: nat, rows: nat, width: nat) returns (q: nat)
    requires k < rows && i < width
    ensures q == k * width + i && q < rows * width
  {
    MulSucc(k, width);
    MulMono(k + 1, rows, width);
    q := k * width + i;
  }

  /**
    In blocks of `C(|nbrs|, m) * m` probes each, where block `t` holds the probes of
    point `t`, rotation `i` of combination `k` of block `t` sits at `t * (C * m) + k * m + i`.
  */
  lemma FlattenProbesAt<T>(blocks: seq<seq<Probe<T>>>, t: nat, nbrs: seq<T>, m: nat, k: nat, i: nat) returns (p: nat)
    requires Uniform(blocks, Binomial(|nbrs|, m) * m)
    requires t < |blocks| && blocks[t] == PointProbes(t, nbrs, m)
    requires k < Binomial(|nbrs|, m) && i < m
    ensures p == t * (Binomial(|nbrs|, m) * m) + k * m + i
    ensures |Combinations(0, |nbrs|, m)| == Binomial(|nbrs|, m)
    ensures |Combinations(0, |nbrs|, m)[k]| == m && IsCombination(Combinations(0, |nbrs|, m)[k], 0, |nbrs|)
    ensures p < |Flatten(blocks)|
    ensures Flatten(blocks)[p] == Probe(t, Rotation(Select(nbrs, Combinations(0, |nbrs|, m)[k]), i))
  {
    PointProbesAt(t, nbrs, m, k, i);
    p := GridAt(blocks, Binomial(|nbrs|, m), m, t, k, i);
  }

  /** In lists of `rows * width` elements each, cell `(k, i)` of list `t` is element `t * (rows * width) + k * width + i` of the whole. */
  lemma GridAt<T>(xss: seq<seq<T>>, rows: nat, width: nat, t: nat, k: nat, i: nat) returns (p: nat)
    requires Uniform(xss, rows * width)
    requires t < |xss| && k < rows && i < width
    ensures p == t * (rows * width) + k * width + i
    ensures k * width + i < |xss[t]| && p < |Flatten(xss)|
    ensures Flatten(xss)[p] == xss[t][k * width + i]
  {
    var q := RowMajor(k, i, rows, width);
    FlattenUniformAt(xss, rows * width, t, q);
    p := t * (rows * width) + q;
  }
}
