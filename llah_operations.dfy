/**
  `LlahOperations`: the LLAH document index. Documents are point patterns; every
  point contributes one feature per (combination, rotation) of its angularly sorted
  nearest neighbours; features are filed in a hash table on registration and looked
  up to vote for documents on retrieval.

  The hasher, the k-d tree search and `atan2` are constant function fields: only what
  surrounds them is modelled. Points are told apart by their index in the list.
*/
module Llah {
  import opened Wrappers
  import opened LlahData
  import opened LlahCombinatorics
  import opened LlahHistogram

  /** What the hasher computes for an ordered point subset: its hash code and its discretised invariants. */
  datatype Hashed = Hashed(hashCode: int, invariants: seq<int>)

  /** The exceptions the operations throw. */
  datatype LlahError =
    | TooFewPoints(required: nat)  // `IllegalArgumentException` from `checkListSize`
    | NegativeArraySize            // the histogram allocated with a negative length
    | IndexOutOfBounds             // a histogram index outside the array

  /** What `learnHashing` hands to the hasher's `learnDiscretization`, and whether it warned. */
  datatype Learned = Learned(histogram: seq<int>, warned: bool)

  /** `k` distinct indices into a list of `size` points, the `target` among them. */
  predicate NearestResult(r: seq<nat>, target: nat, size: nat, k: nat)
  {
    |r| == k && target in r &&
    (forall i :: 0 <= i < |r| ==> r[i] < size) &&
    (forall i, j :: 0 <= i < j < |r| ==> r[i] != r[j])
  }

  /**
    What the k-d tree search is relied on for: asked for the `k` nearest points to a
    point of a list that has that many, it returns `k` distinct indices, the point
    itself among them.
  */
  ghost predicate NearestContract(findNearest: (seq<Point>, nat, nat) -> seq<nat>, k: nat)
  {
    forall pts: seq<Point>, t: nat :: k <= |pts| && t < |pts| ==>
      NearestResult(findNearest(pts, t, k), t, |pts|, k)
  }

  /** The search results without the target itself, in their order. */
  function Without(idx: seq<nat>, t: nat): (r: seq<nat>)
    ensures forall x :: x in r <==> x in idx && x != t
    ensures multiset(r) == multiset(idx)[t := 0]
  {
    if idx == [] then []
    else
      var init := idx[..|idx| - 1];
      var last := idx[|idx| - 1];
      assert idx == init + [last];
      if last == t then Without(init, t) else Without(init, t) + [last]
  }

  /** A value occurring in a list of distinct values occurs once. */
  lemma {:induction false} DistinctOnce(s: seq<nat>, x: nat)
    requires x in s
    requires forall i, j :: 0 <= i < j < |s| ==> s[i] != s[j]
    ensures multiset(s)[x] == 1
  {
    var init := s[..|s| - 1];
    assert s == init + [s[|s| - 1]];
    if s[|s| - 1] == x {
      assert forall i :: 0 <= i < |init| ==> init[i] != x;
      assert x !in multiset(init);
    } else {
      assert x in init;
      DistinctOnce(init, x);
    }
  }

  /** Document `doc` is numbered `d` and each of its features carries `d` and names one of its points. */
  predicate Filed(doc: Document, d: nat)
  {
    doc.documentID == d &&
    forall k :: 0 <= k < |doc.features| ==> doc.features[k].documentID == d && doc.features[k].pointID < |doc.locations|
  }

  /** The chain of hash code `h` in `table`. */
  function ChainIn(table: map<int, seq<FeatureRef>>, h: int): seq<FeatureRef>
  {
    if h in table then table[h] else []
  }

  /** `LlahHashTable.add`: the new reference goes to the front of its hash code's chain. */
  function Insert(table: map<int, seq<FeatureRef>>, h: int, r: FeatureRef): (t: map<int, seq<FeatureRef>>)
    ensures ChainIn(t, h) == [r] + ChainIn(table, h)
    ensures forall g :: g != h ==> ChainIn(t, g) == ChainIn(table, g)
    ensures t.Keys == table.Keys + {h}
  {
    table[h := [r] + ChainIn(table, h)]
  }

  /**
    The body of `computeAllFeatures` for one point: every combination of `m` of its
    sorted neighbours (copied into `setM`), then each rotation of it (built in `permuteM`).
  */
  method EnumerateSubsets(pointID: nat, neighbors: seq<Point>, m: nat) returns (block: seq<Probe<Point>>)
    ensures block == PointProbes(pointID, neighbors, m)
  {
    var combos := Combinations(0, |neighbors|, m);
    CombinationsAt(|neighbors|, m);
    block := [];
    var k := 0;
    while k < |combos|
      invariant 0 <= k <= |combos|
      invariant block == CombinationProbes(pointID, neighbors, combos, k)
    {
      var setM := CopyCombination(neighbors, combos[k]);
      ghost var before := block;
      var i := 0;
      while i < m
        invariant 0 <= i <= m
        invariant block == before + Rotations(pointID, setM, i)
      {
        var permuteM := Rotate(setM, i);
        block := block + [Probe(pointID, permuteM)];
        i := i + 1;
      }
      k := k + 1;
    }
  }

  /** The loop of `findNeighbors` that copies every search result except the target itself. */
  method DropTarget(pts: seq<Point>, results: seq<nat>, t: nat) returns (kept: seq<Point>)
    requires forall i :: 0 <= i < |results| ==> results[i] < |pts|
    ensures Below(Without(results, t), |pts|)
    ensures kept == Select(pts, Without(results, t))
  {
    kept := [];
    var i := 0;
    while i < |results|
      invariant 0 <= i <= |results|
      invariant Below(Without(results[..i], t), |pts|)
      invariant kept == Select(pts, Without(results[..i], t))
    {
      DropStep(pts, results, i, t);
      if results[i] != t {
        kept := kept + [pts[results[i]]];
      }
      i := i + 1;
    }
    assert results[..i] == results;
  }

  /** One more search result: the copy grows by it unless it is the target. */
  lemma DropStep(pts: seq<Point>, results: seq<nat>, i: nat, t: nat)
    requires i < |results| && forall q :: 0 <= q < |results| ==> results[q] < |pts|
    ensures Below(Without(results[..i], t), |pts|)
    ensures Below(Without(results[..i + 1], t), |pts|)
    ensures Select(pts, Without(results[..i + 1], t)) ==
      if results[i] == t then Select(pts, Without(results[..i], t))
      else Select(pts, Without(results[..i], t)) + [pts[results[i]]]
  {
    WithoutBelow(results[..i], t, |pts|);
    WithoutBelow(results[..i + 1], t, |pts|);
    assert results[..i + 1] == results[..i] + [results[i]];
    WithoutSnoc(results[..i], results[i], t);
    if results[i] != t {
      SelectSnoc(pts, Without(results[..i], t), results[i]);
    }
  }

  /** Every index in `idx` is below `n`. */
  predicate Below(idx: seq<nat>, n: nat)
  {
    forall q :: 0 <= q < |idx| ==> idx[q] < n
  }

  /** Dropping the target keeps every index below the list's length. */
  lemma WithoutBelow(idx: seq<nat>, t: nat, n: nat)
    requires forall q :: 0 <= q < |idx| ==> idx[q] < n
    ensures Below(Without(idx, t), n)
  {
    forall q | 0 <= q < |Without(idx, t)| ensures Without(idx, t)[q] < n {
      assert Without(idx, t)[q] in idx;
    }
  }

  /** Dropping the target distributes over concatenation, so the kept results keep their order. */
  lemma {:induction false} WithoutConcat(a: seq<nat>, b: seq<nat>, t: nat)
    ensures Without(a + b, t) == Without(a, t) + Without(b, t)
  {
    if b != [] {
      var init := b[..|b| - 1];
      var x := b[|b| - 1];
      assert b == init + [x];
      assert a + b == (a + init) + [x];
      WithoutConcat(a, init, t);
      WithoutSnoc(a + init, x, t);
      WithoutSnoc(init, x, t);
    } else {
      assert a + b == a;
    }
  }

  lemma WithoutSnoc(idx: seq<nat>, x: nat, t: nat)
    ensures Without(idx + [x], t) == if x == t then Without(idx, t) else Without(idx, t) + [x]
  {
    assert (idx + [x])[..|idx|] == idx;
  }

  lemma SelectSnoc(pts: seq<Point>, idx: seq<nat>, x: nat)
    requires forall q :: 0 <= q < |idx| ==> idx[q] < |pts|
    requires x < |pts|
    ensures forall q :: 0 <= q < |idx + [x]| ==> (idx + [x])[q] < |pts|
    ensures Select(pts, idx + [x]) == Select(pts, idx) + [pts[x]]
  {
  }

  /** `setM`: the neighbours at the positions of the current combination. */
  method CopyCombination(neighbors: seq<Point>, c: seq<nat>) returns (setM: seq<Point>)
    requires forall i :: 0 <= i < |c| ==> c[i] < |neighbors|
    ensures setM == Select(neighbors, c)
  {
    setM := [];
    var i := 0;
    while i < |c|
      invariant 0 <= i <= |c|
      invariant setM == Select(neighbors, c)[..i]
    {
      assert Select(neighbors, c)[..i + 1] == Select(neighbors, c)[..i] + [neighbors[c[i]]];
      setM := setM + [neighbors[c[i]]];
      i := i + 1;
    }
  }

  /** `permuteM`: element `j` is `setM[(i + j) % M]`. */
  method Rotate(setM: seq<Point>, i: nat) returns (permuteM: seq<Point>)
    requires i < |setM|
    ensures permuteM == Rotation(setM, i)
  {
    permuteM := [];
    var j := 0;
    while j < |setM|
      invariant 0 <= j <= |setM|
      invariant |permuteM| == j
      invariant forall q :: 0 <= q < j ==> permuteM[q] == setM[(i + q) % |setM|]
    {
      permuteM := permuteM + [setM[(i + j) % |setM|]];
      j := j + 1;
    }
  }

  /** Reference `r` names a feature stored in `docs`. */
  predicate RefIn(docs: seq<Document>, r: FeatureRef)
  {
    r.documentID < |docs| && r.index < |docs[r.documentID].features|
  }

  /** The stored feature `r` names. */
  function FeatureIn(docs: seq<Document>, r: FeatureRef): Feature
    requires RefIn(docs, r)
  {
    docs[r.documentID].features[r.index]
  }

  /**
    The index invariant on documents and table: document `d` sits at position `d` and
    its features carry `d` and a point of it; every chain entry names a stored feature
    with that chain's hash code; every stored feature is in its hash code's chain.
  */
  predicate Indexed(docs: seq<Document>, table: map<int, seq<FeatureRef>>)
  {
    (forall d :: 0 <= d < |docs| ==> Filed(docs[d], d)) &&
    (forall h, r :: h in table && r in table[h] ==> RefIn(docs, r) && FeatureIn(docs, r).hashCode == h) &&
    (forall d, k :: 0 <= d < |docs| && 0 <= k < |docs[d].features| ==>
      FeatureRef(d, k) in ChainIn(table, docs[d].features[k].hashCode))
  }

  /** A new, still empty document numbered with the old count keeps the index invariant. */
  lemma AppendDocument(docs: seq<Document>, table: map<int, seq<FeatureRef>>, doc: Document)
    requires Indexed(docs, table) && doc.documentID == |docs| && doc.features == []
    ensures Indexed(docs + [doc], table)
  {
    var docs' := docs + [doc];
    forall h, r | h in table && r in table[h] ensures RefIn(docs', r) && FeatureIn(docs', r).hashCode == h {
      assert RefIn(docs, r);
      assert docs'[r.documentID] == docs[r.documentID];
    }
    forall d, k | 0 <= d < |docs'| && 0 <= k < |docs'[d].features|
      ensures FeatureRef(d, k) in ChainIn(table, docs'[d].features[k].hashCode)
    {
      assert d < |docs| && docs'[d] == docs[d];
    }
  }

  /**
    Appending feature `f` to document `d` and adding its reference to the front of its
    chain keeps the index invariant.
  */
  lemma FileFeature(docs: seq<Document>, table: map<int, seq<FeatureRef>>, d: nat, f: Feature)
    requires Indexed(docs, table) && d < |docs| && f.documentID == d && f.pointID < |docs[d].locations|
    ensures Indexed(docs[d := docs[d].(features := docs[d].features + [f])],
                    Insert(table, f.hashCode, FeatureRef(d, |docs[d].features|)))
  {
    var docs' := docs[d := docs[d].(features := docs[d].features + [f])];
    var table' := Insert(table, f.hashCode, FeatureRef(d, |docs[d].features|));
    assert forall e :: 0 <= e < |docs'| ==> Filed(docs'[e], e);
    FileFeatureSound(docs, table, d, f);
    FileFeatureComplete(docs, table, d, f);
  }

  /** Every chain entry still names a stored feature with its chain's hash code. */
  lemma FileFeatureSound(docs: seq<Document>, table: map<int, seq<FeatureRef>>, d: nat, f: Feature)
    requires Indexed(docs, table) && d < |docs|
    ensures var docs' := docs[d := docs[d].(features := docs[d].features + [f])];
      var table' := Insert(table, f.hashCode, FeatureRef(d, |docs[d].features|));
      forall h, r :: h in table' && r in table'[h] ==> RefIn(docs', r) && FeatureIn(docs', r).hashCode == h
  {
    var r := FeatureRef(d, |docs[d].features|);
    var docs' := docs[d := docs[d].(features := docs[d].features + [f])];
    var table' := Insert(table, f.hashCode, r);
    forall h, r' | h in table' && r' in table'[h] ensures RefIn(docs', r') && FeatureIn(docs', r').hashCode == h {
      assert r' in ChainIn(table', h);
      if r' != r || h != f.hashCode {
        assert r' in ChainIn(table, h);
        assert RefIn(docs, r');
        assert docs'[r'.documentID].features[r'.index] == docs[r'.documentID].features[r'.index];
      }
    }
  }

  /** Every stored feature, old or new, is in its hash code's chain. */
  lemma FileFeatureComplete(docs: seq<Document>, table: map<int, seq<FeatureRef>>, d: nat, f: Feature)
    requires Indexed(docs, table) && d < |docs|
    ensures var docs' := docs[d := docs[d].(features := docs[d].features + [f])];
      var table' := Insert(table, f.hashCode, FeatureRef(d, |docs[d].features|));
      forall e, k :: 0 <= e < |docs'| && 0 <= k < |docs'[e].features| ==>
        FeatureRef(e, k) in ChainIn(table', docs'[e].features[k].hashCode)
  {
    var n := |docs[d].features|;
    var docs' := docs[d := docs[d].(features := docs[d].features + [f])];
    var table' := Insert(table, f.hashCode, FeatureRef(d, n));
    forall e, k | 0 <= e < |docs'| && 0 <= k < |docs'[e].features|
      ensures FeatureRef(e, k) in ChainIn(table', docs'[e].features[k].hashCode)
    {
      if e != d || k < n {
        assert docs'[e].features[k] == docs[e].features[k];
        assert FeatureRef(e, k) in ChainIn(table, docs[e].features[k].hashCode);
      }
    }
  }

  class LlahOperations {
    /** N: the number of neighbours considered around each point. */
    const numberOfNeighborsN: nat
    /** M: the size of each combination drawn from the neighbours. */
    const sizeOfCombinationM: nat
    /** The hasher's `computeHash`. */
    const computeHash: seq<Point> -> Hashed
    /** The hasher's `computeInvariants`, used while learning. */
    const computeInvariants: seq<Point> -> seq<real>
    /** `LlahFeature.doInvariantsMatch`, on the computed and the stored invariants. */
    const invariantsMatch: (seq<int>, seq<int>) -> bool
    /** The k-d tree search: points, target index and count to the indices of the nearest points. */
    const findNearest: (seq<Point>, nat, nat) -> seq<nat>
    /** `Math.atan2(y, x)`. */
    const atan2: (real, real) -> real

    /** All registered documents; document `d` is at position `d`. */
    var documents: seq<Document>
    /** Hash code to its collision chain of stored features, most recent first. */
    var hashTable: map<int, seq<FeatureRef>>

    /** The parameters the enumeration depends on. */
    ghost predicate Configured()
    {
      sizeOfCombinationM <= numberOfNeighborsN && NearestContract(findNearest, numberOfNeighborsN + 1)
    }

    constructor(n: nat, m: nat, computeHash: seq<Point> -> Hashed, computeInvariants: seq<Point> -> seq<real>,
                invariantsMatch: (seq<int>, seq<int>) -> bool, findNearest: (seq<Point>, nat, nat) -> seq<nat>,
                atan2: (real, real) -> real)
      requires m <= n && NearestContract(findNearest, n + 1)
      ensures Valid() && documents == [] && hashTable == map[]
      ensures numberOfNeighborsN == n && sizeOfCombinationM == m && this.computeHash == computeHash
      ensures this.computeInvariants == computeInvariants && this.invariantsMatch == invariantsMatch
      ensures this.findNearest == findNearest && this.atan2 == atan2
    {
      numberOfNeighborsN := n;
      sizeOfCombinationM := m;
      this.computeHash := computeHash;
      this.computeInvariants := computeInvariants;
      this.invariantsMatch := invariantsMatch;
      this.findNearest := findNearest;
      this.atan2 := atan2;
      documents := [];
      hashTable := map[];
    }

    /** Reference `r` names a stored feature. */
    predicate ValidRef(r: FeatureRef)
      reads this
    {
      RefIn(documents, r)
    }

    /** The stored feature `r` names. */
    function FeatureAt(r: FeatureRef): Feature
      reads this
      requires ValidRef(r)
    {
      FeatureIn(documents, r)
    }

    /** The collision chain of hash code `h` (empty when the code was never filed). */
    function ChainOf(h: int): seq<FeatureRef>
      reads this
    {
      ChainIn(hashTable, h)
    }

    /** The object invariant: a configuration the enumeration can run with, and a consistent index. */
    ghost predicate Valid()
      reads this
    {
      Configured() && Indexed(documents, hashTable)
    }

    // ---------------------------------------------------------------- size gate

    /** `checkListSize`: passes when the list is long enough, and fails with the exception otherwise. */
    function CheckListSize(size: nat): Outcome<(), LlahError>
    {
      if size < numberOfNeighborsN + 1 then Failure(TooFewPoints(numberOfNeighborsN + 1)) else Success(())
    }

    /** The gate rejects exactly the lists shorter than N + 1: N points fail, N + 1 and more pass. */
    lemma CheckListSizeBoundary(size: nat)
      ensures CheckListSize(size).Failure? <==> size < numberOfNeighborsN + 1
      ensures CheckListSize(numberOfNeighborsN) == Failure(TooFewPoints(numberOfNeighborsN + 1))
      ensures CheckListSize(numberOfNeighborsN + 1).Success?
    {
    }

    // ---------------------------------------------------------------- neighbours

    /** The sort key of a neighbour: its angle around the target. */
    function AngleKey(target: Point): Point -> real
    {
      (n: Point) => atan2(n.y - target.y, n.x - target.x)
    }

    /** The search results minus the target, as points, sorted by angle around the target. */
    function Neighbors(pts: seq<Point>, t: nat): seq<Point>
      requires Configured() && numberOfNeighborsN + 1 <= |pts| && t < |pts|
    {
      var kd := findNearest(pts, t, numberOfNeighborsN + 1);
      var kept := Without(kd, t);
      assert forall i :: 0 <= i < |kept| ==> kept[i] < |pts| by {
        forall i | 0 <= i < |kept| ensures kept[i] < |pts| {
          assert kept[i] in kd;
        }
      }
      SortByKey(Select(pts, kept), AngleKey(pts[t]))
    }

    /**
      The neighbour list has N points, in non-decreasing angle order, and is a
      permutation of the points the search returned other than the target.
    */
    lemma NeighborsSpec(pts: seq<Point>, t: nat)
      requires Configured() && numberOfNeighborsN + 1 <= |pts| && t < |pts|
      ensures |Neighbors(pts, t)| == numberOfNeighborsN
      ensures SortedBy(Neighbors(pts, t), AngleKey(pts[t]))
      ensures var kept := Without(findNearest(pts, t, numberOfNeighborsN + 1), t);
        (forall i :: 0 <= i < |kept| ==> kept[i] < |pts| && kept[i] != t) &&
        multiset(Neighbors(pts, t)) == multiset(Select(pts, kept))
    {
      var kd := findNearest(pts, t, numberOfNeighborsN + 1);
      DistinctOnce(kd, t);
      var kept := Without(kd, t);
      assert |multiset(kept)| == |multiset(kd)| - 1;
      forall i | 0 <= i < |kept| ensures kept[i] < |pts| && kept[i] != t {
        assert kept[i] in kd;
      }
    }

    /** `findNeighbors`: drop the target from the search results, then sort the rest by angle. */
    method FindNeighbors(pts: seq<Point>, t: nat) returns (neighbors: seq<Point>)
      requires Configured() && numberOfNeighborsN + 1 <= |pts| && t < |pts|
      ensures neighbors == Neighbors(pts, t)
    {
      var results := findNearest(pts, t, numberOfNeighborsN + 1);
      assert NearestResult(results, t, |pts|, numberOfNeighborsN + 1);
      var kept := DropTarget(pts, results, t);
      neighbors := SortByKey(kept, AngleKey(pts[t]));
    }

    // ---------------------------------------------------------------- enumeration

    /** The probes of each point, point by point. */
    function PointBlocks(pts: seq<Point>): (blocks: seq<seq<Probe<Point>>>)
      requires Configured() && numberOfNeighborsN + 1 <= |pts|
      ensures |blocks| == |pts|
      ensures forall t :: 0 <= t < |pts| ==> blocks[t] == PointProbes(t, Neighbors(pts, t), sizeOfCombinationM)
    {
      seq(|pts|, t requires 0 <= t < |pts| => PointProbes(t, Neighbors(pts, t), sizeOfCombinationM))
    }

    /** Everything `computeAllFeatures` hands its processor, in order. */
    function Probes(pts: seq<Point>): seq<Probe<Point>>
      requires Configured() && numberOfNeighborsN + 1 <= |pts|
    {
      Flatten(PointBlocks(pts))
    }

    /** Every point yields C(N, M) * M probes. */
    lemma BlocksUniform(pts: seq<Point>)
      requires Configured() && numberOfNeighborsN + 1 <= |pts|
      ensures Uniform(PointBlocks(pts), Binomial(numberOfNeighborsN, sizeOfCombinationM) * sizeOfCombinationM)
    {
      forall t | 0 <= t < |pts|
        ensures |PointBlocks(pts)[t]| == Binomial(numberOfNeighborsN, sizeOfCombinationM) * sizeOfCombinationM
      {
        NeighborsSpec(pts, t);
        PointProbesCount(t, Neighbors(pts, t), sizeOfCombinationM);
      }
    }

    /** The processor runs `|pts| * C(N, M) * M` times. */
    lemma ProbesCount(pts: seq<Point>)
      requires Configured() && numberOfNeighborsN + 1 <= |pts|
      ensures |Probes(pts)| == |pts| * (Binomial(numberOfNeighborsN, sizeOfCombinationM) * sizeOfCombinationM)
    {
      BlocksUniform(pts);
      FlattenUniform(PointBlocks(pts), Binomial(numberOfNeighborsN, sizeOfCombinationM) * sizeOfCombinationM);
    }

    /**
      Enumeration order: points in order, then combinations in order, then rotations;
      call `t * (C(N, M) * M) + k * M + i` is rotation `i` of combination `k` of point `t`'s
      neighbours.
    */
    lemma ProbesAt(pts: seq<Point>, t: nat, k: nat, i: nat) returns (p: nat)
      requires Configured() && numberOfNeighborsN + 1 <= |pts|
      requires t < |pts| && k < Binomial(numberOfNeighborsN, sizeOfCombinationM) && i < sizeOfCombinationM
      ensures p == t * (Binomial(numberOfNeighborsN, sizeOfCombinationM) * sizeOfCombinationM) + k * sizeOfCombinationM + i
      ensures |Neighbors(pts, t)| == numberOfNeighborsN
      ensures |Combinations(0, numberOfNeighborsN, sizeOfCombinationM)| == Binomial(numberOfNeighborsN, sizeOfCombinationM)
      ensures var c := Combinations(0, numberOfNeighborsN, sizeOfCombinationM)[k];
        |c| == sizeOfCombinationM && IsCombination(c, 0, numberOfNeighborsN)
      ensures p < |Probes(pts)|
      ensures Probes(pts)[p] == Probe(t, Rotation(Select(Neighbors(pts, t), Combinations(0, numberOfNeighborsN, sizeOfCombinationM)[k]), i))
    {
      var nbrs := Neighbors(pts, t);
      assert |nbrs| == numberOfNeighborsN by {
        NeighborsSpec(pts, t);
      }
      BlocksUniform(pts);
      p := FlattenProbesAt(PointBlocks(pts), t, nbrs, sizeOfCombinationM, k, i);
    }

    /** Each probe is tagged with a point of the list and holds M points. */
    lemma ProbesShape(pts: seq<Point>, p: nat)
      requires Configured() && numberOfNeighborsN + 1 <= |pts| && p < |Probes(pts)|
      ensures Probes(pts)[p].pointID < |pts|
      ensures |Probes(pts)[p].points| == sizeOfCombinationM
    {
      var blocks := PointBlocks(pts);
      var w := Binomial(numberOfNeighborsN, sizeOfCombinationM) * sizeOfCombinationM;
      ProbesCount(pts);
      BlocksUniform(pts);
      var t, q := BlockOf(p, w, |pts|);
      FlattenUniformAt(blocks, w, t, q);
      PointProbesShape(t, Neighbors(pts, t), sizeOfCombinationM, q);
    }

    /**
      `computeAllFeatures`: for every point, its neighbours, then every combination of M
      of them, then every rotation of that combination. The probes the processor would
      receive are returned in the order it would receive them.
    */
    method ComputeAllFeatures(pts: seq<Point>) returns (probes: seq<Probe<Point>>)
      requires Configured() && numberOfNeighborsN + 1 <= |pts|
      ensures probes == Probes(pts)
    {
      ghost var blocks := PointBlocks(pts);
      probes := [];
      var pointID := 0;
      while pointID < |pts|
        invariant 0 <= pointID <= |pts|
        invariant probes == Flatten(blocks[..pointID])
      {
        var neighbors := FindNeighbors(pts, pointID);
        var block := EnumerateSubsets(pointID, neighbors, sizeOfCombinationM);
        FlattenSnoc(blocks, pointID);
        probes := probes + block;
        pointID := pointID + 1;
      }
      assert blocks[..pointID] == blocks;
    }
  
    // ---------------------------------------------------------------- registration

    /** The feature `createProcessor` files for a probe of document `d`. */
    function FeatureOf(d: nat, p: Probe<Point>): Feature
    {
      var h := computeHash(p.points);
      Feature(h.hashCode, h.invariants, d, p.pointID)
    }

    /** The features of document `d`, one per probe, in enumeration order. */
    function FeaturesOf(d: nat, probes: seq<Probe<Point>>): (fs: seq<Feature>)
      ensures |fs| == |probes|
      ensures forall k :: 0 <= k < |probes| ==> fs[k] == FeatureOf(d, probes[k])
    {
      seq(|probes|, k requires 0 <= k < |probes| => FeatureOf(d, probes[k]))
    }

    /**
      Appending the features of probes that name points of document `d` keeps it well
      tagged: every feature carries the document's number and names one of its points.
    */
    lemma FeaturesOfFiled(doc: Document, d: nat, probes: seq<Probe<Point>>)
      requires Filed(doc, d)
      requires forall p :: 0 <= p < |probes| ==> probes[p].pointID < |doc.locations|
      ensures Filed(doc.(features := doc.features + FeaturesOf(d, probes)), d)
    {
      var fs := doc.features + FeaturesOf(d, probes);
      forall k | 0 <= k < |fs| ensures fs[k].documentID == d && fs[k].pointID < |doc.locations| {
        if k >= |doc.features| {
          assert fs[k] == FeatureOf(d, probes[k - |doc.features|]);
        }
      }
    }

    /** The hash table after filing features `0..n-1` of document `d`, one `add` each. */
    function InsertAll(table: map<int, seq<FeatureRef>>, d: nat, fs: seq<Feature>, n: nat): map<int, seq<FeatureRef>>
      requires n <= |fs|
    {
      if n == 0 then table else Insert(InsertAll(table, d, fs, n - 1), fs[n - 1].hashCode, FeatureRef(d, n - 1))
    }

    /**
      `createProcessor`: computes the feature of one probe, appends it to document `d`'s
      features and adds it to the hash table; nothing else changes, and the index stays valid.
    */
    method CreateProcessor(d: nat, p: Probe<Point>)
      requires Valid() && d < |documents| && p.pointID < |documents[d].locations|
      modifies this
      ensures Valid()
      ensures documents == old(documents[d := documents[d].(features := documents[d].features + [FeatureOf(d, p)])])
      ensures hashTable == Insert(old(hashTable), FeatureOf(d, p).hashCode, FeatureRef(d, |old(documents[d].features)|))
    {
      var h := computeHash(p.points);
      var feature := Feature(h.hashCode, h.invariants, d, p.pointID);
      var doc := documents[d];
      FileFeature(documents, hashTable, d, feature);
      documents := documents[d := doc.(features := doc.features + [feature])];
      hashTable := Insert(hashTable, feature.hashCode, FeatureRef(d, |doc.features|));
    }

    /**
      `createDocument`: after the size gate, appends a document numbered with the old
      document count holding a copy of the points, then files one feature per probe.
      Too few points leave the index untouched.
    */
    method CreateDocument(pts: seq<Point>) returns (outcome: Outcome<Document, LlahError>)
      requires Valid()
      modifies this
      ensures Valid()
      ensures |pts| < numberOfNeighborsN + 1 ==>
        outcome == Failure(TooFewPoints(numberOfNeighborsN + 1)) &&
        documents == old(documents) && hashTable == old(hashTable)
      ensures |pts| >= numberOfNeighborsN + 1 ==>
        var id := |old(documents)|;
        var fs := FeaturesOf(id, Probes(pts));
        outcome == Success(Document(id, pts, fs)) &&
        documents == old(documents) + [outcome.value] &&
        hashTable == InsertAll(old(hashTable), id, fs, |fs|)
    {
      var check := CheckListSize(|pts|);
      if check.Failure? {
        return Failure(check.error);
      }
      var id := |documents|;
      AppendDocument(documents, hashTable, Document(id, pts, []));
      documents := documents + [Document(id, pts, [])];
      var probes := ComputeAllFeatures(pts);
      ProbesPointIDs(pts);
      FileProbes(id, probes);
      return Success(documents[id]);
    }

    /** The processor calls of `createDocument`: `createProcessor` for each probe in turn, on the new document `id`. */
    method FileProbes(id: nat, probes: seq<Probe<Point>>)
      requires Valid() && id == |documents| - 1 && documents[id].features == []
      requires forall p :: 0 <= p < |probes| ==> probes[p].pointID < |documents[id].locations|
      modifies this
      ensures Valid()
      ensures documents == old(documents[id := documents[id].(features := FeaturesOf(id, probes))])
      ensures hashTable == InsertAll(old(hashTable), id, FeaturesOf(id, probes), |probes|)
    {
      ghost var fs := FeaturesOf(id, probes);
      ghost var prior := documents[..id];
      ghost var doc := documents[id];
      assert documents == prior + [doc];
      var k := 0;
      while k < |probes|
        invariant 0 <= k <= |probes|
        invariant Valid()
        invariant documents == prior + [doc.(features := fs[..k])]
        invariant hashTable == InsertAll(old(hashTable), id, fs, k)
      {
        FileNext(id, probes, k, old(hashTable), prior, doc);
        k := k + 1;
      }
      assert fs[..k] == fs;
    }

    /** One pass of the loop of `FileProbes`: `createProcessor` for probe `k` extends the filed features by one. */
    method FileNext(id: nat, probes: seq<Probe<Point>>, k: nat, ghost table: map<int, seq<FeatureRef>>,
                    ghost prior: seq<Document>, ghost doc: Document)
      requires Valid() && k < |probes| && id == |prior|
      requires forall p :: 0 <= p < |probes| ==> probes[p].pointID < |doc.locations|
      requires documents == prior + [doc.(features := FeaturesOf(id, probes)[..k])]
      requires hashTable == InsertAll(table, id, FeaturesOf(id, probes), k)
      modifies this
      ensures Valid()
      ensures documents == prior + [doc.(features := FeaturesOf(id, probes)[..k + 1])]
      ensures hashTable == InsertAll(table, id, FeaturesOf(id, probes), k + 1)
    {
      FiledStep(prior, doc, FeaturesOf(id, probes), k);
      CreateProcessor(id, probes[k]);
    }

    /** Appending feature `k` to the last document of the list holding features `0..k-1`. */
    lemma FiledStep(prior: seq<Document>, doc: Document, fs: seq<Feature>, k: nat)
      requires k < |fs|
      ensures |(prior + [doc.(features := fs[..k])])[|prior|].features| == k
      ensures (prior + [doc.(features := fs[..k])])[|prior| := doc.(features := fs[..k] + [fs[k]])] ==
        prior + [doc.(features := fs[..k + 1])]
    {
      assert fs[..k + 1] == fs[..k] + [fs[k]];
    }

    /** Every probe targets a point of the list. */
    lemma ProbesPointIDs(pts: seq<Point>)
      requires Configured() && numberOfNeighborsN + 1 <= |pts|
      ensures forall p :: 0 <= p < |Probes(pts)| ==> Probes(pts)[p].pointID < |pts|
    {
      forall p | 0 <= p < |Probes(pts)| ensures Probes(pts)[p].pointID < |pts| {
        ProbesShape(pts, p);
      }
    }

    // ---------------------------------------------------------------- lookup

    /** Reference `r` names a stored feature that carries its document's number and names one of its points. */
    predicate Resolves(r: FeatureRef)
      reads this
    {
      ValidRef(r) && FeatureAt(r).documentID == r.documentID &&
      FeatureAt(r).pointID < |documents[r.documentID].locations|
    }

    /** Every entry of a collision chain resolves to a stored feature with that chain's hash code. */
    lemma ChainValid(h: int)
      requires Valid()
      ensures forall i :: 0 <= i < |ChainOf(h)| ==> Resolves(ChainOf(h)[i]) && FeatureAt(ChainOf(h)[i]).hashCode == h
    {
      forall i | 0 <= i < |ChainOf(h)| ensures Resolves(ChainOf(h)[i]) && FeatureAt(ChainOf(h)[i]).hashCode == h {
        var r := ChainOf(h)[i];
        assert Indexed(documents, hashTable);
        assert h in hashTable && r in hashTable[h];
        assert RefIn(documents, r);
        assert Filed(documents[r.documentID], r.documentID);
      }
    }

    /** Stored feature `r` can take a probe's vote: not counted yet in this lookup, and its invariants match. */
    predicate Votable(r: FeatureRef, inv: seq<int>, known: set<FeatureRef>)
      reads this
      requires ValidRef(r)
    {
      r !in known && invariantsMatch(inv, FeatureAt(r).invariants)
    }

    /** Where the walk down `chain` stops with a vote: the first votable entry, or `|chain|` when there is none. */
    function FirstVotable(chain: seq<FeatureRef>, inv: seq<int>, known: set<FeatureRef>): (j: nat)
      reads this
      requires forall i :: 0 <= i < |chain| ==> ValidRef(chain[i])
      ensures j <= |chain|
      ensures j < |chain| ==> Votable(chain[j], inv, known)
      ensures forall i :: 0 <= i < j ==> !Votable(chain[i], inv, known)
    {
      if chain == [] then 0
      else if Votable(chain[0], inv, known) then 0
      else 1 + FirstVotable(chain[1..], inv, known)
    }

    /**
      The stored feature a probe votes for: the first entry of its hash code's chain that is
      not counted yet and whose invariants match; none when no entry qualifies.
    */
    function VoteOf(points: seq<Point>, known: set<FeatureRef>): (v: Option<FeatureRef>)
      reads this
      requires Valid()
      ensures var h := computeHash(points);
        v.Some? ==>
          v.value in ChainOf(h.hashCode) && Resolves(v.value) && FeatureAt(v.value).hashCode == h.hashCode &&
          Votable(v.value, h.invariants, known)
      ensures var h := computeHash(points);
        v.None? <==> forall i :: 0 <= i < |ChainOf(h.hashCode)| ==> !Votable(ChainOf(h.hashCode)[i], h.invariants, known)
    {
      var h := computeHash(points);
      var chain := ChainOf(h.hashCode);
      ChainValid(h.hashCode);
      var j := FirstVotable(chain, h.invariants, known);
      if j < |chain| then Some(chain[j]) else None
    }

    /** The features counted so far (`knownFeatures`). */
    function Counted(votes: seq<FeatureRef>): (known: set<FeatureRef>)
      ensures forall r :: r in known <==> r in votes
    {
      if votes == [] then {} else Counted(votes[..|votes| - 1]) + {votes[|votes| - 1]}
    }

    /**
      The votes cast by the first `n` probes of a lookup, in order. Each probe casts at
      most one vote, every vote names a stored feature, and no stored feature is voted
      for twice.
    */
    function Votes(probes: seq<Probe<Point>>, n: nat): (votes: seq<FeatureRef>)
      reads this
      requires Valid() && n <= |probes|
      ensures |votes| <= n
      ensures forall j :: 0 <= j < |votes| ==> Resolves(votes[j])
      ensures forall i, j :: 0 <= i < j < |votes| ==> votes[i] != votes[j]
    {
      if n == 0 then []
      else
        var prev := Votes(probes, n - 1);
        match VoteOf(probes[n - 1].points, Counted(prev))
        case None => prev
        case Some(r) => prev + [r]
    }

    /** Every result belongs to a registered document, is sized to it and is consistent. */
    predicate OutputWellFormed(output: map<nat, Result>)
      reads this
    {
      forall d :: d in output ==> d < |documents| && output[d].document == documents[d] && Consistent(output[d])
    }

    /**
      One vote for stored feature `r`: its document's result is created if missing, then
      the feature's point is marked and its hit counter raised.
    */
    function Record(output: map<nat, Result>, r: FeatureRef): (out: map<nat, Result>)
      reads this
      requires Resolves(r) && OutputWellFormed(output)
      ensures OutputWellFormed(out)
      ensures out.Keys == output.Keys + {r.documentID}
    {
      var f := FeatureAt(r);
      var res := if f.documentID in output then output[f.documentID] else NewResult(documents[f.documentID]);
      output[f.documentID := res.(pointMask := res.pointMask[f.pointID := true],
                                  pointHits := res.pointHits[f.pointID := res.pointHits[f.pointID] + 1])]
    }

    /** The results after recording `votes` in order, starting from an empty map. */
    function RecordAll(votes: seq<FeatureRef>): (out: map<nat, Result>)
      reads this
      requires forall j :: 0 <= j < |votes| ==> Resolves(votes[j])
      ensures OutputWellFormed(out)
    {
      if votes == [] then map[] else Record(RecordAll(votes[..|votes| - 1]), votes[|votes| - 1])
    }

    /** How many of `votes` went to point `p` of document `d`. */
    function HitsOn(votes: seq<FeatureRef>, d: nat, p: nat): nat
      reads this
      requires forall j :: 0 <= j < |votes| ==> Resolves(votes[j])
    {
      if votes == [] then 0
      else
        assert Resolves(votes[|votes| - 1]);
        var f := FeatureAt(votes[|votes| - 1]);
        HitsOn(votes[..|votes| - 1], d, p) + (if f.documentID == d && f.pointID == p then 1 else 0)
    }

    /** How many of `votes` went to document `d`; never more than there are votes. */
    function VotesFor(votes: seq<FeatureRef>, d: nat): (n: nat)
      reads this
      requires forall j :: 0 <= j < |votes| ==> Resolves(votes[j])
      ensures n <= |votes|
    {
      if votes == [] then 0
      else
        assert Resolves(votes[|votes| - 1]);
        VotesFor(votes[..|votes| - 1], d) + (if FeatureAt(votes[|votes| - 1]).documentID == d then 1 else 0)
    }

    /** The votes for one point of a document are among the votes for that document. */
    lemma {:induction false} HitsOnAtMost(votes: seq<FeatureRef>, d: nat, p: nat)
      requires forall j :: 0 <= j < |votes| ==> Resolves(votes[j])
      ensures HitsOn(votes, d, p) <= VotesFor(votes, d)
    {
      if votes != [] {
        HitsOnAtMost(votes[..|votes| - 1], d, p);
      }
    }

    /** A document has a result exactly when at least one vote went to it. */
    lemma {:induction false} RecordAllKeys(votes: seq<FeatureRef>)
      requires forall j :: 0 <= j < |votes| ==> Resolves(votes[j])
      ensures forall d :: d in RecordAll(votes) <==> VotesFor(votes, d) > 0
    {
      if votes != [] {
        RecordAllKeys(votes[..|votes| - 1]);
      }
    }

    /** One vote raises exactly the counter of the voted feature's point in its document's result. */
    lemma RecordHit(output: map<nat, Result>, r: FeatureRef, d: nat, p: nat)
      requires Resolves(r) && OutputWellFormed(output)
      requires d in Record(output, r) && p < |documents[d].locations|
      ensures d in output ==> p < |output[d].pointHits|
      ensures Record(output, r)[d].pointHits[p] ==
        (if d in output then output[d].pointHits[p] else 0) +
        (if FeatureAt(r).documentID == d && FeatureAt(r).pointID == p then 1 else 0)
    {
    }

    /** One vote adds one to the total of its document's result and nothing to the others. */
    lemma RecordTotal(output: map<nat, Result>, r: FeatureRef, d: nat)
      requires Resolves(r) && OutputWellFormed(output) && d in Record(output, r)
      ensures d in output ==> |output[d].pointHits| == |documents[d].locations|
      ensures SumHits(Record(output, r)[d].pointHits, |documents[d].locations|) ==
        (if d in output then SumHits(output[d].pointHits, |documents[d].locations|) else 0) +
        (if FeatureAt(r).documentID == d then 1 else 0)
    {
      var f := FeatureAt(r);
      if f.documentID == d {
        var res := if d in output then output[d] else NewResult(documents[d]);
        SumHitsIncrement(res.pointHits, f.pointID, |res.pointHits|);
      }
    }

    /** Each counter of a result holds the number of votes that went to that point of that document. */
    lemma {:induction false} RecordAllHits(votes: seq<FeatureRef>, d: nat, p: nat)
      requires forall j :: 0 <= j < |votes| ==> Resolves(votes[j])
      requires d in RecordAll(votes) && p < |documents[d].locations|
      ensures p < |RecordAll(votes)[d].pointHits|
      ensures RecordAll(votes)[d].pointHits[p] == HitsOn(votes, d, p)
    {
      var prev := votes[..|votes| - 1];
      var r := votes[|votes| - 1];
      assert Resolves(r);
      var before := RecordAll(prev);
      if d in before {
        RecordAllHits(prev, d, p);
      } else {
        RecordAllKeys(prev);
        HitsOnAtMost(prev, d, p);
      }
      RecordHit(before, r, d, p);
    }

    /** A point of a document is marked exactly when at least one vote went to it. */
    lemma RecordAllMarks(votes: seq<FeatureRef>, d: nat, p: nat)
      requires forall j :: 0 <= j < |votes| ==> Resolves(votes[j])
      requires d in RecordAll(votes) && p < |documents[d].locations|
      ensures p < |RecordAll(votes)[d].pointMask|
      ensures RecordAll(votes)[d].pointMask[p] <==> HitsOn(votes, d, p) > 0
    {
      RecordAllHits(votes, d, p);
    }

    /** A result's counters add up to the number of votes its document got. */
    lemma {:induction false} RecordAllTotal(votes: seq<FeatureRef>, d: nat)
      requires forall j :: 0 <= j < |votes| ==> Resolves(votes[j])
      requires d in RecordAll(votes)
      ensures SumHits(RecordAll(votes)[d].pointHits, |RecordAll(votes)[d].pointHits|) == VotesFor(votes, d)
    {
      var prev := votes[..|votes| - 1];
      var r := votes[|votes| - 1];
      assert Resolves(r);
      var before := RecordAll(prev);
      if d in before {
        RecordAllTotal(prev, d);
      } else {
        RecordAllKeys(prev);
      }
      RecordTotal(before, r, d);
    }

    /** One more probe: its vote, if any, is appended. */
    lemma VotesStep(probes: seq<Probe<Point>>, n: nat)
      requires Valid() && n < |probes|
      ensures var prev := Votes(probes, n);
        var v := VoteOf(probes[n].points, Counted(prev));
        Votes(probes, n + 1) == if v.Some? then prev + [v.value] else prev
    {
    }

    /** The results and the counted features after the first `n` probes of a lookup. */
    predicate VotedUpTo(probes: seq<Probe<Point>>, n: nat, output: map<nat, Result>, known: set<FeatureRef>)
      reads this
      requires Valid() && n <= |probes|
    {
      known == Counted(Votes(probes, n)) && output == RecordAll(Votes(probes, n))
    }

    /** The effect of `lookupProcessor` on the next probe extends the votes by that probe's vote. */
    lemma VoteAllStep(probes: seq<Probe<Point>>, n: nat, output: map<nat, Result>, known: set<FeatureRef>,
                      output': map<nat, Result>, known': set<FeatureRef>)
      requires Valid() && n < |probes|
      requires VotedUpTo(probes, n, output, known)
      requires VoteOf(probes[n].points, known).None? ==> output' == output && known' == known
      requires VoteOf(probes[n].points, known).Some? ==>
        output' == Record(output, VoteOf(probes[n].points, known).value) &&
        known' == known + {VoteOf(probes[n].points, known).value}
      ensures VotedUpTo(probes, n + 1, output', known')
    {
      var prev := Votes(probes, n);
      var vote := VoteOf(probes[n].points, known);
      VotesStep(probes, n);
      if vote.Some? {
        RecordAllSnoc(prev, vote.value);
        CountedSnoc(prev, vote.value);
      }
    }

    /** Counting one more vote adds its feature to the counted ones. */
    lemma CountedSnoc(votes: seq<FeatureRef>, r: FeatureRef)
      ensures Counted(votes + [r]) == Counted(votes) + {r}
    {
      assert (votes + [r])[..|votes|] == votes;
    }

    /** Recording one more vote is one more `Record` step. */
    lemma RecordAllSnoc(votes: seq<FeatureRef>, r: FeatureRef)
      requires forall j :: 0 <= j < |votes| ==> Resolves(votes[j])
      requires Resolves(r)
      ensures forall j :: 0 <= j < |votes + [r]| ==> Resolves((votes + [r])[j])
      ensures RecordAll(votes + [r]) == Record(RecordAll(votes), r)
    {
      assert (votes + [r])[..|votes|] == votes;
    }

    /**
      The lookup step for one probe (`lookupProcessor`): walk the chain of the probe's hash
      code, skip entries whose invariants differ or that were already counted, and on the
      first other entry count it and vote for its document and point, then stop.
    */
    method LookupProcessor(output: map<nat, Result>, known: set<FeatureRef>, points: seq<Point>)
      returns (output': map<nat, Result>, known': set<FeatureRef>)
      requires Valid() && OutputWellFormed(output)
      ensures VoteOf(points, known).None? ==> output' == output && known' == known
      ensures VoteOf(points, known).Some? ==>
        output' == Record(output, VoteOf(points, known).value) && known' == known + {VoteOf(points, known).value}
    {
      var h := computeHash(points);
      var chain := ChainOf(h.hashCode);
      ChainValid(h.hashCode);
      output', known' := output, known;
      var i := 0;
      while i < |chain|
        invariant 0 <= i <= |chain|
        invariant forall q :: 0 <= q < i ==> !Votable(chain[q], h.invariants, known)
        invariant output' == output && known' == known
      {
        var found := chain[i];
        // condition 1: the invariants must match
        if !invariantsMatch(h.invariants, FeatureAt(found).invariants) {
          i := i + 1;
          continue;
        }
        // condition 2: a stored feature is counted once per lookup
        if found in known' {
          i := i + 1;
          continue;
        } else {
          known' := known' + {found};
        }
        assert FirstVotable(chain, h.invariants, known) == i;
        output' := CastVote(output', found);
        // condition 3: one vote per probe
        return;
      }
      assert FirstVotable(chain, h.invariants, known) == |chain|;
    }

    /** The voting part of `lookupProcessor`: fetch or create the document's result, then mark and count the point. */
    method CastVote(output: map<nat, Result>, found: FeatureRef) returns (output': map<nat, Result>)
      requires Resolves(found) && OutputWellFormed(output)
      ensures output' == Record(output, found)
    {
      var f := FeatureAt(found);
      var results: Result;
      if f.documentID in output {
        results := output[f.documentID];
      } else {
        results := NewResult(documents[f.documentID]);
      }
      results := results.(pointMask := results.pointMask[f.pointID := true],
                          pointHits := results.pointHits[f.pointID := results.pointHits[f.pointID] + 1]);
      output' := output[f.documentID := results];
    }

    /**
      `lookupDocuments`: after the size gate, every probe of the observed points votes in
      enumeration order; the result map holds, per voted-for document, which of its points
      were matched and how often.
    */
    method LookupDocuments(pts: seq<Point>) returns (outcome: Outcome<map<nat, Result>, LlahError>)
      requires Valid()
      ensures |pts| < numberOfNeighborsN + 1 ==> outcome == Failure(TooFewPoints(numberOfNeighborsN + 1))
      ensures |pts| >= numberOfNeighborsN + 1 ==> outcome == Success(RecordAll(Votes(Probes(pts), |Probes(pts)|)))
    {
      var check := CheckListSize(|pts|);
      if check.Failure? {
        return Failure(check.error);
      }
      var probes := ComputeAllFeatures(pts);
      var output := VoteAll(probes);
      return Success(output);
    }

    /** The processor calls of `lookupDocuments`: `lookupProcessor` for each probe in turn, sharing the results and the counted features. */
    method VoteAll(probes: seq<Probe<Point>>) returns (output: map<nat, Result>)
      requires Valid()
      ensures output == RecordAll(Votes(probes, |probes|))
    {
      output := map[];
      var known: set<FeatureRef> := {};
      var n := 0;
      while n < |probes|
        invariant 0 <= n <= |probes|
        invariant VotedUpTo(probes, n, output, known)
      {
        output, known := VoteNext(probes, n, output, known);
        n := n + 1;
      }
    }

    /** One processor call of `lookupDocuments`: the next probe's `lookupProcessor` step. */
    method VoteNext(probes: seq<Probe<Point>>, n: nat, output: map<nat, Result>, known: set<FeatureRef>)
      returns (output': map<nat, Result>, known': set<FeatureRef>)
      requires Valid() && n < |probes|
      requires VotedUpTo(probes, n, output, known)
      ensures VotedUpTo(probes, n + 1, output', known')
    {
      output', known' := LookupProcessor(output, known, probes[n].points);
      VoteAllStep(probes, n, output, known, output', known');
    }

    /**
      Per document, the matched points never outnumber its hits, and its hits never outnumber
      the probes of the lookup (`countMatches <= countHits <= |pts| * C(N, M) * M`).
    */
    lemma LookupBound(pts: seq<Point>, d: nat)
      requires Valid() && numberOfNeighborsN + 1 <= |pts|
      ensures var out := RecordAll(Votes(Probes(pts), |Probes(pts)|));
        d in out ==>
          CountTrue(out[d].pointMask) <= SumHits(out[d].pointHits, |out[d].pointHits|) <= |Probes(pts)|
    {
      var votes := Votes(Probes(pts), |Probes(pts)|);
      var out := RecordAll(votes);
      if d in out {
        var r := out[d];
        RecordAllTotal(votes, d);
        MatchesAtMostHits(r.pointMask, r.pointHits, |r.pointMask|);
        assert r.pointMask[..|r.pointMask|] == r.pointMask;
      }
    }

    /** The hits of the results of documents `0..D-1`, added up. */
    function HitsBelow(out: map<nat, Result>, D: nat): int
    {
      if D == 0 then 0
      else HitsBelow(out, D - 1) + (if D - 1 in out then SumHits(out[D - 1].pointHits, |out[D - 1].pointHits|) else 0)
    }

    lemma {:induction false} HitsBelowEmpty(D: nat)
      ensures HitsBelow(map[], D) == 0
    {
      if D > 0 {
        HitsBelowEmpty(D - 1);
      }
    }

    /** One vote adds one hit to the results of documents `0..D-1` when its document is among them, and none otherwise. */
    lemma {:induction false} HitsBelowRecord(output: map<nat, Result>, r: FeatureRef, D: nat)
      requires Resolves(r) && OutputWellFormed(output)
      ensures HitsBelow(Record(output, r), D) == HitsBelow(output, D) + (if r.documentID < D then 1 else 0)
    {
      if D > 0 {
        HitsBelowRecord(output, r, D - 1);
        var d := D - 1;
        if d in Record(output, r) {
          RecordTotal(output, r, d);
        }
      }
    }

    /** Every result belongs to a stored document, and the hits of all results together number the votes. */
    lemma {:induction false} RecordAllHitsTotal(votes: seq<FeatureRef>)
      requires forall j :: 0 <= j < |votes| ==> Resolves(votes[j])
      ensures forall d :: d in RecordAll(votes) ==> d < |documents|
      ensures HitsBelow(RecordAll(votes), |documents|) == |votes|
    {
      if votes == [] {
        HitsBelowEmpty(|documents|);
      } else {
        var prev := votes[..|votes| - 1];
        var r := votes[|votes| - 1];
        assert Resolves(r);
        RecordAllHitsTotal(prev);
        HitsBelowRecord(RecordAll(prev), r, |documents|);
      }
    }

    /**
      Across all results of a lookup, the hits add up to the number of votes cast, so to at
      most the number of probes (`sum of countHits <= |pts| * C(N, M) * M`).
    */
    lemma LookupTotal(pts: seq<Point>)
      requires Valid() && numberOfNeighborsN + 1 <= |pts|
      ensures var votes := Votes(Probes(pts), |Probes(pts)|);
        var out := RecordAll(votes);
        (forall d :: d in out ==> d < |documents|) &&
        HitsBelow(out, |documents|) == |votes| <= |Probes(pts)|
    {
      RecordAllHitsTotal(Votes(Probes(pts), |Probes(pts)|));
    }

    // ---------------------------------------------------------------- learning

    /** The raw bins of the invariants of each probe, probe by probe. */
    function ProbeBins(probes: seq<Probe<Point>>, rawBin: real -> int): seq<int>
    {
      if probes == [] then []
      else ProbeBins(probes[..|probes| - 1], rawBin) + Map(computeInvariants(probes[|probes| - 1].points), rawBin)
    }

    /** The probes of each point set, set by set. */
    function ProbeLists(pointSets: seq<seq<Point>>): (lists: seq<seq<Probe<Point>>>)
      requires Configured() && forall q :: 0 <= q < |pointSets| ==> numberOfNeighborsN + 1 <= |pointSets[q]|
      ensures |lists| == |pointSets|
    {
      if pointSets == [] then []
      else ProbeLists(pointSets[..|pointSets| - 1]) + [Probes(pointSets[|pointSets| - 1])]
    }

    lemma {:induction false} ProbeListsAt(pointSets: seq<seq<Point>>, q: nat)
      requires Configured() && forall q :: 0 <= q < |pointSets| ==> numberOfNeighborsN + 1 <= |pointSets[q]|
      requires q < |pointSets|
      ensures ProbeLists(pointSets)[q] == Probes(pointSets[q])
    {
      if q < |pointSets| - 1 {
        ProbeListsAt(pointSets[..|pointSets| - 1], q);
      }
    }

    /** The raw bins of a list of probe lists, list by list. */
    function ListBins(lists: seq<seq<Probe<Point>>>, rawBin: real -> int): seq<int>
    {
      if lists == [] then []
      else ListBins(lists[..|lists| - 1], rawBin) + ProbeBins(lists[|lists| - 1], rawBin)
    }

    /** The raw bins of every invariant of every probe of every point set, in the order `learnHashing` visits them. */
    function RawBins(pointSets: seq<seq<Point>>, rawBin: real -> int): seq<int>
      requires Configured() && forall q :: 0 <= q < |pointSets| ==> numberOfNeighborsN + 1 <= |pointSets[q]|
    {
      ListBins(ProbeLists(pointSets), rawBin)
    }

    /** The invariants of every probe clamp into the histogram. */
    predicate ProbesInBins(length: int, probes: seq<Probe<Point>>, rawBin: real -> int)
    {
      forall p :: 0 <= p < |probes| ==> InBins(length, Map(computeInvariants(probes[p].points), rawBin))
    }

    /** The invariants of every probe of every list clamp into the histogram. */
    predicate ListsInBins(length: int, lists: seq<seq<Probe<Point>>>, rawBin: real -> int)
    {
      forall q :: 0 <= q < |lists| ==> ProbesInBins(length, lists[q], rawBin)
    }

    lemma {:induction false} ProbeBinsInBins(length: int, probes: seq<Probe<Point>>, rawBin: real -> int)
      ensures InBins(length, ProbeBins(probes, rawBin)) <==> ProbesInBins(length, probes, rawBin)
    {
      if probes != [] {
        var init := probes[..|probes| - 1];
        ProbeBinsInBins(length, init, rawBin);
        InBinsAppend(length, ProbeBins(init, rawBin), Map(computeInvariants(probes[|probes| - 1].points), rawBin));
        assert forall p :: 0 <= p < |init| ==> init[p] == probes[p];
      }
    }

    lemma {:induction false} ListBinsInBins(length: int, lists: seq<seq<Probe<Point>>>, rawBin: real -> int)
      ensures InBins(length, ListBins(lists, rawBin)) <==> ListsInBins(length, lists, rawBin)
    {
      if lists != [] {
        var init := lists[..|lists| - 1];
        ListBinsInBins(length, init, rawBin);
        ProbeBinsInBins(length, lists[|lists| - 1], rawBin);
        InBinsAppend(length, ListBins(init, rawBin), ProbeBins(lists[|lists| - 1], rawBin));
        assert forall q :: 0 <= q < |init| ==> init[q] == lists[q];
      }
    }

    /** The loop over one point set's probes in `learnHashing`: each probe's invariants are tallied in turn. */
    method TallyProbes(histogram: array<int>, ghost seen: seq<int>, probes: seq<Probe<Point>>, rawBin: real -> int)
      returns (ok: bool)
      requires histogram[..] == Tally(histogram.Length, ClampAll(histogram.Length, seen))
      modifies histogram
      ensures ok <==> ProbesInBins(histogram.Length, probes, rawBin)
      ensures ok ==> histogram[..] == Tally(histogram.Length, ClampAll(histogram.Length, seen + ProbeBins(probes, rawBin)))
    {
      assert seen + ProbeBins(probes[..0], rawBin) == seen;
      var p := 0;
      while p < |probes|
        invariant 0 <= p <= |probes|
        invariant ProbesInBins(histogram.Length, probes[..p], rawBin)
        invariant histogram[..] == Tally(histogram.Length, ClampAll(histogram.Length, seen + ProbeBins(probes[..p], rawBin)))
      {
        assert probes[..p + 1][..p] == probes[..p];
        var inv := computeInvariants(probes[p].points);
        ghost var before := seen + ProbeBins(probes[..p], rawBin);
        var okProbe := TallyInvariants(histogram, before, inv, rawBin);
        if !okProbe {
          assert !InBins(histogram.Length, Map(computeInvariants(probes[p].points), rawBin));
          return false;
        }
        assert seen + ProbeBins(probes[..p + 1], rawBin) == before + Map(inv, rawBin);
        p := p + 1;
      }
      assert probes[..p] == probes;
      return true;
    }

    /** One point set in `learnHashing`: its probes are enumerated, then their invariants tallied. */
    method TallySet(histogram: array<int>, ghost seen: seq<int>, pts: seq<Point>, rawBin: real -> int) returns (ok: bool)
      requires Configured() && numberOfNeighborsN + 1 <= |pts|
      requires histogram[..] == Tally(histogram.Length, ClampAll(histogram.Length, seen))
      modifies histogram
      ensures ok <==> ProbesInBins(histogram.Length, Probes(pts), rawBin)
      ensures ok ==> histogram[..] == Tally(histogram.Length, ClampAll(histogram.Length, seen + ProbeBins(Probes(pts), rawBin)))
    {
      var probes := ComputeAllFeatures(pts);
      ok := TallyProbes(histogram, seen, probes, rawBin);
    }

    /** The loop over the point sets in `learnHashing`: the probes of each set are enumerated and tallied in turn. */
    method TallySets(histogram: array<int>, pointSets: seq<seq<Point>>, rawBin: real -> int) returns (ok: bool)
      requires Configured() && forall q :: 0 <= q < |pointSets| ==> numberOfNeighborsN + 1 <= |pointSets[q]|
      requires histogram[..] == Tally(histogram.Length, ClampAll(histogram.Length, []))
      modifies histogram
      ensures ok <==> InBins(histogram.Length, RawBins(pointSets, rawBin))
      ensures ok ==> histogram[..] == Tally(histogram.Length, ClampAll(histogram.Length, RawBins(pointSets, rawBin)))
    {
      ghost var lists := ProbeLists(pointSets);
      assert lists[..0] == [];
      var q := 0;
      while q < |pointSets|
        invariant 0 <= q <= |pointSets|
        invariant Tallied(histogram[..], lists[..q], rawBin)
      {
        ghost var before := histogram[..];
        ProbeListsAt(pointSets, q);
        ok := TallySet(histogram, ListBins(lists[..q], rawBin), pointSets[q], rawBin);
        if !ok {
          ListOutOfBins(histogram.Length, lists, q, rawBin);
          return;
        }
        TalliedStep(before, lists, q, histogram[..], rawBin);
        q := q + 1;
      }
      assert lists[..q] == lists;
      ListBinsInBins(histogram.Length, lists, rawBin);
      ok := true;
    }

    /** Histogram `h` holds the clamped bins of every probe of `lists`, all of them in range. */
    predicate Tallied(h: seq<int>, lists: seq<seq<Probe<Point>>>, rawBin: real -> int)
    {
      ListsInBins(|h|, lists, rawBin) && h == Tally(|h|, ClampAll(|h|, ListBins(lists, rawBin)))
    }

    /** Tallying one more probe list extends the tally of the lists before it. */
    lemma TalliedStep(h: seq<int>, lists: seq<seq<Probe<Point>>>, q: nat, h': seq<int>, rawBin: real -> int)
      requires q < |lists| && Tallied(h, lists[..q], rawBin)
      requires |h'| == |h| && ProbesInBins(|h|, lists[q], rawBin)
      requires h' == Tally(|h|, ClampAll(|h|, ListBins(lists[..q], rawBin) + ProbeBins(lists[q], rawBin)))
      ensures Tallied(h', lists[..q + 1], rawBin)
    {
      var next := lists[..q + 1];
      assert next[..q] == lists[..q];
      assert next[q] == lists[q];
      assert forall k :: 0 <= k < q ==> next[k] == lists[k];
    }

    /** A probe list with a bad index makes the bins of all lists bad. */
    lemma ListOutOfBins(length: int, lists: seq<seq<Probe<Point>>>, q: nat, rawBin: real -> int)
      requires q < |lists| && !ProbesInBins(length, lists[q], rawBin)
      ensures !InBins(length, ListBins(lists, rawBin))
    {
      ListBinsInBins(length, lists, rawBin);
    }

    /**
      `learnHashing`, up to the call of the hasher's `learnDiscretization`: every invariant of
      every probe of every point set is counted in bin `min(length - 1, raw)` of a histogram
      of `histogramLength` counters, then the share of the last bin is checked against
      `0.5 / numDiscrete`. The histogram handed to the hasher and the warning are returned.
      A negative length fails the allocation; a zero length or a negative raw bin index fails
      an array access.
    */
    method LearnHashing(pointSets: seq<seq<Point>>, numDiscrete: int, histogramLength: int, rawBin: real -> int)
      returns (outcome: Outcome<Learned, LlahError>)
      requires Configured()
      requires forall q :: 0 <= q < |pointSets| ==> numberOfNeighborsN + 1 <= |pointSets[q]|
      ensures histogramLength < 0 ==> outcome == Failure(NegativeArraySize)
      ensures histogramLength >= 0 ==>
        var raws := RawBins(pointSets, rawBin);
        (outcome.Failure? <==> histogramLength == 0 || exists k :: 0 <= k < |raws| && raws[k] < 0) &&
        (outcome.Failure? ==> outcome.error == IndexOutOfBounds)
      ensures outcome.Success? ==>
        var raws := RawBins(pointSets, rawBin);
        var h := outcome.value.histogram;
        histogramLength > 0 &&
        h == Tally(histogramLength, ClampAll(histogramLength, raws)) &&
        Total(h) == |raws| &&
        outcome.value.warned == Saturated(h[histogramLength - 1], |raws|, numDiscrete)
    {
      if histogramLength < 0 {
        return Failure(NegativeArraySize);
      }
      var histogram := new int[histogramLength](_ => 0);
      assert histogram[..] == Tally(histogramLength, ClampAll(histogramLength, []));
      var ok := TallySets(histogram, pointSets, rawBin);
      ghost var raws := RawBins(pointSets, rawBin);
      InBinsIff(histogramLength, raws);
      if !ok {
        return Failure(IndexOutOfBounds);
      }
      if histogramLength == 0 {
        return Failure(IndexOutOfBounds);
      }
      var total := SumHistogram(histogram);
      ClampedInRange(histogramLength, raws);
      TallyTotal(histogramLength, ClampAll(histogramLength, raws));
      var warned := Saturated(histogram[histogramLength - 1], total, numDiscrete);
      return Success(Learned(histogram[..], warned));
    }
  }
}
