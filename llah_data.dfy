/**
  The values an LLAH index stores and hands back: points, features, documents and
  the per-document `Result` of a lookup, with the accessors `countMatches`,
  `countHits` and `lookupMatches`.
*/
module LlahData {

  /** A 2D location. Points are told apart by their position in a list, as the source compares references. */
  datatype Point = Point(x: real, y: real)

  /**
    A feature: the hash code and discretised invariants of one ordered M-point subset,
    with the document and the point (index into the document's locations) it was computed for.
  */
  datatype Feature = Feature(hashCode: int, invariants: seq<int>, documentID: nat, pointID: nat)

  /** A registered point pattern: its ID, a copy of its points and the features computed from them. */
  datatype Document = Document(documentID: nat, locations: seq<Point>, features: seq<Feature>)

  /** A stored feature, named by its document and its index in that document's feature list. */
  datatype FeatureRef = FeatureRef(documentID: nat, index: nat)

  /** Votes collected for one document during one lookup. */
  datatype Result = Result(document: Document, pointMask: seq<bool>, pointHits: seq<int>)

  /** A matched point with its index in the document (`PointIndex2D_F64`). */
  datatype PointIndex = PointIndex(p: Point, index: nat)

  /** Number of `true` entries. */
  function CountTrue(mask: seq<bool>): (n: nat)
    ensures n <= |mask|
  {
    if mask == [] then 0 else CountTrue(mask[..|mask| - 1]) + (if mask[|mask| - 1] then 1 else 0)
  }

  /** Sum of the first `n` counters. */
  function SumHits(hits: seq<int>, n: nat): int
    requires n <= |hits|
  {
    if n == 0 then 0 else SumHits(hits, n - 1) + hits[n - 1]
  }

  /** One more hit on point `p` adds one to every prefix sum that covers `p`. */
  lemma {:induction false} SumHitsIncrement(hits: seq<int>, p: nat, n: nat)
    requires p < |hits| && n <= |hits|
    ensures SumHits(hits[p := hits[p] + 1], n) == SumHits(hits, n) + (if p < n then 1 else 0)
  {
    if n > 0 {
      SumHitsIncrement(hits, p, n - 1);
    }
  }

  /**
    A result as a lookup leaves it: both arrays sized to the document's point count,
    no negative counter, and a point marked exactly when it was hit.
  */
  predicate Consistent(r: Result)
  {
    |r.pointMask| == |r.pointHits| == |r.document.locations| &&
    forall i :: 0 <= i < |r.pointMask| ==> r.pointHits[i] >= 0 && (r.pointMask[i] <==> r.pointHits[i] > 0)
  }

  /** A pooled result after `reset`, assigned to `doc` and resized and zero-filled to its point count. */
  function NewResult(doc: Document): (r: Result)
    ensures Consistent(r) && r.document == doc
    ensures CountTrue(r.pointMask) == 0 && SumHits(r.pointHits, |r.pointHits|) == 0
  {
    var n := |doc.locations|;
    var r := Result(doc, seq(n, i => false), seq(n, i => 0));
    NoneMarked(r.pointMask, r.pointHits, n);
    assert r.pointMask[..n] == r.pointMask;
    r
  }

  lemma {:induction false} NoneMarked(mask: seq<bool>, hits: seq<int>, n: nat)
    requires n <= |mask| && n <= |hits|
    requires forall i :: 0 <= i < n ==> !mask[i] && hits[i] == 0
    ensures CountTrue(mask[..n]) == 0 && SumHits(hits, n) == 0
  {
    if n > 0 {
      assert mask[..n][..n - 1] == mask[..n - 1];
      NoneMarked(mask, hits, n - 1);
    }
    if n == |mask| {
      assert mask[..n] == mask;
    }
  }

  /** `countMatches`: the number of points marked in the mask. */
  method CountMatches(r: Result) returns (total: int)
    ensures total == CountTrue(r.pointMask)
    ensures 0 <= total <= |r.pointMask|
  {
    total := 0;
    var i := 0;
    while i < |r.pointMask|
      invariant 0 <= i <= |r.pointMask|
      invariant total == CountTrue(r.pointMask[..i])
    {
      assert r.pointMask[..i + 1][..i] == r.pointMask[..i];
      if r.pointMask[i] {
        total := total + 1;
      }
      i := i + 1;
    }
    assert r.pointMask[..i] == r.pointMask;
  }

  /** `countHits`: the sum of the hit counters over the mask's length (the counters must be at least that long). */
  method CountHits(r: Result) returns (total: int)
    requires |r.pointHits| >= |r.pointMask|
    ensures total == SumHits(r.pointHits, |r.pointMask|)
    ensures Consistent(r) ==> CountTrue(r.pointMask) <= total
  {
    total := 0;
    var i := 0;
    while i < |r.pointMask|
      invariant 0 <= i <= |r.pointMask|
      invariant total == SumHits(r.pointHits, i)
    {
      total := total + r.pointHits[i];
      i := i + 1;
    }
    if Consistent(r) {
      MatchesAtMostHits(r.pointMask, r.pointHits, |r.pointMask|);
      assert r.pointMask[..|r.pointMask|] == r.pointMask;
    }
  }

  /** A point is matched only if it was hit, so matches never exceed hits. */
  lemma {:induction false} MatchesAtMostHits(mask: seq<bool>, hits: seq<int>, n: nat)
    requires n <= |mask| && n <= |hits|
    requires forall i :: 0 <= i < n ==> hits[i] >= 0 && (mask[i] <==> hits[i] > 0)
    ensures CountTrue(mask[..n]) <= SumHits(hits, n)
  {
    if n > 0 {
      assert mask[..n][..n - 1] == mask[..n - 1];
      MatchesAtMostHits(mask, hits, n - 1);
    }
  }

  /** The marked points among the first `n` mask entries, in index order, each with its location. */
  function MatchesUpTo(r: Result, n: nat): seq<PointIndex>
    requires n <= |r.pointMask| && n <= |r.document.locations|
  {
    if n == 0 then []
    else if r.pointMask[n - 1] then MatchesUpTo(r, n - 1) + [PointIndex(r.document.locations[n - 1], n - 1)]
    else MatchesUpTo(r, n - 1)
  }

  /**
    The exported matches are exactly the marked indices, in increasing order, each with its
    location, so there are as many as `countMatches` reports.
  */
  lemma {:induction false} MatchesUpToSpec(r: Result, n: nat)
    requires n <= |r.pointMask| && n <= |r.document.locations|
    ensures |MatchesUpTo(r, n)| == CountTrue(r.pointMask[..n])
    ensures forall k :: 0 <= k < |MatchesUpTo(r, n)| ==>
      MatchesUpTo(r, n)[k].index < n && r.pointMask[MatchesUpTo(r, n)[k].index] &&
      MatchesUpTo(r, n)[k].p == r.document.locations[MatchesUpTo(r, n)[k].index]
    ensures forall k, l :: 0 <= k < l < |MatchesUpTo(r, n)| ==> MatchesUpTo(r, n)[k].index < MatchesUpTo(r, n)[l].index
    ensures forall i :: 0 <= i < n && r.pointMask[i] ==>
      exists k :: 0 <= k < |MatchesUpTo(r, n)| && MatchesUpTo(r, n)[k].index == i
  {
    if n > 0 {
      MatchesUpToSpec(r, n - 1);
      assert r.pointMask[..n][..n - 1] == r.pointMask[..n - 1];
      var prev := MatchesUpTo(r, n - 1);
      var cur := MatchesUpTo(r, n);
      forall i | 0 <= i < n && r.pointMask[i] ensures exists k :: 0 <= k < |cur| && cur[k].index == i {
        if i < n - 1 {
          var k :| 0 <= k < |prev| && prev[k].index == i;
          assert cur[k] == prev[k];
        } else {
          assert cur[|cur| - 1].index == i;
        }
      }
    }
  }

  /**
    `lookupMatches`: the marked points in increasing index order, each with its location
    in the document (the document must have a location for every mask entry).
  */
  method LookupMatches(r: Result) returns (matches: seq<PointIndex>)
    requires |r.document.locations| >= |r.pointMask|
    ensures matches == MatchesUpTo(r, |r.pointMask|)
    ensures |matches| == CountTrue(r.pointMask)
  {
    matches := [];
    var i := 0;
    while i < |r.pointMask|
      invariant 0 <= i <= |r.pointMask|
      invariant matches == MatchesUpTo(r, i)
    {
      if r.pointMask[i] {
        matches := matches + [PointIndex(r.document.locations[i], i)];
      }
      i := i + 1;
    }
    MatchesUpToSpec(r, i);
    assert r.pointMask[..i] == r.pointMask;
  }
}
