# LLAH operations and descriptor distances, in Dafny

This project models two parts of BoofCV.

**LLAH (Locally Likely Arrangement Hashing) document retrieval** is `LlahOperations`.
- A *document* is a set of 2D points.
- Around every point, the N nearest other points are found with a k-d tree and sorted by their angle around that point.
- Every combination of M of them is taken, and then every cyclic rotation of each combination. Each rotation goes to the hasher, which returns a hash code and discretised invariants. That pair is the *feature*.
- Registering a document (`createDocument`) files each feature in a hash table with chaining.
- Looking up an observed point set (`lookupDocuments`) computes the same features. For each one it walks the chain of its hash code. The first stored feature whose invariants match, and that was not counted before, gets one vote: its document's result marks that point and raises that point's hit counter.
- `learnHashing` builds the histogram of all invariant values that the hasher's discretisation is learned from. It also warns when the last bin holds too much of the mass.
- `Result` answers three queries over a document's result: which points matched, how many matched, and how many hits there were.

**Descriptor distances** are three functions of `DescriptorDistance`:
- the Hamming distance of two 32-bit words, computed with Kernighan's bit-clearing loop;
- the Hamming distance of two BRIEF descriptors, as the sum over their words;
- the sum of absolute differences of two byte descriptors, with each byte read as unsigned.

## Files

- `wrappers.dfy`: `Option` and `Outcome`. `Outcome` is a value, or the exception the source would throw.
- `descriptor_distance.dfy`: 32-bit words as bit patterns, XOR, AND, the population count, and the three distances. The loops are proved against these definitions.
- `llah_data.dfy`: documents, features, feature references and `Result`, plus the three `Result` queries as loops over the mask.
- `llah_combinatorics.dfy`:
  - lexicographic combinations, proved sound and complete, with C(n, k) of them;
  - cyclic rotations;
  - the per-point probe enumeration and its order;
  - sorting by angle.
- `llah_histogram.dfy`: clamping into bins, the histogram as a count per bin, the last-bin warning, and the array loop that fills the histogram.
- `llah_operations.dfy`: the `LlahOperations` class.
  - Fields: `documents` (a `seq`) and `hashTable` (a `map` from hash code to chain).
  - Class invariant `Valid()`: document `d` sits at index `d`. Every chain entry names a stored feature with that hash code. Every stored feature is in the chain of its hash code.
  - Plus the neighbour search, the enumeration, registration, lookup and learning.

The hasher (`computeHash`, `computeInvariants`, `doInvariantsMatch`), the k-d tree search and `Math.atan2` are constant function-valued fields. The k-d tree is relied on for one contract, `NearestContract`: asked for the k nearest points to a point of a list that has at least k points, it returns k distinct indices, and the point itself is among them. Points are told apart by their index in the list; the source compares them by reference, which agrees as long as the list does not hold one point object twice.

Lookup is specified as a fold. `Votes(probes, n)` is the sequence of stored features voted for by the first `n` probes. `RecordAll` applies the source's result update once per vote. The loops are proved equal to these folds. Then lemmas state what the result map means: which documents appear, and per point the mark and the count.

## Model

LlahOperations.java below stands for `main/boofcv-feature/src/main/java/boofcv/alg/feature/describe/llah/LlahOperations.java`, DescriptorDistance.java for `main/feature/src/boofcv/alg/feature/associate/DescriptorDistance.java`; the table cells give the full paths.

| member | source | states |
|---|---|---|
| DescriptorDistance.Hamming | main/feature/src/boofcv/alg/feature/associate/DescriptorDistance.java:177-187 | Kernighan's loop returns exactly the number of bit positions where the two 32-bit words differ (popcount of the XOR of their two's-complement patterns), which is between 0 and 32 |
| DescriptorDistance.ClearLowestSetBit | main/feature/src/boofcv/alg/feature/associate/DescriptorDistance.java:182-185 | `val & (val - 1)` of a non-zero value is smaller and has exactly one set bit fewer, so each iteration counts one differing bit and the loop ends |
| DescriptorDistance.Pattern | main/feature/src/boofcv/alg/feature/associate/DescriptorDistance.java:180 | a Java `int` is read as the 32-bit pattern congruent to it modulo 2^32 |
| DescriptorDistance.XorZero | main/feature/src/boofcv/alg/feature/associate/DescriptorDistance.java:180-182 | the XOR is zero exactly when the two patterns are equal, so the loop body runs only for differing words |
| DescriptorDistance.HammingZeroIff | main/feature/src/boofcv/alg/feature/associate/DescriptorDistance.java:177-187 | the distance is 0 if and only if the two words are equal |
| DescriptorDistance.HammingSymmetric | main/feature/src/boofcv/alg/feature/associate/DescriptorDistance.java:177-187 | the distance does not depend on the argument order |
| DescriptorDistance.HammingAtMost32 | main/feature/src/boofcv/alg/feature/associate/DescriptorDistance.java:177-187 | at most 32 bits can differ |
| DescriptorDistance.PopCountBound | main/feature/src/boofcv/alg/feature/associate/DescriptorDistance.java:182-185 | a value below 2^k has at most k set bits |
| DescriptorDistance.HammingBrief | main/feature/src/boofcv/alg/feature/associate/DescriptorDistance.java:161-168 | the BRIEF score is the sum over the first descriptor's words of the word distances, between 0 and 32 times the word count |
| DescriptorDistance.WordsDistanceSymmetric | main/feature/src/boofcv/alg/feature/associate/DescriptorDistance.java:161-168 | the BRIEF score is symmetric |
| DescriptorDistance.WordsDistanceBound | main/feature/src/boofcv/alg/feature/associate/DescriptorDistance.java:161-168 | the BRIEF score is at most 32 per word |
| DescriptorDistance.Unsigned | main/feature/src/boofcv/alg/feature/associate/DescriptorDistance.java:117 | `b & 0xFF` reads a signed byte as the value in 0..255 congruent to it modulo 256 |
| DescriptorDistance.Sad | main/feature/src/boofcv/alg/feature/associate/DescriptorDistance.java:113-120 | the SAD score is the sum of absolute differences of the unsigned bytes, between 0 and 255 times the length |
| DescriptorDistance.SadSymmetric | main/feature/src/boofcv/alg/feature/associate/DescriptorDistance.java:113-120 | the SAD score is symmetric |
| DescriptorDistance.SadZeroIff | main/feature/src/boofcv/alg/feature/associate/DescriptorDistance.java:113-120 | the SAD score is 0 if and only if the descriptors agree on every compared byte |
| DescriptorDistance.SumAbsDiffBound | main/feature/src/boofcv/alg/feature/associate/DescriptorDistance.java:113-120 | each byte contributes at most 255 |
| LlahData.NewResult | main/boofcv-feature/src/main/java/boofcv/alg/feature/describe/llah/LlahOperations.java:304-311 | a result created for a document refers to it, has one mask entry and one counter per document point, no point marked and a zero hit total |
| LlahData.SumHitsIncrement | main/boofcv-feature/src/main/java/boofcv/alg/feature/describe/llah/LlahOperations.java:317 | raising one counter raises the hit total by one when the counter is counted, and leaves it otherwise |
| LlahData.CountMatches | main/boofcv-feature/src/main/java/boofcv/alg/feature/describe/llah/LlahOperations.java:358-365 | `countMatches` returns the number of marked points, at most the mask size |
| LlahData.CountHits | main/boofcv-feature/src/main/java/boofcv/alg/feature/describe/llah/LlahOperations.java:367-373 | `countHits` returns the sum of the counters over the mask's size, and for a consistent result (a point is marked exactly when its counter is positive) it is at least `countMatches` |
| LlahData.MatchesAtMostHits | main/boofcv-feature/src/main/java/boofcv/alg/feature/describe/llah/LlahOperations.java:358-373 | when marks and positive counters coincide, the number of matches never exceeds the number of hits |
| LlahData.MatchesUpToSpec | main/boofcv-feature/src/main/java/boofcv/alg/feature/describe/llah/LlahOperations.java:348-356 | the matches list holds one entry per marked point, with that point's location and index, in increasing index order, and every marked point appears |
| LlahData.LookupMatches | main/boofcv-feature/src/main/java/boofcv/alg/feature/describe/llah/LlahOperations.java:348-356 | `lookupMatches` produces exactly that list, as many entries as `countMatches` |
| LlahCombinatorics.CombinationsCount | main/boofcv-feature/src/main/java/boofcv/alg/feature/describe/llah/LlahOperations.java:202-220 | the combinator visits C(n, k) combinations |
| LlahCombinatorics.CombinationsSound | main/boofcv-feature/src/main/java/boofcv/alg/feature/describe/llah/LlahOperations.java:202-207 | every visited combination is a strictly increasing k-tuple of neighbour positions |
| LlahCombinatorics.CombinationsComplete | main/boofcv-feature/src/main/java/boofcv/alg/feature/describe/llah/LlahOperations.java:202-220 | every strictly increasing k-tuple of positions is visited |
| LlahCombinatorics.RotationSplice | main/boofcv-feature/src/main/java/boofcv/alg/feature/describe/llah/LlahOperations.java:211-216 | the permutation `permuteM[j] = setM[(i + j) % M]` moves the first `i` points to the back |
| LlahCombinatorics.RotationIsPermutation | main/boofcv-feature/src/main/java/boofcv/alg/feature/describe/llah/LlahOperations.java:211-216 | each cyclic permutation holds the same points as the combination |
| LlahCombinatorics.RotationOfRotation | main/boofcv-feature/src/main/java/boofcv/alg/feature/describe/llah/LlahOperations.java:209-216 | rotating a rotation gives the rotation by the summed offset: an observation that starts elsewhere in the cycle is still among the M permutations |
| LlahCombinatorics.RotationsClosed | main/boofcv-feature/src/main/java/boofcv/alg/feature/describe/llah/LlahOperations.java:209-216 | every rotation of a rotation is one of the rotations that were filed |
| LlahCombinatorics.PointProbesCount | main/boofcv-feature/src/main/java/boofcv/alg/feature/describe/llah/LlahOperations.java:202-220 | one point makes C(N, M) * M processor calls |
| LlahCombinatorics.PointProbesShape | main/boofcv-feature/src/main/java/boofcv/alg/feature/describe/llah/LlahOperations.java:211-218 | every call of one point carries that point's index and M points, a permutation of a combination of its neighbours |
| LlahCombinatorics.PointProbesAt | main/boofcv-feature/src/main/java/boofcv/alg/feature/describe/llah/LlahOperations.java:202-220 | call `k * M + i` of a point is rotation `i` of its `k`-th combination |
| LlahCombinatorics.SortByKey | main/boofcv-feature/src/main/java/boofcv/alg/feature/describe/llah/LlahOperations.java:240-247 | sorting by angle gives a permutation of the neighbours in non-decreasing angle order |
| Llah.Without | main/boofcv-feature/src/main/java/boofcv/alg/feature/describe/llah/LlahOperations.java:233-238 | dropping the target keeps every other search result with its multiplicity, and removes every occurrence of the target |
| Llah.WithoutConcat | main/boofcv-feature/src/main/java/boofcv/alg/feature/describe/llah/LlahOperations.java:233-238 | dropping the target distributes over concatenation, so the kept results stay in the order the search returned them |
| Llah.DistinctOnce | main/boofcv-feature/src/main/java/boofcv/alg/feature/describe/llah/LlahOperations.java:235 | the target occurs once among distinct search results, so exactly one result is dropped |
| Llah.DropTarget | main/boofcv-feature/src/main/java/boofcv/alg/feature/describe/llah/LlahOperations.java:232-238 | the copy loop yields the points of the search results other than the target, in result order |
| Llah.Insert | main/boofcv-feature/src/main/java/boofcv/alg/feature/describe/llah/LlahOperations.java:185 | adding to the hash table puts the new reference at the front of its hash code's chain and leaves every other chain alone |
| Llah.EnumerateSubsets | main/boofcv-feature/src/main/java/boofcv/alg/feature/describe/llah/LlahOperations.java:202-220 | the combination and rotation loops of one point produce exactly its probe list |
| Llah.CopyCombination | main/boofcv-feature/src/main/java/boofcv/alg/feature/describe/llah/LlahOperations.java:204-207 | `setM` holds the neighbours at the combination's positions |
| Llah.Rotate | main/boofcv-feature/src/main/java/boofcv/alg/feature/describe/llah/LlahOperations.java:212-216 | `permuteM` is rotation `i` of `setM` |
| Llah.AppendDocument | main/boofcv-feature/src/main/java/boofcv/alg/feature/describe/llah/LlahOperations.java:163-165 | appending an empty document numbered with the old document count keeps the index invariant |
| Llah.FileFeature | main/boofcv-feature/src/main/java/boofcv/alg/feature/describe/llah/LlahOperations.java:182-185 | appending a feature to its document and adding it to the hash table keeps the index invariant |
| Llah.FileFeatureSound | main/boofcv-feature/src/main/java/boofcv/alg/feature/describe/llah/LlahOperations.java:184-185 | after filing, every chain entry still names a stored feature with that chain's hash code |
| Llah.FileFeatureComplete | main/boofcv-feature/src/main/java/boofcv/alg/feature/describe/llah/LlahOperations.java:184-185 | after filing, every stored feature is still in its hash code's chain |
| Llah.LlahOperations.constructor | main/boofcv-feature/src/main/java/boofcv/alg/feature/describe/llah/LlahOperations.java:102-110 | a new instance keeps N, M and the hasher, has no documents and an empty table, and satisfies the index invariant |
| Llah.LlahOperations.CheckListSizeBoundary | main/boofcv-feature/src/main/java/boofcv/alg/feature/describe/llah/LlahOperations.java:272-275 | the size gate throws exactly for lists shorter than N + 1: N points fail, N + 1 pass |
| Llah.LlahOperations.NeighborsSpec | main/boofcv-feature/src/main/java/boofcv/alg/feature/describe/llah/LlahOperations.java:227-248 | the neighbour list has N points, in non-decreasing angle around the target, and is a permutation of the search results other than the target |
| Llah.LlahOperations.FindNeighbors | main/boofcv-feature/src/main/java/boofcv/alg/feature/describe/llah/LlahOperations.java:227-248 | `findNeighbors` produces that neighbour list |
| Llah.LlahOperations.BlocksUniform | main/boofcv-feature/src/main/java/boofcv/alg/feature/describe/llah/LlahOperations.java:197-220 | every point of the list makes the same number of calls, C(N, M) * M |
| Llah.LlahOperations.ProbesCount | main/boofcv-feature/src/main/java/boofcv/alg/feature/describe/llah/LlahOperations.java:192-222 | `computeAllFeatures` calls the processor `|pts| * C(N, M) * M` times |
| Llah.LlahOperations.ProbesAt | main/boofcv-feature/src/main/java/boofcv/alg/feature/describe/llah/LlahOperations.java:197-219 | call `t * C(N, M) * M + k * M + i` is rotation `i` of the `k`-th combination of point `t`'s sorted neighbours, tagged with `t` |
| Llah.LlahOperations.ProbesShape | main/boofcv-feature/src/main/java/boofcv/alg/feature/describe/llah/LlahOperations.java:197-218 | every call is tagged with a point of the list and carries M points |
| Llah.LlahOperations.ProbesPointIDs | main/boofcv-feature/src/main/java/boofcv/alg/feature/describe/llah/LlahOperations.java:218 | every call's point index is an index of the list |
| Llah.LlahOperations.ComputeAllFeatures | main/boofcv-feature/src/main/java/boofcv/alg/feature/describe/llah/LlahOperations.java:192-222 | the point, combination and rotation loops hand the processor exactly the enumeration above, in order |
| Llah.LlahOperations.FeaturesOfFiled | main/boofcv-feature/src/main/java/boofcv/alg/feature/describe/llah/LlahOperations.java:176-186 | the features `createProcessor` appends for calls naming points of the document carry the document's number and one of its point indices, so the document stays well tagged |
| Llah.LlahOperations.CreateProcessor | main/boofcv-feature/src/main/java/boofcv/alg/feature/describe/llah/LlahOperations.java:176-186 | `createProcessor` appends that feature to the document and puts a reference to it at the front of its chain; nothing else changes and the index invariant holds |
| Llah.LlahOperations.FileNext | main/boofcv-feature/src/main/java/boofcv/alg/feature/describe/llah/LlahOperations.java:171 | one more `createProcessor` call appends the next feature of the enumeration to the new document and files it in the hash table, keeping the index invariant |
| Llah.LlahOperations.FileProbes | main/boofcv-feature/src/main/java/boofcv/alg/feature/describe/llah/LlahOperations.java:171 | running `createProcessor` over all calls gives the new document exactly the features of the enumeration, filed in order |
| Llah.LlahOperations.CreateDocument | main/boofcv-feature/src/main/java/boofcv/alg/feature/describe/llah/LlahOperations.java:160-174 | too few points throw and change nothing; otherwise a document numbered with the old count, holding the points and one feature per call, is appended, every feature is filed, and the index invariant holds |
| Llah.LlahOperations.ChainValid | main/boofcv-feature/src/main/java/boofcv/alg/feature/describe/llah/LlahOperations.java:286-290 | every feature reachable from a chain is stored, has the chain's hash code, carries its own document's number and names one of that document's points |
| Llah.LlahOperations.FirstVotable | main/boofcv-feature/src/main/java/boofcv/alg/feature/describe/llah/LlahOperations.java:287-300 | the chain walk stops at the first entry whose invariants match and which was not counted yet, and every entry before it fails one of the two conditions |
| Llah.LlahOperations.VoteOf | main/boofcv-feature/src/main/java/boofcv/alg/feature/describe/llah/LlahOperations.java:283-320 | a call votes for a stored feature in its hash code's chain with matching invariants that was not counted yet, and casts no vote exactly when no chain entry qualifies |
| Llah.LlahOperations.Counted | main/boofcv-feature/src/main/java/boofcv/alg/feature/describe/llah/LlahOperations.java:294-300 | the counted features are exactly the features voted for so far |
| Llah.LlahOperations.Votes | main/boofcv-feature/src/main/java/boofcv/alg/feature/describe/llah/LlahOperations.java:262-266 | a lookup casts at most one vote per call, every vote names a stored feature, and no stored feature is voted for twice |
| Llah.LlahOperations.Record | main/boofcv-feature/src/main/java/boofcv/alg/feature/describe/llah/LlahOperations.java:302-317 | one vote creates its document's result when missing and keeps every result consistent and sized to its document |
| Llah.LlahOperations.RecordAllKeys | main/boofcv-feature/src/main/java/boofcv/alg/feature/describe/llah/LlahOperations.java:303-313 | a document has a result exactly when at least one vote went to it |
| Llah.LlahOperations.RecordHit | main/boofcv-feature/src/main/java/boofcv/alg/feature/describe/llah/LlahOperations.java:316-317 | one vote raises exactly the counter of the voted feature's point in its document's result |
| Llah.LlahOperations.RecordTotal | main/boofcv-feature/src/main/java/boofcv/alg/feature/describe/llah/LlahOperations.java:317 | one vote raises its document's hit total by one and no other total |
| Llah.LlahOperations.RecordAllHits | main/boofcv-feature/src/main/java/boofcv/alg/feature/describe/llah/LlahOperations.java:316-317 | each point's counter equals the number of votes that went to that point of that document |
| Llah.LlahOperations.RecordAllMarks | main/boofcv-feature/src/main/java/boofcv/alg/feature/describe/llah/LlahOperations.java:316 | a point is marked exactly when at least one vote went to it |
| Llah.LlahOperations.RecordAllTotal | main/boofcv-feature/src/main/java/boofcv/alg/feature/describe/llah/LlahOperations.java:317 | a result's counters add up to the number of votes its document got |
| Llah.LlahOperations.HitsOnAtMost | main/boofcv-feature/src/main/java/boofcv/alg/feature/describe/llah/LlahOperations.java:316-317 | the votes for one point are among the votes for its document |
| Llah.LlahOperations.CastVote | main/boofcv-feature/src/main/java/boofcv/alg/feature/describe/llah/LlahOperations.java:302-317 | fetching or creating the result and marking and counting the point is one vote |
| Llah.LlahOperations.LookupProcessor | main/boofcv-feature/src/main/java/boofcv/alg/feature/describe/llah/LlahOperations.java:280-322 | `lookupProcessor` changes nothing when no chain entry qualifies, and otherwise records one vote for the first qualifying entry and counts that entry |
| Llah.LlahOperations.VoteNext | main/boofcv-feature/src/main/java/boofcv/alg/feature/describe/llah/LlahOperations.java:266 | after one more call, the results and the counted features are those of the votes so far |
| Llah.LlahOperations.VoteAll | main/boofcv-feature/src/main/java/boofcv/alg/feature/describe/llah/LlahOperations.java:262-266 | starting from no counted features and no results, all calls together record exactly the votes of the lookup |
| Llah.LlahOperations.LookupDocuments | main/boofcv-feature/src/main/java/boofcv/alg/feature/describe/llah/LlahOperations.java:255-267 | too few points throw; otherwise the output is exactly the recorded votes of the enumeration's calls, in order |
| Llah.LlahOperations.LookupBound | main/boofcv-feature/src/main/java/boofcv/alg/feature/describe/llah/LlahOperations.java:255-373 | for each document in the output, `countMatches` ≤ `countHits` ≤ the number of calls |
| Llah.LlahOperations.HitsBelowRecord | main/boofcv-feature/src/main/java/boofcv/alg/feature/describe/llah/LlahOperations.java:302-317 | one vote adds exactly one hit to the results of the documents it ranges over when its document is among them, and none otherwise |
| Llah.LlahOperations.RecordAllHitsTotal | main/boofcv-feature/src/main/java/boofcv/alg/feature/describe/llah/LlahOperations.java:302-317 | every result belongs to a stored document, and the hits of all results together equal the number of votes |
| Llah.LlahOperations.LookupTotal | main/boofcv-feature/src/main/java/boofcv/alg/feature/describe/llah/LlahOperations.java:255-317 | across all results of a lookup the hits add up to the number of votes, which is at most the number of calls |
| Llah.LlahOperations.ProbeListsAt | main/boofcv-feature/src/main/java/boofcv/alg/feature/describe/llah/LlahOperations.java:130-133 | the calls of point set `q` are its enumeration |
| Llah.LlahOperations.ProbeBinsInBins | main/boofcv-feature/src/main/java/boofcv/alg/feature/describe/llah/LlahOperations.java:134-138 | the raw bins of a set's calls all fit the histogram exactly when those of every call do |
| Llah.LlahOperations.ListBinsInBins | main/boofcv-feature/src/main/java/boofcv/alg/feature/describe/llah/LlahOperations.java:130-141 | the raw bins of all sets all fit the histogram exactly when those of every set do |
| Llah.LlahOperations.ListOutOfBins | main/boofcv-feature/src/main/java/boofcv/alg/feature/describe/llah/LlahOperations.java:137-138 | one call with a bin outside the histogram makes the whole learning pass fail |
| Llah.LlahOperations.TallyProbes | main/boofcv-feature/src/main/java/boofcv/alg/feature/describe/llah/LlahOperations.java:133-140 | the processor of one set throws exactly when some invariant's bin falls outside the histogram, and otherwise adds each invariant to its clamped bin |
| Llah.LlahOperations.TallySet | main/boofcv-feature/src/main/java/boofcv/alg/feature/describe/llah/LlahOperations.java:130-140 | one point set adds the invariants of its whole enumeration, or throws for the same reason |
| Llah.LlahOperations.TallySets | main/boofcv-feature/src/main/java/boofcv/alg/feature/describe/llah/LlahOperations.java:130-141 | all point sets leave the histogram of all raw bins, clamped, or throw exactly when one of them falls outside |
| Llah.LlahOperations.TalliedStep | main/boofcv-feature/src/main/java/boofcv/alg/feature/describe/llah/LlahOperations.java:130-141 | tallying one more set extends the tally of the sets before it |
| Llah.LlahOperations.LearnHashing | main/boofcv-feature/src/main/java/boofcv/alg/feature/describe/llah/LlahOperations.java:120-151 | a negative length fails the allocation. A zero length, or any negative raw bin, fails an array access. Otherwise the histogram is the per-bin count of the clamped raw bins, its total is the number of invariant values, and the warning fires exactly when the last bin's share exceeds `0.5 / numDiscrete` |
| LlahHistogram.ClampBinSpec | main/boofcv-feature/src/main/java/boofcv/alg/feature/describe/llah/LlahOperations.java:137 | `min(length - 1, raw)` keeps indices below the last bin and sends the rest to it |
| LlahHistogram.InBinsIff | main/boofcv-feature/src/main/java/boofcv/alg/feature/describe/llah/LlahOperations.java:137-138 | every clamped index is a valid array index exactly when there are no values, or the histogram is non-empty and no raw index is negative |
| LlahHistogram.InBinsAppend | main/boofcv-feature/src/main/java/boofcv/alg/feature/describe/llah/LlahOperations.java:136-138 | the values of two lists fit exactly when those of each list do |
| LlahHistogram.ClampedInRange | main/boofcv-feature/src/main/java/boofcv/alg/feature/describe/llah/LlahOperations.java:137-138 | when they fit, every clamped index lies in 0..length-1 |
| LlahHistogram.TallyStep | main/boofcv-feature/src/main/java/boofcv/alg/feature/describe/llah/LlahOperations.java:137-138 | counting the next raw index increments exactly its clamped bin of the running histogram |
| LlahHistogram.TallySnoc | main/boofcv-feature/src/main/java/boofcv/alg/feature/describe/llah/LlahOperations.java:138 | counting one more value increments exactly its bin |
| LlahHistogram.TotalIncrement | main/boofcv-feature/src/main/java/boofcv/alg/feature/describe/llah/LlahOperations.java:138 | `histogram[j]++` raises the sum by one |
| LlahHistogram.TallyTotal | main/boofcv-feature/src/main/java/boofcv/alg/feature/describe/llah/LlahOperations.java:138-144 | the histogram's sum is the number of values counted |
| LlahHistogram.LastBinCollectsOverflow | main/boofcv-feature/src/main/java/boofcv/alg/feature/describe/llah/LlahOperations.java:137-144 | the last bin counts every value whose raw index is at or past it |
| LlahHistogram.SaturatedIff | main/boofcv-feature/src/main/java/boofcv/alg/feature/describe/llah/LlahOperations.java:144-146 | for positive totals and bucket counts the warning test is the integer test `2 * last * numDiscrete > total` |
| LlahHistogram.AllClippedWarns | main/boofcv-feature/src/main/java/boofcv/alg/feature/describe/llah/LlahOperations.java:143-148 | when every value clips into the last bin, the warning fires |
| LlahHistogram.TallyInvariants | main/boofcv-feature/src/main/java/boofcv/alg/feature/describe/llah/LlahOperations.java:136-139 | the inner loop throws exactly when some invariant's bin is outside the array, and otherwise increments each invariant's clamped bin |
| LlahHistogram.SumHistogram | main/boofcv-feature/src/main/java/boofcv/alg/feature/describe/llah/LlahOperations.java:144 | the sum loop returns the sum of the histogram |

## Left out

- The k-d tree (`nn.setPoints`, `search.findNearest`) is the function field `findNearest`. The model assumes what `NearestContract` states: for a list of at least N + 1 points it returns N + 1 distinct indices, and the target is among them. The tree itself, its distance metric and its tie order are not modelled.
- `Math.atan2` is the function field `atan2`. The hasher's `computeHash`, `computeInvariants`, `getNumberOfInvariants` and `learnDiscretization`, and `LlahFeature.doInvariantsMatch`, are function fields or left out. Their internals belong to other classes.
- `hasher.learnDiscretization` is not modelled. `LearnHashing` returns the histogram it would receive, together with the warning flag.
- Llah.LlahOperations.LearnHashing: the bin index `(int)(histogram.length * invariants[i] / maxInvariantValue)` is floating-point arithmetic followed by a truncating cast. It is the parameter `rawBin`, a function from an invariant value to its raw bin index. NaN and infinity handling in that cast are therefore outside the model.
- LlahHistogram.Saturated: the warning is tested over exact reals. The source tests over doubles. A NaN fraction (zero total) and an infinite bound (`numDiscrete == 0`) are both modelled as "no warning", which is what the double comparison gives.
- `System.err.println` is replaced by the returned `warned` flag.
- Llah.LlahOperations.LearnHashing requires every point set to have at least N + 1 points. The source does not check this. With fewer points the neighbour search returns fewer than N neighbours, and the sort over the `angles` array of length N is then undefined.
- The sorter (`QuickSort_F64` over `angles`) is modelled by `SortByKey`: ascending angle, and a permutation of its input. The model fixes one order among equal angles, which the quicksort does not promise.
- The `angles` work array is folded into the sort key `AngleKey`.
- The `resultsStorage` pool and the recycling of `Result` objects (`reset`) are not modelled. A fresh result (`NewResult`) is what the pool hands out after `reset` and the resize and fill.
- Aliasing between results and the caller's map is not modelled. `lookupDocuments` returns a new map instead of clearing and refilling `output`.
- The processor callbacks (`ProcessPermutation`) are replaced by the list of calls `ComputeAllFeatures` returns, consumed in order by `FileProbes`, `VoteAll` and `TallySet`. The order and the number of calls are those of the source. Interleaving between the enumeration and the processor is not modelled.
- `knownFeatures` is a set of references to stored features (document, index in its feature list). The source's `HashSet<LlahFeature>` relies on the feature's `equals` and `hashCode`, which are not part of this model.
- `LlahHashTable` is not part of this model. Its `add` is taken to put a feature at the front of its hash code's chain (`Insert`), and `lookup` to return that chain.
- Llah.LlahOperations.constructor requires M ≤ N, which the source does not check. With M > N the combinator has no combination to start from.
- `numberOfInvariants` is not kept. The invariant arrays' lengths come from the hasher.
- Integer overflow of `int` sums and counters is not modelled: `total` in `sad`, `countHits` and the `hamming` score, the hit counters, and `IntStream.sum`. All of these are unbounded integers here.
- DescriptorDistance.HammingBrief and DescriptorDistance.Sad require the second descriptor to be at least as long as the first. The source reads `b` at the first descriptor's indices and throws otherwise. That error path is not modelled.
- The floating-point `sad` overloads for `TupleDesc_F32` and `TupleDesc_F64`, and the other distances in `DescriptorDistance`, are outside the modelled core.
- A list that holds the same point object at two indices is not modelled. The source's `n == target` then skips both copies and leaves fewer than N neighbours for the N-long `angles` sort; the model drops only the target's index.
- LlahCombinatorics.Combinations: the enumeration order of ddogleg's `Combinations` is taken to be lexicographic over neighbour positions. That class is not part of this model, so the "k-th combination" statements of `PointProbesAt`, `ProbesAt` and `ComputeAllFeatures` rest on this order.
- LlahData.CountHits requires `pointHits` to be at least as long as `pointMask`. The source's `pointHits.get(i)` throws for a `Result` whose arrays disagree; that error path is not modelled. Every result the lookup builds is consistent.
- LlahData.LookupMatches requires the document to have at least as many locations as `pointMask` has entries. The source's `document.locations.get(i)` throws otherwise; that error path is not modelled.
- `TrackUchiyaMarkers`, the GUI demonstrations and the tests are outside the modelled core.
