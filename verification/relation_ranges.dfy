/**
  Ranges over the relation: the single-class iterators, prefix searches
  (`getBoundaries`) and the splitting of the whole enumeration into ranges
  for parallel consumers (`partition`).

  The code looks a class's bucket up with the element it was handed
  (`RawKey`), while the cache is keyed by representatives; `RepKey` is the
  evidently intended lookup through the element's representative. Both
  are modelled; the lemmas below show where `RawKey` fails.
*/
module RelationRanges {
  import opened Results
  import opened SeqFacts
  import opened DisjointSets
  import opened PairEnum
  import opened StatesCache
  import opened PairIterator
  import opened BinaryRelation

  /** Which key a single-class lookup uses. */
  datatype Keying = RawKey | RepKey

  /** The half-open range [first, last). Every range built here ends at the owner's end iterator. */
  datatype Range = Range(first: Iter, last: Iter)

  function EmptyRange(r: EqRel): Range {
    Range(End(r), End(r))
  }

  /**
    The pairs a consumer reads from a range. Since `last` is the owner's
    end iterator, `EqEndIff` shows the walk stops exactly when `first`
    reaches the end.
  */
  function RangePairs(rg: Range): seq<Pair>
    requires WellFormed(rg.first)
  {
    Pairs(rg.first)
  }

  ghost predicate AllWellFormed(rs: seq<Range>) {
    forall i :: 0 <= i < |rs| ==> WellFormed(rs[i].first)
  }

  /** The pairs of a list of ranges, read one range after the other. */
  function RangesPairs(rs: seq<Range>): seq<Pair>
    requires AllWellFormed(rs)
  {
    if |rs| == 0 then [] else RangePairs(rs[0]) + RangesPairs(rs[1..])
  }

  lemma {:induction false} RangesPairsAppend(rs: seq<Range>, ts: seq<Range>)
    requires AllWellFormed(rs) && AllWellFormed(ts)
    ensures AllWellFormed(rs + ts)
    ensures RangesPairs(rs + ts) == RangesPairs(rs) + RangesPairs(ts)
  {
    if |rs| > 0 {
      assert (rs + ts)[1..] == rs[1..] + ts;
      RangesPairsAppend(rs[1..], ts);
    } else {
      assert rs + ts == ts;
    }
  }

  /** The key a lookup of `x` uses. */
  function LookupKey(f: Forest, x: int, keying: Keying): int {
    if keying.RepKey? && x in f.rep then f.rep[x] else x
  }

  /** Fetches the bucket under the lookup key; a missing key is an internal-consistency failure. */
  function LookupIn(f: Forest, c: BucketCache, x: int, keying: Keying): Result<seq<int>> {
    var key := LookupKey(f, x, keying);
    if key in c.buckets then Ok(c.buckets[key]) else Fail(MissingBucket)
  }

  /** The lookup against the refreshed cache. */
  function LookupBucket(r: EqRel, x: int, keying: Keying): Result<seq<int>>
    requires Coherent(r)
  {
    LookupIn(r.forest, Fresh(r), x, keying)
  }

  /** All (x, _) in x's class, read from cache `c`. */
  function AnteriorIn(owner: nat, f: Forest, c: BucketCache, x: int, keying: Keying): (res: Result<Iter>)
    ensures res.Fail? ==> res.error == MissingBucket
    ensures res.Ok? ==> WellFormed(res.value) && res.value.owner == owner
    ensures res.Ok? && res.value.Active? ==> res.value.mode == Anterior && res.value.pair.0 == x
  {
    var b :- LookupIn(f, c, x, keying);
    Ok(IterAnterior(owner, x, b))
  }

  /** All (x, _) in x's class. */
  function AnteriorIt(r: EqRel, x: int, keying: Keying): (res: Result<Iter>)
    requires Coherent(r)
    ensures res.Fail? ==> res.error == MissingBucket
    ensures res.Ok? ==> WellFormed(res.value) && res.value.owner == r.id
    ensures res.Ok? && res.value.Active? ==> res.value.mode == Anterior && res.value.pair.0 == x
  {
    AnteriorIn(r.id, r.forest, Fresh(r), x, keying)
  }

  /** The single pair (x, y), or the end iterator when x and y are not related. */
  function AntPostIt(r: EqRel, x: int, y: int, keying: Keying): (res: Result<Iter>)
    requires Coherent(r)
    ensures !Contains(r, x, y) ==> res == Ok(End(r))
    ensures res.Fail? ==> res.error == MissingBucket
    ensures res.Ok? ==> WellFormed(res.value) && res.value.owner == r.id
    ensures res.Ok? && res.value.Active? ==> res.value.mode == AntPost && res.value.pair == (x, y)
  {
    if !SameSet(r.forest, x, y) then Ok(End(r))
    else
      var b :- LookupBucket(r, y, keying);
      Ok(IterAntPost(r.id, x, y, b))
  }

  /** All pairs of x's class, read from the bucket found under x's lookup key. */
  function Closure(r: EqRel, x: int, keying: Keying): (res: Result<Iter>)
    requires Coherent(r)
    ensures res.Fail? ==> res.error == MissingBucket
    ensures res.Ok? ==> WellFormed(res.value) && res.value.owner == r.id
    ensures res.Ok? && res.value.Active? ==> res.value.mode == Within
  {
    var b :- LookupBucket(r, x, keying);
    Ok(IterWithin(r.id, b))
  }

  /** Looking up through the representative finds exactly the element's class. */
  lemma LookupByRepresentative(r: EqRel, x: int)
    requires Coherent(r) && ContainsElement(r, x)
    ensures LookupBucket(r, x, RepKey).Ok?
    ensures var b := LookupBucket(r, x, RepKey).value;
            |b| > 0 && Distinct(b) && forall e :: e in b <==> Contains(r, x, e)
  {
    RebuiltCacheIsPartition(r);
    assert LookupKey(r.forest, x, RepKey) == Find(r.forest, x);
  }

  /** The raw lookup agrees with the intended one exactly on representatives ... */
  lemma RawKeyAgreesOnRepresentatives(r: EqRel, x: int)
    requires Coherent(r) && ContainsElement(r, x) && Find(r.forest, x) == x
    ensures LookupBucket(r, x, RawKey) == LookupBucket(r, x, RepKey)
  {
  }

  /** ... and fails for every other member of a class. */
  lemma RawKeyFailsOffRepresentatives(r: EqRel, x: int)
    requires Coherent(r) && ContainsElement(r, x) && Find(r.forest, x) != x
    ensures LookupBucket(r, x, RawKey) == Fail(MissingBucket)
  {
    RebuiltCacheIsPartition(r);
  }

  /**
    A prefix search with `levels` leading columns bound to `entry`:
    0 → the whole relation, 1 → (entry.0, _), 2 → the pair itself;
    more than two columns is an invalid-usage failure.
  */
  function GetBoundaries(r: EqRel, entry: Pair, levels: nat, keying: Keying): (res: Result<Range>)
    requires Coherent(r)
    ensures res.Ok? ==> WellFormed(res.value.first) && res.value.last == End(r)
  {
    if levels == 0 then Ok(Range(Begin(r), End(r)))
    else if levels == 1 then
      if !ContainsElement(r, entry.0) then Ok(EmptyRange(r))
      else
        var it :- AnteriorIt(r, entry.0, keying);
        Ok(Range(it, End(r)))
    else if levels == 2 then
      if !Contains(r, entry.0, entry.1) then Ok(EmptyRange(r))
      else
        var it :- AntPostIt(r, entry.0, entry.1, keying);
        Ok(Range(it, End(r)))
    else Fail(InvalidLevels)
  }

  /** No bound column: the range is the whole enumeration. More than two: an error. */
  lemma GetBoundariesUnboundAndInvalid(r: EqRel, entry: Pair, levels: nat, keying: Keying)
    requires Coherent(r)
    ensures levels == 0 ==> GetBoundaries(r, entry, levels, keying).Ok? &&
                            RangePairs(GetBoundaries(r, entry, levels, keying).value) == AllPairs(r)
    ensures levels > 2 ==> GetBoundaries(r, entry, levels, keying) == Fail(InvalidLevels)
  {
    BeginEnumeratesRelation(r);
  }

  /** First column bound: exactly the pairs (entry.0, y) of the relation, each once. */
  lemma GetBoundariesFirstBound(r: EqRel, entry: Pair)
    requires Coherent(r)
    ensures GetBoundaries(r, entry, 1, RepKey).Ok?
    ensures var ps := RangePairs(GetBoundaries(r, entry, 1, RepKey).value);
            Distinct(ps) && forall p :: p in ps <==> p.0 == entry.0 && Contains(r, entry.0, p.1)
  {
    var x := entry.0;
    if ContainsElement(r, x) {
      LookupByRepresentative(r, x);
      var b := LookupBucket(r, x, RepKey).value;
      AnteriorYieldsRow(r.id, x, b);
      var ps := Row(x, b);
      forall i, j | 0 <= i < j < |ps|
        ensures ps[i] != ps[j]
      {
      }
      forall p
        ensures p in ps <==> p.0 == x && Contains(r, x, p.1)
      {
        if p.0 == x && Contains(r, x, p.1) {
          var i :| 0 <= i < |b| && b[i] == p.1;
          assert ps[i] == p;
        }
      }
    }
  }

  /** Both columns bound: the pair itself if it is in the relation, else nothing. */
  lemma GetBoundariesBothBound(r: EqRel, entry: Pair)
    requires Coherent(r)
    ensures GetBoundaries(r, entry, 2, RepKey).Ok?
    ensures RangePairs(GetBoundaries(r, entry, 2, RepKey).value) ==
            if Contains(r, entry.0, entry.1) then [entry] else []
  {
    if Contains(r, entry.0, entry.1) {
      LookupByRepresentative(r, entry.1);
      AntPostYieldsOne(r.id, entry.0, entry.1, LookupBucket(r, entry.1, RepKey).value);
    }
  }

  /**
    Under either lookup, a prefix search bound on an unknown element, or on
    an unrelated pair, is the empty range [end, end).
  */
  lemma GetBoundariesAbsentIsEmpty(r: EqRel, entry: Pair, keying: Keying)
    requires Coherent(r)
    ensures !ContainsElement(r, entry.0) ==>
              GetBoundaries(r, entry, 1, keying) == Ok(EmptyRange(r)) &&
              RangePairs(EmptyRange(r)) == []
    ensures !Contains(r, entry.0, entry.1) ==>
              GetBoundaries(r, entry, 2, keying) == Ok(EmptyRange(r))
  {
  }

  /**
    As written, a prefix search bound on a known element that is not its
    class's representative hits the missing-bucket failure.
  */
  lemma GetBoundariesRawKeyFails(r: EqRel, x: int, y: int)
    requires Coherent(r)
    ensures ContainsElement(r, x) && Find(r.forest, x) != x ==>
              GetBoundaries(r, (x, y), 1, RawKey) == Fail(MissingBucket)
    ensures Contains(r, x, y) && Find(r.forest, y) != y ==>
              GetBoundaries(r, (x, y), 2, RawKey) == Fail(MissingBucket)
  {
    if ContainsElement(r, x) && Find(r.forest, x) != x {
      RawKeyFailsOffRepresentatives(r, x);
    }
    if Contains(r, x, y) && Find(r.forest, y) != y {
      RawKeyFailsOffRepresentatives(r, y);
    }
  }

  /** One ANTERIOR range per member of `b`, from member i on. */
  function AnteriorRanges(owner: nat, f: Forest, c: BucketCache, b: seq<int>, i: nat, keying: Keying): (res: Result<seq<Range>>)
    ensures res.Fail? ==> res.error == MissingBucket
    ensures res.Ok? ==> AllWellFormed(res.value)
    decreases |b| - i
  {
    if i >= |b| then Ok([])
    else
      var it :- AnteriorIn(owner, f, c, b[i], keying);
      var rest :- AnteriorRanges(owner, f, c, b, i + 1, keying);
      Ok([Range(it, AtEnd(owner))] + rest)
  }

  /** The ranges for one bucket: split per member when its pairs exceed the per-chunk share. */
  function BucketRanges(owner: nat, f: Forest, c: BucketCache, b: seq<int>, perChunk: nat, keying: Keying): (res: Result<seq<Range>>)
    ensures res.Fail? ==> res.error == MissingBucket
    ensures res.Ok? ==> AllWellFormed(res.value)
  {
    if |b| * |b| > perChunk then AnteriorRanges(owner, f, c, b, 0, keying)
    else Ok([Range(IterWithin(owner, b), AtEnd(owner))])
  }

  /** The ranges for buckets j, j+1, ... of `bs`. */
  function SplitBuckets(owner: nat, f: Forest, c: BucketCache, bs: seq<seq<int>>, j: nat, perChunk: nat, keying: Keying): (res: Result<seq<Range>>)
    ensures res.Fail? ==> res.error == MissingBucket
    ensures res.Ok? ==> AllWellFormed(res.value)
    decreases |bs| - j
  {
    if j >= |bs| then Ok([])
    else
      var head :- BucketRanges(owner, f, c, bs[j], perChunk, keying);
      var tail :- SplitBuckets(owner, f, c, bs, j + 1, perChunk, keying);
      RangesPairsAppend(head, tail);
      Ok(head + tail)
  }

  /** One WITHIN range for each of buckets j, j+1, ... */
  function WithinRanges(owner: nat, bs: seq<seq<int>>, j: nat): (rs: seq<Range>)
    ensures AllWellFormed(rs)
    decreases |bs| - j
  {
    if j >= |bs| then [] else [Range(IterWithin(owner, bs[j]), AtEnd(owner))] + WithinRanges(owner, bs, j + 1)
  }

  /**
    Splits the enumeration into roughly `chunks` ranges: none for an empty
    relation; one full range for a single pair or at most one chunk; one
    WITHIN range per bucket when there are at least `chunks` buckets;
    otherwise per bucket, as `BucketRanges` decides.
  */
  function Partition(r: EqRel, chunks: nat, keying: Keying): (res: Result<seq<Range>>)
    requires Coherent(r)
    ensures res.Fail? ==> res.error == MissingBucket
    ensures res.Ok? ==> AllWellFormed(res.value)
  {
    var c := Fresh(r);
    var total := Size(r);
    if total == 0 then Ok([])
    else if total == 1 || chunks <= 1 then Ok([Range(Begin(r), End(r))])
    else if chunks <= |c.order| then Ok(WithinRanges(r.id, Buckets(c), 0))
    else SplitBuckets(r.id, r.forest, c, Buckets(c), 0, total / chunks, keying)
  }

  /**
    On a cache key both lookups agree, and the closure walks exactly that
    class's square: this is what each WITHIN range of a partition reads.
  */
  lemma ClosureOfKey(r: EqRel, key: int, keying: Keying)
    requires Coherent(r) && key in Fresh(r).buckets
    ensures Closure(r, key, keying) == Ok(IterWithin(r.id, Fresh(r).buckets[key]))
    ensures Pairs(Closure(r, key, keying).value) == Square(Fresh(r).buckets[key])
  {
    BucketIsClass(r.forest, Fresh(r), key, key);
    WithinYieldsSquare(r.id, Fresh(r).buckets[key]);
  }

  /** Through the representative, the closure of any known element yields exactly the pairs of its class. */
  lemma ClosureYieldsClass(r: EqRel, x: int)
    requires Coherent(r) && ContainsElement(r, x)
    ensures Closure(r, x, RepKey).Ok?
    ensures forall p :: p in Pairs(Closure(r, x, RepKey).value) <==> Contains(r, x, p.0) && Contains(r, x, p.1)
  {
    LookupByRepresentative(r, x);
    var b := LookupBucket(r, x, RepKey).value;
    WithinYieldsSquare(r.id, b);
    forall p
      ensures p in Square(b) <==> Contains(r, x, p.0) && Contains(r, x, p.1)
    {
      SquareMembers(b, p);
    }
  }

  /** No range handed out is empty. */
  ghost predicate NoneEmpty(rs: seq<Range>) {
    forall i :: 0 <= i < |rs| ==> rs[i].first.Active?
  }

  lemma RangesPairsSingle(rg: Range)
    requires WellFormed(rg.first)
    ensures RangesPairs([rg]) == RangePairs(rg)
  {
    assert [rg][1..] == [];
  }

  /** Every member of a bucket looks that same bucket up through its representative. */
  lemma MemberLooksUpOwnBucket(f: Forest, c: BucketCache, key: int, e: int)
    requires Valid(f) && Matches(f, c) && key in c.buckets && e in c.buckets[key]
    ensures LookupIn(f, c, e, RepKey) == Ok(c.buckets[key])
  {
    BucketIsClass(f, c, key, e);
  }

  /** Prepending member i's range to the ranges of members i+1, ... keeps range l starting at member i+l. */
  lemma PrependAnterior(owner: nat, b: seq<int>, i: nat, rg: Range, rest: seq<Range>)
    requires i < |b| && |rest| == |b| - i - 1 && rg.first == IterAnterior(owner, b[i], b)
    requires forall l {:trigger rest[l]} :: 0 <= l < |rest| ==> rest[l].first == IterAnterior(owner, b[i + 1 + l], b)
    ensures forall l {:trigger ([rg] + rest)[l]} :: 0 <= l < |[rg] + rest| ==>
              ([rg] + rest)[l].first == IterAnterior(owner, b[i + l], b)
  {
    var rs := [rg] + rest;
    forall l | 1 <= l < |rs|
      ensures rs[l].first == IterAnterior(owner, b[i + l], b)
    {
      assert rs[l] == rest[l - 1];
    }
  }

  /**
    Splitting a bucket per member: member i's range reads row i of the
    bucket's square, so the ranges together read rows i, i+1, ...
  */
  lemma {:induction false} AnteriorRangesCover(owner: nat, f: Forest, c: BucketCache, key: int, i: nat)
    requires Valid(f) && Matches(f, c) && key in c.buckets && i <= |c.buckets[key]|
    ensures AnteriorRanges(owner, f, c, c.buckets[key], i, RepKey).Ok?
    ensures var b := c.buckets[key];
            var rs := AnteriorRanges(owner, f, c, b, i, RepKey).value;
            |rs| == |b| - i && NoneEmpty(rs) && RangesPairs(rs) == Rows(b, i)
    decreases |c.buckets[key]| - i
  {
    var b := c.buckets[key];
    if i < |b| {
      MemberLooksUpOwnBucket(f, c, key, b[i]);
      AnteriorRangesCover(owner, f, c, key, i + 1);
      var rest := AnteriorRanges(owner, f, c, b, i + 1, RepKey).value;
      var rg := Range(IterAnterior(owner, b[i], b), AtEnd(owner));
      assert AnteriorRanges(owner, f, c, b, i, RepKey) == Ok([rg] + rest);
      AnteriorYieldsRow(owner, b[i], b);
      RangesPairsSingle(rg);
      RangesPairsAppend([rg], rest);
    }
  }

  /** Range l of the split starts the ANTERIOR walk of member i+l. */
  lemma {:induction false} AnteriorRangesFormers(owner: nat, f: Forest, c: BucketCache, key: int, i: nat)
    requires Valid(f) && Matches(f, c) && key in c.buckets && i <= |c.buckets[key]|
    ensures AnteriorRanges(owner, f, c, c.buckets[key], i, RepKey).Ok?
    ensures var b := c.buckets[key];
            var rs := AnteriorRanges(owner, f, c, b, i, RepKey).value;
            |rs| == |b| - i &&
            forall l {:trigger rs[l]} :: 0 <= l < |rs| ==> rs[l].first == IterAnterior(owner, b[i + l], b)
    decreases |c.buckets[key]| - i
  {
    var b := c.buckets[key];
    if i < |b| {
      MemberLooksUpOwnBucket(f, c, key, b[i]);
      AnteriorRangesFormers(owner, f, c, key, i + 1);
      var rest := AnteriorRanges(owner, f, c, b, i + 1, RepKey).value;
      var rg := Range(IterAnterior(owner, b[i], b), AtEnd(owner));
      assert AnteriorRanges(owner, f, c, b, i, RepKey) == Ok([rg] + rest);
      PrependAnterior(owner, b, i, rg, rest);
    }
  }

  /**
    The split rule: a bucket whose s² pairs exceed the per-chunk share is
    cut into s ANTERIOR ranges, one per member; a smaller one stays a
    single WITHIN range. Either way the ranges read the bucket's square.
  */
  lemma BucketRangesCover(owner: nat, f: Forest, c: BucketCache, key: int, perChunk: nat)
    requires Valid(f) && Matches(f, c) && key in c.buckets
    ensures BucketRanges(owner, f, c, c.buckets[key], perChunk, RepKey).Ok?
    ensures var b := c.buckets[key];
            var rs := BucketRanges(owner, f, c, b, perChunk, RepKey).value;
            NoneEmpty(rs) && RangesPairs(rs) == Square(b) &&
            (|b| * |b| > perChunk ==>
               |rs| == |b| && forall l :: 0 <= l < |rs| ==> rs[l].first == IterAnterior(owner, b[l], b)) &&
            (|b| * |b| <= perChunk ==> rs == [Range(IterWithin(owner, b), AtEnd(owner))])
  {
    var b := c.buckets[key];
    if |b| * |b| > perChunk {
      AnteriorRangesCover(owner, f, c, key, 0);
      AnteriorRangesFormers(owner, f, c, key, 0);
    } else {
      WithinYieldsSquare(owner, b);
      RangesPairsSingle(Range(IterWithin(owner, b), AtEnd(owner)));
    }
  }

  lemma {:induction false} SplitBucketsCover(owner: nat, f: Forest, c: BucketCache, j: nat, perChunk: nat)
    requires Valid(f) && Matches(f, c)
    ensures SplitBuckets(owner, f, c, Buckets(c), j, perChunk, RepKey).Ok?
    ensures var rs := SplitBuckets(owner, f, c, Buckets(c), j, perChunk, RepKey).value;
            NoneEmpty(rs) && RangesPairs(rs) == Flatten(Buckets(c), j)
    decreases |c.order| - j
  {
    var bs := Buckets(c);
    if j < |bs| {
      BucketRangesCover(owner, f, c, c.order[j], perChunk);
      SplitBucketsCover(owner, f, c, j + 1, perChunk);
      var head := BucketRanges(owner, f, c, bs[j], perChunk, RepKey).value;
      var tail := SplitBuckets(owner, f, c, bs, j + 1, perChunk, RepKey).value;
      assert SplitBuckets(owner, f, c, bs, j, perChunk, RepKey) == Ok(head + tail);
      RangesPairsAppend(head, tail);
    }
  }

  lemma {:induction false} WithinRangesCover(owner: nat, bs: seq<seq<int>>, j: nat)
    requires forall i :: 0 <= i < |bs| ==> |bs[i]| > 0
    ensures var rs := WithinRanges(owner, bs, j);
            NoneEmpty(rs) && RangesPairs(rs) == Flatten(bs, j)
    decreases |bs| - j
  {
    if j < |bs| {
      WithinRangesCover(owner, bs, j + 1);
      var rg := Range(IterWithin(owner, bs[j]), AtEnd(owner));
      WithinYieldsSquare(owner, bs[j]);
      RangesPairsSingle(rg);
      RangesPairsAppend([rg], WithinRanges(owner, bs, j + 1));
    }
  }

  /**
    With representative lookups, partitioning always succeeds, hands out
    no empty range, and the ranges read one after the other are exactly
    the full enumeration: every related pair once, in iteration order.
  */
  lemma PartitionCoversEnumeration(r: EqRel, chunks: nat)
    requires Coherent(r)
    ensures Partition(r, chunks, RepKey).Ok?
    ensures var rs := Partition(r, chunks, RepKey).value;
            NoneEmpty(rs) && RangesPairs(rs) == AllPairs(r)
  {
    var c := Fresh(r);
    var total := Size(r);
    if total == 0 {
      PartitionOfEmpty(r, chunks, RepKey);
    } else if total == 1 || chunks <= 1 {
      PartitionSingleRange(r, chunks, RepKey);
    } else if chunks <= |c.order| {
      PartitionPerClass(r, chunks, RepKey);
    } else {
      SplitBucketsCover(r.id, r.forest, c, 0, total / chunks);
    }
  }

  /** The empty relation is partitioned into no ranges. */
  lemma PartitionOfEmpty(r: EqRel, chunks: nat, keying: Keying)
    requires Coherent(r) && Size(r) == 0
    ensures Partition(r, chunks, keying) == Ok([]) && AllPairs(r) == []
  {
    SizeCountsRelatedPairs(r);
  }

  /** One pair, or one chunk asked for: the single range is the whole enumeration. */
  lemma PartitionSingleRange(r: EqRel, chunks: nat, keying: Keying)
    requires Coherent(r) && Size(r) > 0 && (Size(r) == 1 || chunks <= 1)
    ensures Partition(r, chunks, keying) == Ok([Range(Begin(r), End(r))])
    ensures NoneEmpty([Range(Begin(r), End(r))])
    ensures RangesPairs([Range(Begin(r), End(r))]) == AllPairs(r)
  {
    BeginEnumeratesRelation(r);
    EqEndIff(Begin(r), r.id);
    RangesPairsSingle(Range(Begin(r), End(r)));
  }

  /** No more chunks than classes: one WITHIN range per class covers the enumeration. */
  lemma PartitionPerClass(r: EqRel, chunks: nat, keying: Keying)
    requires Coherent(r) && Size(r) > 1 && 1 < chunks <= |Fresh(r).order|
    ensures Partition(r, chunks, keying) == Ok(WithinRanges(r.id, Buckets(Fresh(r)), 0))
    ensures var rs := WithinRanges(r.id, Buckets(Fresh(r)), 0);
            NoneEmpty(rs) && RangesPairs(rs) == AllPairs(r)
  {
    MatchingBucketsDisjoint(r.forest, Fresh(r));
    WithinRangesCover(r.id, Buckets(Fresh(r)), 0);
  }

  /** A known element that is not its class's representative has no bucket under its own name. */
  lemma RawLookupFails(f: Forest, c: BucketCache, x: int)
    requires Valid(f) && Matches(f, c) && x in f.rep && f.rep[x] != x
    ensures LookupIn(f, c, x, RawKey) == Fail(MissingBucket)
  {
    if x in c.buckets {
      BucketIsClass(f, c, x, x);
    }
  }

  /** A bucket of two or more members has a member that is not its key. */
  lemma BucketHasNonKey(f: Forest, c: BucketCache, key: int) returns (l: nat)
    requires Valid(f) && Matches(f, c) && key in c.buckets && |c.buckets[key]| >= 2
    ensures l < |c.buckets[key]| && c.buckets[key][l] != key
    ensures c.buckets[key][l] in f.rep && f.rep[c.buckets[key][l]] == key
  {
    var b := c.buckets[key];
    l := if b[0] != key then 0 else 1;
  }

  /** As written, splitting a bucket fails as soon as some member from i on is not the key. */
  lemma {:induction false} AnteriorRangesRawFails(owner: nat, f: Forest, c: BucketCache, key: int, i: nat, l: nat)
    requires Valid(f) && Matches(f, c) && key in c.buckets
    requires i <= l < |c.buckets[key]| && c.buckets[key][l] != key
    ensures AnteriorRanges(owner, f, c, c.buckets[key], i, RawKey) == Fail(MissingBucket)
    decreases l - i
  {
    var b := c.buckets[key];
    assert b[l] in f.rep && f.rep[b[l]] == key;
    if i == l {
      RawLookupFails(f, c, b[l]);
    } else if LookupIn(f, c, b[i], RawKey).Ok? {
      AnteriorRangesRawFails(owner, f, c, key, i + 1, l);
    }
  }

  /** As written, the split path fails once it reaches a bucket that must be split and has two or more members. */
  lemma {:induction false} SplitBucketsRawFails(owner: nat, f: Forest, c: BucketCache, j: nat, j0: nat, perChunk: nat)
    requires Valid(f) && Matches(f, c)
    requires j <= j0 < |c.order|
    requires var b := Buckets(c)[j0]; |b| >= 2 && |b| * |b| > perChunk
    ensures SplitBuckets(owner, f, c, Buckets(c), j, perChunk, RawKey) == Fail(MissingBucket)
    decreases j0 - j
  {
    var bs := Buckets(c);
    var key := c.order[j0];
    if j == j0 {
      var l := BucketHasNonKey(f, c, key);
      AnteriorRangesRawFails(owner, f, c, key, 0, l);
    } else {
      var head := BucketRanges(owner, f, c, bs[j], perChunk, RawKey);
      if head.Ok? {
        SplitBucketsRawFails(owner, f, c, j + 1, j0, perChunk);
      }
    }
  }

  /**
    As written, partitioning into more chunks than there are classes fails
    whenever one class of two or more members holds more pairs than the
    per-chunk share: every split bucket is looked up under a member, and
    one of its members is not the representative.
  */
  lemma PartitionRawKeyFails(r: EqRel, chunks: nat, j0: nat)
    requires Coherent(r) && j0 < |Fresh(r).order| && chunks > |Fresh(r).order|
    requires var b := Buckets(Fresh(r))[j0]; |b| >= 2 && |b| * |b| > Size(r) / chunks
    ensures Partition(r, chunks, RawKey) == Fail(MissingBucket)
  {
    var c := Fresh(r);
    var bs := Buckets(c);
    assert Size(r) >= |bs[j0]| * |bs[j0]| by {
      SumSquaresBound(bs, 0, j0);
    }
    SplitBucketsRawFails(r.id, r.forest, c, 0, j0, Size(r) / chunks);
  }

  /**
    Inserting (1, 2) into an empty relation: one class {1, 2}. It is
    represented by 1 because the model's union keeps its first argument's
    representative; the program's union-find may pick either element.
  */
  lemma OnePairForest()
    ensures Insert(New(0), 1, 2).0.forest == Forest([1, 2], map[1 := 1, 2 := 1])
  {
    var h := Forest([1, 2], map[1 := 1, 2 := 2]);
    assert AddNode(AddNode(DisjointSets.Empty(), 1), 2) == h;
  }

  /** The forest with one class {1, 2}, represented by 1 as the model's union chooses. */
  function OnePair(): (f: Forest)
    ensures Valid(f) && f.slots == [1, 2] && 1 in f.rep && 2 in f.rep
    ensures Find(f, 1) == 1 && Find(f, 2) == 1
  {
    Forest([1, 2], map[1 := 1, 2 := 1])
  }

  lemma OnePairFirstSlot()
    ensures BuildPrefix(OnePair(), 1) == BucketCache([1], map[1 := [1]])
  {
    assert BuildPrefix(OnePair(), 0) == EmptyCache();
  }

  lemma OnePairSecondSlot()
    ensures BuildPrefix(OnePair(), 2) == BucketCache([1], map[1 := [1, 2]])
  {
    var f := OnePair();
    OnePairFirstSlot();
    assert BuildPrefix(f, 2) == AddToBucket(BuildPrefix(f, 1), Find(f, 2), 2);
    assert AddToBucket(BucketCache([1], map[1 := [1]]), 1, 2) == BucketCache([1], map[1 := [1] + [2]]);
    assert [1] + [2] == [1, 2];
  }

  /** Rebuilding the cache of the forest with one class {1, 2}, represented by 1. */
  lemma OnePairBuild()
    ensures Build(OnePair()) == BucketCache([1], map[1 := [1, 2]])
  {
    OnePairSecondSlot();
  }

  /** The rebuilt cache of that relation: the single bucket [1, 2] under key 1. */
  lemma OnePairCache()
    ensures Fresh(Insert(New(0), 1, 2).0) == BucketCache([1], map[1 := [1, 2]])
    ensures Buckets(Fresh(Insert(New(0), 1, 2).0)) == [[1, 2]]
  {
    OnePairForest();
    assert Insert(New(0), 1, 2).0.forest == OnePair();
    OnePairBuild();
  }

  /**
    A concrete instance: after inserting (1, 2) into an empty relation the
    class {1, 2} is represented by 1. That is the model's choice; whichever
    element the program picks, the other one fails the same way. So a
    prefix search bound on 2, and a partition into two chunks, both hit the
    missing-bucket failure, while the representative lookups succeed.
  */
  lemma RawKeyCounterexample()
    ensures var r := Insert(New(0), 1, 2).0;
            && GetBoundaries(r, (2, 2), 1, RawKey) == Fail(MissingBucket)
            && GetBoundaries(r, (1, 2), 2, RawKey) == Fail(MissingBucket)
            && Partition(r, 2, RawKey) == Fail(MissingBucket)
            && GetBoundaries(r, (2, 2), 1, RepKey).Ok?
            && Partition(r, 2, RepKey).Ok?
  {
    var r := Insert(New(0), 1, 2).0;
    OnePairForest();
    OnePairCache();
    var c := Fresh(r);
    assert Find(r.forest, 2) == 1;
    assert Buckets(c) == [[1, 2]];
    assert Size(r) == 4;
    GetBoundariesRawKeyFails(r, 2, 2);
    GetBoundariesRawKeyFails(r, 1, 2);
    PartitionRawKeyFails(r, 2, 0);
    GetBoundariesFirstBound(r, (2, 2));
    PartitionCoversEnumeration(r, 2);
  }
}
