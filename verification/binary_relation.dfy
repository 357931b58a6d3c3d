/**
  The equivalence-relation store: a binary relation over integers kept as
  a union-find partition (the source of truth) plus a bucket cache that is
  derived from it and trusted only while the staleness flag is clear.
  Every operation is a pure function from relation state to relation
  state; queries that would refresh the cache read `Fresh(r)` instead,
  which is what the refreshed relation would hold.
*/
module BinaryRelation {
  import opened SeqFacts
  import opened DisjointSets
  import opened PairEnum
  import opened StatesCache
  import opened PairIterator

  /** `id` stands for the relation's address, which end iterators remember. */
  datatype EqRel = EqRel(id: nat, forest: Forest, cache: BucketCache, stale: bool)

  /** The cache may only be used without a rebuild when it matches the partition. */
  ghost predicate Coherent(r: EqRel) {
    Valid(r.forest) && (!r.stale ==> Matches(r.forest, r.cache))
  }

  /** A new relation: empty partition, empty cache, flag clear. */
  function New(id: nat): (r: EqRel)
    ensures Coherent(r) && !r.stale && r.id == id
    ensures forall e :: !ContainsElement(r, e)
  {
    EqRel(id, DisjointSets.Empty(), EmptyCache(), false)
  }

  predicate ContainsElement(r: EqRel, e: int) {
    NodeExists(r.forest, e)
  }

  /** Whether (x, y) is in the relation: both known and in one class. No cache involved. */
  function Contains(r: EqRel, x: int, y: int): (b: bool)
    ensures b ==> ContainsElement(r, x) && ContainsElement(r, y)
    ensures x == y ==> (b <==> ContainsElement(r, x))
  {
    SameSet(r.forest, x, y)
  }

  /** The relation is reflexive on known elements, symmetric and transitive. */
  lemma ContainsIsEquivalence(r: EqRel, a: int, b: int, c: int)
    ensures ContainsElement(r, a) <==> Contains(r, a, a)
    ensures Contains(r, a, b) ==> Contains(r, b, a)
    ensures Contains(r, a, b) && Contains(r, b, c) ==> Contains(r, a, c)
  {
    SameSetIsEquivalence(r.forest, a, b, c);
  }

  /**
    Inserts (x, y): marks the cache stale and unites the two classes. The
    returned flag is whether (x, y) was ALREADY in the relation.
  */
  function Insert(r: EqRel, x: int, y: int): (res: (EqRel, bool))
    requires Coherent(r)
    ensures Coherent(res.0) && res.0.stale && res.0.id == r.id
    ensures Contains(res.0, x, y)
    ensures res.1 <==> Contains(r, x, y)
    ensures forall a, b :: Contains(res.0, a, b) <==>
              Contains(r, a, b) ||
              ((InClassOf(r.forest, a, x) || InClassOf(r.forest, a, y)) &&
               (InClassOf(r.forest, b, x) || InClassOf(r.forest, b, y)))
  {
    var wasPresent := Contains(r, x, y);
    UnionMergesOnlyTheTwoClasses(r.forest, x, y);
    (EqRel(r.id, Union(r.forest, x, y), r.cache, true), wasPresent)
  }

  /**
    Insertion reporting whether the pair is new: true exactly when the
    relation gained a pair.
  */
  function InsertReportingNew(r: EqRel, x: int, y: int): (res: (EqRel, bool))
    requires Coherent(r)
    ensures Coherent(res.0) && Contains(res.0, x, y)
    ensures forall a, b :: Contains(r, a, b) ==> Contains(res.0, a, b)
    ensures res.1 <==> exists a, b :: Contains(res.0, a, b) && !Contains(r, a, b)
  {
    var (r', present) := Insert(r, x, y);
    assert present ==> forall a, b :: Contains(r', a, b) ==> Contains(r, a, b) by {
      if present {
        ContainsIsEquivalence(r, x, y, x);
      }
    }
    (r', !present)
  }

  /** As written, inserting a pair into an empty relation reports false although the pair is new. */
  lemma InsertReportsPresenceNotNovelty()
    ensures !Contains(New(0), 1, 2) && Contains(Insert(New(0), 1, 2).0, 1, 2)
    ensures Insert(New(0), 1, 2).1 == false
    ensures InsertReportingNew(New(0), 1, 2).1 == true
  {
  }

  /** Reporting novelty: a repeated insertion reports false and changes nothing. */
  lemma InsertReportingNewRepeat(r: EqRel, x: int, y: int)
    requires Coherent(r)
    ensures var r1 := InsertReportingNew(r, x, y).0;
            !InsertReportingNew(r1, x, y).1 &&
            forall a, b :: Contains(InsertReportingNew(r1, x, y).0, a, b) <==> Contains(r1, a, b)
  {
    var r1 := InsertReportingNew(r, x, y).0;
    var r2 := InsertReportingNew(r1, x, y).0;
    if exists a, b :: Contains(r2, a, b) && !Contains(r1, a, b) {
      ContainsIsEquivalence(r1, x, y, x);
    }
  }

  /**
    Resets the partition and drops the cache. The staleness flag is left
    as it was; that is harmless because an empty cache matches an empty
    partition.
  */
  function Clear(r: EqRel): (r': EqRel)
    ensures Coherent(r') && r'.stale == r.stale && r'.id == r.id
    ensures forall e :: !ContainsElement(r', e)
  {
    EqRel(r.id, DisjointSets.Empty(), EmptyCache(), r.stale)
  }

  /**
    The cache rebuild: nothing to do while the flag is clear; otherwise
    rebuild every bucket from the partition and clear the flag.
  */
  function Regenerate(r: EqRel): (r': EqRel)
    requires Valid(r.forest)
    ensures r'.id == r.id && r'.forest == r.forest
    ensures !r.stale ==> r' == r
    ensures r.stale ==> !r'.stale && Matches(r'.forest, r'.cache)
  {
    if !r.stale then r else EqRel(r.id, r.forest, Build(r.forest), false)
  }

  /** Rebuilding a coherent relation yields a clean, matching cache, and a second rebuild changes nothing. */
  lemma RegenerateRestoresCache(r: EqRel)
    requires Coherent(r)
    ensures Coherent(Regenerate(r)) && !Regenerate(r).stale
    ensures Matches(r.forest, Regenerate(r).cache)
    ensures Regenerate(Regenerate(r)) == Regenerate(r)
  {
  }

  /** The cache a reader sees after forcing the rebuild. */
  function Fresh(r: EqRel): (c: BucketCache)
    requires Coherent(r)
    ensures Matches(r.forest, c)
  {
    Regenerate(r).cache
  }

  /**
    After the rebuild every known element sits in exactly one bucket, the
    one keyed by its representative; each bucket is non-empty and lists a
    member once; every key is a representative.
  */
  lemma RebuiltCacheIsPartition(r: EqRel)
    requires Coherent(r)
    ensures forall e :: ContainsElement(r, e) ==> Find(r.forest, e) in Fresh(r).buckets
    ensures forall key, e :: key in Fresh(r).buckets ==>
              (e in Fresh(r).buckets[key] <==> ContainsElement(r, e) && Find(r.forest, e) == key)
    ensures forall key :: key in Fresh(r).buckets ==>
              |Fresh(r).buckets[key]| > 0 && Distinct(Fresh(r).buckets[key]) &&
              ContainsElement(r, key) && Find(r.forest, key) == key
  {
    var c := Fresh(r);
    forall key, e | key in c.buckets
      ensures e in c.buckets[key] <==> ContainsElement(r, e) && Find(r.forest, e) == key
    {
      BucketIsClass(r.forest, c, key, e);
    }
    forall key | key in c.buckets
      ensures ContainsElement(r, key) && Find(r.forest, key) == key
    {
      BucketIsClass(r.forest, c, key, key);
    }
  }

  /** The full pair enumeration over the refreshed cache. */
  function AllPairs(r: EqRel): seq<Pair>
    requires Coherent(r)
  {
    Flatten(Buckets(Fresh(r)), 0)
  }

  /** The relation knows some element exactly when its partition does. */
  lemma SomeElementKnown(r: EqRel)
    ensures (exists e :: ContainsElement(r, e)) <==> exists e :: NodeExists(r.forest, e)
  {
    if exists e :: NodeExists(r.forest, e) {
      var e :| NodeExists(r.forest, e);
      assert ContainsElement(r, e);
    }
    if exists e :: ContainsElement(r, e) {
      var e :| ContainsElement(r, e);
      assert NodeExists(r.forest, e);
    }
  }

  /** The number of pairs: the sum over buckets of the squared bucket size. */
  function Size(r: EqRel): (n: nat)
    requires Coherent(r)
    ensures n > 0 <==> exists e :: ContainsElement(r, e)
  {
    EmptyIffNoElement(r.forest, Fresh(r));
    SomeElementKnown(r);
    SumSquares(Buckets(Fresh(r)), 0)
  }

  /**
    `Size` counts the relation: the enumeration lists exactly the related
    pairs, each once, and there are `Size` of them.
  */
  lemma SizeCountsRelatedPairs(r: EqRel)
    requires Coherent(r)
    ensures Size(r) == |AllPairs(r)|
    ensures Distinct(AllPairs(r))
    ensures forall p :: p in AllPairs(r) <==> Contains(r, p.0, p.1)
  {
    FlattenLength(Buckets(Fresh(r)), 0);
    forall p
      ensures p in AllPairs(r) <==> Contains(r, p.0, p.1)
    {
      EnumerationIsRelation(r.forest, Fresh(r), p);
    }
    EnumerationIsRelation(r.forest, Fresh(r), (0, 0));
  }

  /** The ALL iterator over the refreshed cache. */
  function Begin(r: EqRel): (it: Iter)
    requires Coherent(r)
    ensures WellFormed(it) && it.owner == r.id
    ensures it.Active? ==> it.mode == All && it.bs == Buckets(Fresh(r)) && it.k == 0 && it.ant == 0 && it.post == 0
  {
    var c := Fresh(r);
    MatchingBucketsDisjoint(r.forest, c);
    IterAll(r.id, Buckets(c))
  }

  function End(r: EqRel): (it: Iter)
    ensures it.AtEnd? && it.owner == r.id
  {
    AtEnd(r.id)
  }

  /**
    Walking from `Begin` to `End` visits every related pair exactly once,
    in bucket-then-anterior-then-posterior order, so it takes `Size` steps;
    `Begin` equals `End` exactly when the relation is empty.
  */
  lemma BeginEnumeratesRelation(r: EqRel)
    requires Coherent(r)
    ensures Pairs(Begin(r)) == AllPairs(r)
    ensures |Pairs(Begin(r))| == Size(r)
    ensures Eq(Begin(r), End(r)) <==> Size(r) == 0
  {
    var bs := Buckets(Fresh(r));
    MatchingBucketsDisjoint(r.forest, Fresh(r));
    AllVisitsEveryPairOnce(r.id, bs);
    EqEndIff(Begin(r), r.id);
    if |bs| > 0 {
      assert SumSquares(bs, 0) >= |bs[0]| * |bs[0]| > 0;
    }
  }

  /** Inserting a pair already present reports it as present and leaves the partition unchanged. */
  lemma InsertIsIdempotent(r: EqRel, x: int, y: int)
    requires Coherent(r)
    ensures Insert(Insert(r, x, y).0, x, y).1
    ensures Insert(Insert(r, x, y).0, x, y).0.forest == Insert(r, x, y).0.forest
  {
    UnionOfRelatedIsIdentity(Insert(r, x, y).0.forest, x, y);
  }

  /** After `Clear` the relation is empty, whatever the flag was. */
  lemma ClearEmpties(r: EqRel)
    ensures Size(Clear(r)) == 0
    ensures Eq(Begin(Clear(r)), End(Clear(r)))
  {
    var r' := Clear(r);
    SizeCountsRelatedPairs(r');
    BeginEnumeratesRelation(r');
  }
}
