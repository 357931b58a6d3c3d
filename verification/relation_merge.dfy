/**
  Bulk merges between two relations: `insertAll`, which unites every
  class of the other relation into this one, and `extend`, which imports
  the other relation's classes only where they meet this one's.

  Both read the other relation's refreshed cache and write only this
  relation's partition, then mark this relation's cache stale.
*/
module RelationMerge {
  import opened SeqFacts
  import opened DisjointSets
  import opened PairEnum
  import opened StatesCache
  import opened BinaryRelation
  import opened RelationRanges

  /** Unites `key` with each of b[i], b[i+1], ... */
  function UniteAll(f: Forest, key: int, b: seq<int>, i: nat): (g: Forest)
    requires Valid(f)
    ensures Valid(g)
    ensures forall a, c :: SameSet(f, a, c) ==> SameSet(g, a, c)
    ensures forall l :: i <= l < |b| ==> SameSet(g, key, b[l])
    ensures forall a :: NodeExists(g, a) ==> NodeExists(f, a) || a == key || a in b
    decreases |b| - i
  {
    if i >= |b| then f else UniteAll(Union(f, key, b[i]), key, b, i + 1)
  }

  /** If `rel` already relates `key` to every b[l] and contains `f`, it contains the result. */
  lemma {:induction false} UniteAllStaysWithin(f: Forest, key: int, b: seq<int>, i: nat, rel: Forest)
    requires Valid(f) && Valid(rel)
    requires forall a, c :: SameSet(f, a, c) ==> SameSet(rel, a, c)
    requires forall l :: i <= l < |b| ==> SameSet(rel, key, b[l])
    ensures forall a, c :: SameSet(UniteAll(f, key, b, i), a, c) ==> SameSet(rel, a, c)
    decreases |b| - i
  {
    if i < |b| {
      UnionStaysWithin(f, key, b[i], rel);
      UniteAllStaysWithin(Union(f, key, b[i]), key, b, i + 1, rel);
    }
  }

  /** Unites keys[l] with every member of bs[l], for l = j, j+1, ... */
  function UniteBuckets(f: Forest, keys: seq<int>, bs: seq<seq<int>>, j: nat): (g: Forest)
    requires Valid(f) && |keys| == |bs|
    ensures Valid(g)
    ensures forall a, c :: SameSet(f, a, c) ==> SameSet(g, a, c)
    ensures forall l, m :: j <= l < |bs| && 0 <= m < |bs[l]| ==> SameSet(g, keys[l], bs[l][m])
    decreases |bs| - j
  {
    if j >= |bs| then f
    else
      var g := UniteBuckets(UniteAll(f, keys[j], bs[j], 0), keys, bs, j + 1);
      assert forall m :: 0 <= m < |bs[j]| ==> SameSet(g, keys[j], bs[j][m]);
      g
  }

  /** If `dom` knows every key and member from bucket j on, the unions make known nothing outside `f` and `dom`. */
  lemma {:induction false} UniteBucketsKnown(f: Forest, keys: seq<int>, bs: seq<seq<int>>, j: nat, dom: Forest)
    requires Valid(f) && |keys| == |bs|
    requires forall l :: j <= l < |bs| ==> NodeExists(dom, keys[l])
    requires forall l, a :: j <= l < |bs| && a in bs[l] ==> NodeExists(dom, a)
    ensures forall a :: NodeExists(UniteBuckets(f, keys, bs, j), a) ==> NodeExists(f, a) || NodeExists(dom, a)
    decreases |bs| - j
  {
    if j < |bs| {
      UniteBucketsKnown(UniteAll(f, keys[j], bs[j], 0), keys, bs, j + 1, dom);
    }
  }

  lemma {:induction false} UniteBucketsStaysWithin(f: Forest, keys: seq<int>, bs: seq<seq<int>>, j: nat, rel: Forest)
    requires Valid(f) && Valid(rel) && |keys| == |bs|
    requires forall a, c :: SameSet(f, a, c) ==> SameSet(rel, a, c)
    requires forall l, m :: j <= l < |bs| && 0 <= m < |bs[l]| ==> SameSet(rel, keys[l], bs[l][m])
    ensures forall a, c :: SameSet(UniteBuckets(f, keys, bs, j), a, c) ==> SameSet(rel, a, c)
    decreases |bs| - j
  {
    if j < |bs| {
      UniteAllStaysWithin(f, keys[j], bs[j], 0, rel);
      UniteBucketsStaysWithin(UniteAll(f, keys[j], bs[j], 0), keys, bs, j + 1, rel);
    }
  }

  /**
    Unites every class of `other` into `r`: each member of each of the
    other relation's buckets with that bucket's key. The cache is marked
    stale unconditionally.
  */
  function InsertAll(r: EqRel, other: EqRel): (r': EqRel)
    requires Coherent(r) && Coherent(other)
    ensures Coherent(r') && r'.stale && r'.id == r.id
  {
    var oc := Fresh(other);
    EqRel(r.id, UniteBuckets(r.forest, oc.order, Buckets(oc), 0), r.cache, true)
  }

  /**
    After `InsertAll` the relation holds both relations' pairs, knows
    exactly the elements either knew, and relates nothing more than any
    equivalence containing both: it is their join.
  */
  lemma InsertAllIsJoin(r: EqRel, other: EqRel)
    requires Coherent(r) && Coherent(other)
    ensures forall a, b :: Contains(r, a, b) ==> Contains(InsertAll(r, other), a, b)
    ensures forall a, b :: Contains(other, a, b) ==> Contains(InsertAll(r, other), a, b)
    ensures forall e :: ContainsElement(InsertAll(r, other), e) <==> ContainsElement(r, e) || ContainsElement(other, e)
  {
    UniteBucketsAdopts(r.forest, other.forest, Fresh(other));
    UniteBucketsDomain(r.forest, other.forest, Fresh(other));
  }

  /** Uniting along the buckets of a matching cache relates every pair the cached partition relates. */
  lemma UniteBucketsAdopts(f: Forest, of: Forest, oc: BucketCache)
    requires Valid(f) && Valid(of) && Matches(of, oc)
    ensures forall a, b :: SameSet(of, a, b) ==> SameSet(UniteBuckets(f, oc.order, Buckets(oc), 0), a, b)
  {
    var bs := Buckets(oc);
    var g := UniteBuckets(f, oc.order, bs, 0);
    forall a, b | SameSet(of, a, b)
      ensures SameSet(g, a, b)
    {
      var key := of.rep[a];
      var l :| 0 <= l < |oc.order| && oc.order[l] == key;
      var ma :| 0 <= ma < |bs[l]| && bs[l][ma] == a;
      var mb :| 0 <= mb < |bs[l]| && bs[l][mb] == b;
      assert SameSet(g, key, bs[l][ma]) && SameSet(g, key, bs[l][mb]);
    }
  }

  /** Uniting along the buckets of a matching cache makes known exactly the elements of both partitions. */
  lemma UniteBucketsDomain(f: Forest, of: Forest, oc: BucketCache)
    requires Valid(f) && Valid(of) && Matches(of, oc)
    ensures forall e :: NodeExists(UniteBuckets(f, oc.order, Buckets(oc), 0), e) <==> NodeExists(f, e) || NodeExists(of, e)
  {
    var bs := Buckets(oc);
    var g := UniteBuckets(f, oc.order, bs, 0);
    forall l | 0 <= l < |bs|
      ensures NodeExists(of, oc.order[l])
    {
      KeyOrMemberKnown(of, oc, l, oc.order[l]);
    }
    forall l, a | 0 <= l < |bs| && a in bs[l]
      ensures NodeExists(of, a)
    {
      KeyOrMemberKnown(of, oc, l, a);
    }
    UniteBucketsKnown(f, oc.order, bs, 0, of);
    UniteBucketsAdopts(f, of, oc);
    forall e | NodeExists(f, e) || NodeExists(of, e)
      ensures NodeExists(g, e)
    {
      assert SameSet(f, e, e) || SameSet(of, e, e);
    }
  }

  /** The key and the members of a matching cache's l-th bucket are known to the partition. */
  lemma KeyOrMemberKnown(of: Forest, oc: BucketCache, l: nat, e: int)
    requires Valid(of) && Matches(of, oc) && l < |oc.order|
    requires e == oc.order[l] || e in Buckets(oc)[l]
    ensures NodeExists(of, e)
  {
    BucketIsClass(of, oc, oc.order[l], e);
    BucketIsClass(of, oc, oc.order[l], oc.order[l]);
  }

  /** Any equivalence containing both relations contains the result. */
  lemma InsertAllIsLeast(r: EqRel, other: EqRel, rel: Forest)
    requires Coherent(r) && Coherent(other) && Valid(rel)
    requires forall a, b :: Contains(r, a, b) ==> SameSet(rel, a, b)
    requires forall a, b :: Contains(other, a, b) ==> SameSet(rel, a, b)
    ensures forall a, b :: Contains(InsertAll(r, other), a, b) ==> SameSet(rel, a, b)
  {
    var oc := Fresh(other);
    var bs := Buckets(oc);
    forall l, m | 0 <= l < |bs| && 0 <= m < |bs[l]|
      ensures SameSet(rel, oc.order[l], bs[l][m])
    {
      assert oc.order[l] in oc.buckets;
      BucketIsClass(other.forest, oc, oc.order[l], bs[l][m]);
      BucketIsClass(other.forest, oc, oc.order[l], oc.order[l]);
      assert Contains(other, oc.order[l], bs[l][m]);
    }
    UniteBucketsStaysWithin(r.forest, oc.order, bs, 0, rel);
  }

  /** Inserting everything into an empty relation copies the other relation's pairs exactly. */
  lemma InsertAllIntoEmptyCopies(other: EqRel, id: nat)
    requires Coherent(other)
    ensures forall a, b :: Contains(InsertAll(New(id), other), a, b) <==> Contains(other, a, b)
  {
    InsertAllIsJoin(New(id), other);
    InsertAllIsLeast(New(id), other, other.forest);
  }

  /**
    How `extend` scans a class of this relation: the code stops at the
    first member the other relation knows (`StopAtFirst`); `ScanAll`
    visits every member, as the doc comment at src/BinaryRelation.h:107-110
    promises.
  */
  datatype Scan = StopAtFirst | ScanAll

  /** Every element `of` relates to `c` is related to `c` in `g`. */
  ghost predicate Absorbed(g: Forest, of: Forest, c: int) {
    forall d :: SameSet(of, c, d) ==> SameSet(g, c, d)
  }

  /** b[l] is the first member of b from i on that `of` knows. */
  ghost predicate FirstShared(of: Forest, b: seq<int>, i: nat, l: int) {
    i <= l < |b| && b[l] in of.rep && forall m :: i <= m < l ==> b[m] !in of.rep
  }

  lemma BucketMembersKnown(of: Forest, oc: BucketCache, key: int)
    requires Matches(of, oc) && key in oc.buckets
    ensures forall a :: a in oc.buckets[key] ==> a in of.rep
  {
    forall a | a in oc.buckets[key]
      ensures a in of.rep
    {
      var m :| 0 <= m < |oc.buckets[key]| && oc.buckets[key][m] == a;
    }
  }

  /** Absorbing `c` through its bucket in a cache that matches `of`. */
  lemma UniteBucketAbsorbs(f: Forest, of: Forest, oc: BucketCache, c: int)
    requires Valid(f) && Valid(of) && Matches(of, oc) && c in of.rep
    ensures of.rep[c] in oc.buckets
    ensures Absorbed(UniteAll(f, c, oc.buckets[of.rep[c]], 0), of, c)
    ensures forall a :: NodeExists(UniteAll(f, c, oc.buckets[of.rep[c]], 0), a) ==> NodeExists(f, a) || NodeExists(of, a)
  {
    var b := oc.buckets[of.rep[c]];
    var g := UniteAll(f, c, b, 0);
    BucketMembersKnown(of, oc, of.rep[c]);
    forall d | SameSet(of, c, d)
      ensures SameSet(g, c, d)
    {
      BucketIsClass(of, oc, of.rep[c], d);
      var m :| 0 <= m < |b| && b[m] == d;
    }
  }

  /**
    Processes one class of this relation, members b[i], b[i+1], ...: a
    member the other relation knows is united with its whole class there;
    with `StopAtFirst` the scan then ends.
  */
  function ExtendBucket(f: Forest, of: Forest, oc: BucketCache, b: seq<int>, i: nat, scan: Scan): (g: Forest)
    requires Valid(f) && Valid(of) && Matches(of, oc)
    ensures Valid(g)
    ensures forall a, c :: SameSet(f, a, c) ==> SameSet(g, a, c)
    ensures forall a :: NodeExists(g, a) ==> NodeExists(f, a) || NodeExists(of, a)
    ensures forall l :: FirstShared(of, b, i, l) ==> Absorbed(g, of, b[l])
    ensures scan.ScanAll? ==> forall l :: i <= l < |b| && b[l] in of.rep ==> Absorbed(g, of, b[l])
    decreases |b| - i
  {
    if i >= |b| then f
    else if b[i] in of.rep then
      UniteBucketAbsorbs(f, of, oc, b[i]);
      var g := UniteAll(f, b[i], oc.buckets[of.rep[b[i]]], 0);
      if scan.StopAtFirst? then g else ExtendBucket(g, of, oc, b, i + 1, scan)
    else ExtendBucket(f, of, oc, b, i + 1, scan)
  }

  /** Processes classes bs[j], bs[j+1], ... of this relation's snapshot. */
  function ExtendBuckets(f: Forest, of: Forest, oc: BucketCache, bs: seq<seq<int>>, j: nat, scan: Scan): (g: Forest)
    requires Valid(f) && Valid(of) && Matches(of, oc)
    ensures Valid(g)
    ensures forall a, c :: SameSet(f, a, c) ==> SameSet(g, a, c)
    ensures forall a :: NodeExists(g, a) ==> NodeExists(f, a) || NodeExists(of, a)
    ensures forall k, l :: j <= k < |bs| && FirstShared(of, bs[k], 0, l) ==> Absorbed(g, of, bs[k][l])
    ensures scan.ScanAll? ==>
              forall k, l :: j <= k < |bs| && 0 <= l < |bs[k]| && bs[k][l] in of.rep ==> Absorbed(g, of, bs[k][l])
    decreases |bs| - j
  {
    if j >= |bs| then f
    else ExtendBuckets(ExtendBucket(f, of, oc, bs[j], 0, scan), of, oc, bs, j + 1, scan)
  }

  /**
    For each class of this relation (as the cache listed it before the
    call), imports the other relation's class of a shared member, as
    `scan` selects. Marks the cache stale unconditionally.
  */
  function Extend(r: EqRel, other: EqRel, scan: Scan): (r': EqRel)
    requires Coherent(r) && Coherent(other)
    ensures Coherent(r') && r'.stale && r'.id == r.id
    ensures forall a, b :: Contains(r, a, b) ==> Contains(r', a, b)
    ensures forall e :: ContainsElement(r', e) ==> ContainsElement(r, e) || ContainsElement(other, e)
  {
    var f := ExtendBuckets(r.forest, other.forest, Fresh(other), Buckets(Fresh(r)), 0, scan);
    EqRel(r.id, f, r.cache, true)
  }

  lemma {:induction false} ExtendBucketStaysWithin(f: Forest, of: Forest, oc: BucketCache, b: seq<int>, i: nat, scan: Scan, rel: Forest)
    requires Valid(f) && Valid(of) && Matches(of, oc) && Valid(rel)
    requires forall a, c :: SameSet(f, a, c) ==> SameSet(rel, a, c)
    requires forall a, c :: SameSet(of, a, c) ==> SameSet(rel, a, c)
    ensures forall a, c :: SameSet(ExtendBucket(f, of, oc, b, i, scan), a, c) ==> SameSet(rel, a, c)
    decreases |b| - i
  {
    if i < |b| {
      if b[i] in of.rep {
        UniteBucketAbsorbs(f, of, oc, b[i]);
        var key := of.rep[b[i]];
        var ob := oc.buckets[key];
        forall m | 0 <= m < |ob|
          ensures SameSet(rel, b[i], ob[m])
        {
          BucketIsClass(of, oc, key, ob[m]);
          assert SameSet(of, b[i], ob[m]);
        }
        UniteAllStaysWithin(f, b[i], ob, 0, rel);
        ExtendBucketStaysWithin(UniteAll(f, b[i], ob, 0), of, oc, b, i + 1, scan, rel);
      } else {
        ExtendBucketStaysWithin(f, of, oc, b, i + 1, scan, rel);
      }
    }
  }

  lemma {:induction false} ExtendBucketsStaysWithin(f: Forest, of: Forest, oc: BucketCache, bs: seq<seq<int>>, j: nat, scan: Scan, rel: Forest)
    requires Valid(f) && Valid(of) && Matches(of, oc) && Valid(rel)
    requires forall a, c :: SameSet(f, a, c) ==> SameSet(rel, a, c)
    requires forall a, c :: SameSet(of, a, c) ==> SameSet(rel, a, c)
    ensures forall a, c :: SameSet(ExtendBuckets(f, of, oc, bs, j, scan), a, c) ==> SameSet(rel, a, c)
    decreases |bs| - j
  {
    if j < |bs| {
      ExtendBucketStaysWithin(f, of, oc, bs[j], 0, scan, rel);
      ExtendBucketsStaysWithin(ExtendBucket(f, of, oc, bs[j], 0, scan), of, oc, bs, j + 1, scan, rel);
    }
  }

  /** `Extend` never relates more than any equivalence containing both relations. */
  lemma ExtendStaysWithinJoin(r: EqRel, other: EqRel, scan: Scan, rel: Forest)
    requires Coherent(r) && Coherent(other) && Valid(rel)
    requires forall a, b :: Contains(r, a, b) ==> SameSet(rel, a, b)
    requires forall a, b :: Contains(other, a, b) ==> SameSet(rel, a, b)
    ensures forall a, b :: Contains(Extend(r, other, scan), a, b) ==> SameSet(rel, a, b)
  {
    ExtendBucketsStaysWithin(r.forest, other.forest, Fresh(other), Buckets(Fresh(r)), 0, scan, rel);
  }

  /** `a` lies in the `of`-class of some element `base` knows. */
  ghost predicate Near(of: Forest, base: Forest, a: int) {
    exists c :: NodeExists(base, c) && SameSet(of, c, a)
  }

  /** Processing members b[i], ... makes known only elements of `f` and of `of`-classes of those members. */
  lemma {:induction false} ExtendBucketReach(f: Forest, of: Forest, oc: BucketCache, b: seq<int>, i: nat, scan: Scan, base: Forest)
    requires Valid(f) && Valid(of) && Matches(of, oc)
    requires forall l :: i <= l < |b| ==> NodeExists(base, b[l])
    ensures forall a :: NodeExists(ExtendBucket(f, of, oc, b, i, scan), a) ==> NodeExists(f, a) || Near(of, base, a)
    decreases |b| - i
  {
    if i < |b| {
      if b[i] in of.rep {
        var c := b[i];
        var key := of.rep[c];
        UniteBucketAbsorbs(f, of, oc, c);
        var g := UniteAll(f, c, oc.buckets[key], 0);
        forall a | NodeExists(g, a) && !NodeExists(f, a)
          ensures Near(of, base, a)
        {
          if a != c {
            BucketIsClass(of, oc, key, a);
          }
          assert NodeExists(base, c) && SameSet(of, c, a);
        }
        ExtendBucketReach(g, of, oc, b, i + 1, scan, base);
      } else {
        ExtendBucketReach(f, of, oc, b, i + 1, scan, base);
      }
    }
  }

  /** The same over buckets bs[j], bs[j+1], ... */
  lemma {:induction false} ExtendBucketsReach(f: Forest, of: Forest, oc: BucketCache, bs: seq<seq<int>>, j: nat, scan: Scan, base: Forest)
    requires Valid(f) && Valid(of) && Matches(of, oc)
    requires forall k, l :: j <= k < |bs| && 0 <= l < |bs[k]| ==> NodeExists(base, bs[k][l])
    ensures forall a :: NodeExists(ExtendBuckets(f, of, oc, bs, j, scan), a) ==> NodeExists(f, a) || Near(of, base, a)
    decreases |bs| - j
  {
    if j < |bs| {
      ExtendBucketReach(f, of, oc, bs[j], 0, scan, base);
      ExtendBucketsReach(ExtendBucket(f, of, oc, bs[j], 0, scan), of, oc, bs, j + 1, scan, base);
    }
  }

  /**
    A class of the other relation that shares no element with this
    relation is not imported: its elements stay unknown to this relation.
  */
  lemma ExtendImportsOnlyMeetingClasses(r: EqRel, other: EqRel, scan: Scan, e: int)
    requires Coherent(r) && Coherent(other)
    requires !ContainsElement(r, e)
    requires forall d :: Contains(other, d, e) ==> !ContainsElement(r, d)
    ensures !ContainsElement(Extend(r, other, scan), e)
  {
    var c := Fresh(r);
    var bs := Buckets(c);
    forall k, l | 0 <= k < |bs| && 0 <= l < |bs[k]|
      ensures NodeExists(r.forest, bs[k][l])
    {
      assert c.order[k] in c.buckets;
      BucketIsClass(r.forest, c, c.order[k], bs[k][l]);
    }
    ExtendBucketsReach(r.forest, other.forest, Fresh(other), bs, 0, scan, r.forest);
    assert !Near(other.forest, r.forest, e) by {
      if Near(other.forest, r.forest, e) {
        var d :| NodeExists(r.forest, d) && SameSet(other.forest, d, e);
        assert Contains(other, d, e);
      }
    }
  }

  /**
    Both scans import, for each class of this relation that meets the
    other relation, the other relation's class of the first shared member
    (in bucket order).
  */
  lemma ExtendAbsorbsFirstShared(r: EqRel, other: EqRel, scan: Scan, key: int, l: nat)
    requires Coherent(r) && Coherent(other)
    requires key in Fresh(r).buckets && FirstShared(other.forest, Fresh(r).buckets[key], 0, l)
    ensures forall d :: Contains(other, Fresh(r).buckets[key][l], d) ==>
              Contains(Extend(r, other, scan), Fresh(r).buckets[key][l], d)
  {
    var c := Fresh(r);
    var k :| 0 <= k < |c.order| && c.order[k] == key;
    assert Buckets(c)[k] == c.buckets[key];
  }

  /**
    With the full scan, every element both relations know ends up related
    to everything the other relation relates it to.
  */
  lemma ExtendScanAllAbsorbsEveryShared(r: EqRel, other: EqRel, e: int)
    requires Coherent(r) && Coherent(other) && ContainsElement(r, e) && ContainsElement(other, e)
    ensures forall d :: Contains(other, e, d) ==> Contains(Extend(r, other, ScanAll), e, d)
  {
    var c := Fresh(r);
    var key := Find(r.forest, e);
    assert key in c.buckets && e in c.buckets[key];
    var k :| 0 <= k < |c.order| && c.order[k] == key;
    var l :| 0 <= l < |c.buckets[key]| && c.buckets[key][l] == e;
    assert Buckets(c)[k][l] == e;
  }

  /**
    The early stop in general form: when this relation is the single class
    [x, y] and the other relation knows x, only x's class there is
    imported, so an element `z` new to this relation and unrelated to x
    in the other stays unknown.
  */
  lemma StopAtFirstImportsOnlyFirst(mine: EqRel, other: EqRel, x: int, y: int, z: int)
    requires Coherent(mine) && Coherent(other)
    requires Buckets(Fresh(mine)) == [[x, y]]
    requires ContainsElement(other, x) && !Contains(other, x, z) && !ContainsElement(mine, z)
    ensures !ContainsElement(Extend(mine, other, StopAtFirst), z)
  {
    var f := mine.forest;
    var of := other.forest;
    var oc := Fresh(other);
    var ob := oc.buckets[of.rep[x]];
    var g := UniteAll(f, x, ob, 0);
    assert ExtendBucket(f, of, oc, [x, y], 0, StopAtFirst) == g;
    assert ExtendBuckets(f, of, oc, [[x, y]], 0, StopAtFirst) == ExtendBuckets(g, of, oc, [[x, y]], 1, StopAtFirst);
    assert z !in ob by {
      if z in ob {
        BucketIsClass(of, oc, of.rep[x], z);
      }
    }
  }

  /** The other relation of the example: classes {1, 10} and {2, 20}. */
  lemma TwoClassesRelation()
    ensures var other := Insert(Insert(New(1), 1, 10).0, 2, 20).0;
            ContainsElement(other, 1) && Contains(other, 2, 20) && !Contains(other, 1, 20)
  {
    var other1 := Insert(New(1), 1, 10).0;
    var other := Insert(other1, 2, 20).0;
    assert !Contains(other1, 1, 20) && !Contains(other1, 1, 2) && !Contains(other1, 20, 20);
    assert Contains(other, 1, 1);
  }

  /**
    The example's shape: this relation is the class {1, 2} listed [1, 2];
    the other relates 1 to 1 and 2 to 20 but not 1 to 20.
  */
  lemma ExtendStopsEarly(mine: EqRel, other: EqRel)
    requires Coherent(mine) && Coherent(other)
    requires mine.forest == Forest([1, 2], map[1 := 1, 2 := 1]) && Buckets(Fresh(mine)) == [[1, 2]]
    requires ContainsElement(other, 1) && Contains(other, 2, 20) && !Contains(other, 1, 20)
    ensures ContainsElement(mine, 2)
    ensures !Contains(Extend(mine, other, StopAtFirst), 2, 20)
    ensures Contains(Extend(mine, other, ScanAll), 2, 20)
  {
    StopAtFirstImportsOnlyFirst(mine, other, 1, 2, 20);
    ExtendScanAllAbsorbsEveryShared(mine, other, 2);
  }

  /**
    A concrete instance of the early stop: this = {1, 2}, other = {1, 10}
    and {2, 20}. The code imports 10 through the shared member 1 and
    stops, so (2, 20) is never added although 2 is shared; the full scan
    adds it.
  */
  lemma ExtendStopsEarlyCounterexample()
    ensures var mine := Insert(New(0), 1, 2).0;
            var other := Insert(Insert(New(1), 1, 10).0, 2, 20).0;
            && ContainsElement(mine, 2) && Contains(other, 2, 20)
            && !Contains(Extend(mine, other, StopAtFirst), 2, 20)
            && Contains(Extend(mine, other, ScanAll), 2, 20)
  {
    OnePairForest();
    OnePairCache();
    TwoClassesRelation();
    ExtendStopsEarly(Insert(New(0), 1, 2).0, Insert(Insert(New(1), 1, 10).0, 2, 20).0);
  }
}
