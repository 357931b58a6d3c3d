/**
  The derived bucket cache: for every class representative, the list of
  the class's members. It is rebuilt from the union-find structure by a
  scan over the dense slots and is only trusted while the relation's
  staleness flag is clear.
*/
module StatesCache {
  import opened SeqFacts
  import opened DisjointSets
  import opened PairEnum

  /**
    `buckets` maps a representative to its class's members; `order` lists
    the keys in the order the hash map is iterated, which the model fixes
    as the order in which the rebuild first met each representative.
  */
  datatype BucketCache = BucketCache(order: seq<int>, buckets: map<int, seq<int>>)

  function EmptyCache(): BucketCache {
    BucketCache([], map[])
  }

  /** The key list and the map agree and hold each key once. */
  ghost predicate KeysAgree(c: BucketCache) {
    && Distinct(c.order)
    && (forall j :: 0 <= j < |c.order| ==> c.order[j] in c.buckets)
    && (forall key :: key in c.buckets ==> key in c.order)
  }

  /**
    The cache holds exactly the classes of `f`: one non-empty,
    duplicate-free bucket per representative, and every known element in
    the bucket keyed by its representative.
  */
  ghost predicate Matches(f: Forest, c: BucketCache) {
    && KeysAgree(c)
    && (forall key :: key in c.buckets ==> |c.buckets[key]| > 0 && Distinct(c.buckets[key]))
    && (forall key, i :: key in c.buckets && 0 <= i < |c.buckets[key]| ==>
          c.buckets[key][i] in f.rep && f.rep[c.buckets[key][i]] == key)
    && (forall e :: e in f.rep ==> f.rep[e] in c.buckets && e in c.buckets[f.rep[e]])
  }

  /** As `Matches`, for the elements of the first `n` slots only. */
  ghost predicate PrefixMatches(f: Forest, c: BucketCache, n: nat)
    requires n <= |f.slots|
  {
    && KeysAgree(c)
    && (forall key :: key in c.buckets ==> |c.buckets[key]| > 0 && Distinct(c.buckets[key]))
    && (forall key, i :: key in c.buckets && 0 <= i < |c.buckets[key]| ==>
          c.buckets[key][i] in f.slots[..n] && c.buckets[key][i] in f.rep && f.rep[c.buckets[key][i]] == key)
    && (forall j :: 0 <= j < n ==>
          (f.slots[j] in f.rep && f.rep[f.slots[j]] in c.buckets && f.slots[j] in c.buckets[f.rep[f.slots[j]]]))
  }

  /** Insert-or-fetch the bucket for `key`, then append `e` to it. */
  function AddToBucket(c: BucketCache, key: int, e: int): BucketCache {
    if key in c.buckets then BucketCache(c.order, c.buckets[key := c.buckets[key] + [e]])
    else BucketCache(c.order + [key], c.buckets[key := [e]])
  }

  /** The cache after the rebuild loop has processed slots 0 .. n-1. */
  function BuildPrefix(f: Forest, n: nat): BucketCache
    requires Valid(f) && n <= |f.slots|
  {
    if n == 0 then EmptyCache()
    else
      var e := f.slots[n - 1];
      AddToBucket(BuildPrefix(f, n - 1), Find(f, e), e)
  }

  /** Each step of the rebuild loop keeps the processed prefix matched. */
  lemma {:induction false} BuildPrefixMatches(f: Forest, n: nat)
    requires Valid(f) && n <= |f.slots|
    ensures PrefixMatches(f, BuildPrefix(f, n), n)
  {
    if n > 0 {
      BuildPrefixMatches(f, n - 1);
      AddStep(f, BuildPrefix(f, n - 1), n);
    }
  }

  /** Processing slot k-1 extends a matched prefix of length k-1 to one of length k. */
  lemma AddStep(f: Forest, c: BucketCache, k: nat)
    requires Valid(f) && 0 < k <= |f.slots|
    requires PrefixMatches(f, c, k - 1)
    ensures PrefixMatches(f, AddToBucket(c, Find(f, f.slots[k - 1]), f.slots[k - 1]), k)
  {
    var n := k - 1;
    var e := f.slots[n];
    var r := Find(f, e);
    var c' := AddToBucket(c, r, e);
    assert f.slots[..n + 1] == f.slots[..n] + [e];
    assert e !in f.slots[..n];
    if r in c.buckets {
      var b := c.buckets[r];
      forall i | 0 <= i < |b|
        ensures b[i] != e
      {
        assert b[i] in f.slots[..n];
      }
      DistinctConcat(b, [e]);
    } else {
      DistinctConcat(c.order, [r]);
    }
    forall key, i | key in c'.buckets && 0 <= i < |c'.buckets[key]|
      ensures c'.buckets[key][i] in f.slots[..n + 1] && c'.buckets[key][i] in f.rep
      ensures f.rep[c'.buckets[key][i]] == key
    {
      if key == r && i == |c'.buckets[key]| - 1 {
        assert c'.buckets[key][i] == e;
      } else {
        assert key in c.buckets && i < |c.buckets[key]| && c'.buckets[key][i] == c.buckets[key][i];
      }
    }
    forall j | 0 <= j < n + 1
      ensures f.slots[j] in f.rep && f.rep[f.slots[j]] in c'.buckets
      ensures f.slots[j] in c'.buckets[f.rep[f.slots[j]]]
    {
      if j < n {
        var key := f.rep[f.slots[j]];
        assert f.slots[j] in c.buckets[key];
        if key == r {
          assert c'.buckets[key] == c.buckets[key] + [e];
        }
      } else {
        assert c'.buckets[r][|c'.buckets[r]| - 1] == e;
      }
    }
  }

  /** The full rebuild: every dense slot, in slot order. */
  function Build(f: Forest): (c: BucketCache)
    requires Valid(f)
    ensures Matches(f, c)
  {
    var c := BuildPrefix(f, |f.slots|);
    BuildPrefixMatches(f, |f.slots|);
    assert f.slots[..|f.slots|] == f.slots;
    forall e | e in f.rep
      ensures f.rep[e] in c.buckets && e in c.buckets[f.rep[e]]
    {
      var j :| 0 <= j < |f.slots| && f.slots[j] == e;
    }
    c
  }

  /** A bucket holds exactly the members of its key's class, and every key is a representative. */
  lemma BucketIsClass(f: Forest, c: BucketCache, key: int, e: int)
    requires Valid(f) && Matches(f, c) && key in c.buckets
    ensures key in f.rep && f.rep[key] == key
    ensures e in c.buckets[key] <==> e in f.rep && f.rep[e] == key
  {
    var b := c.buckets[key];
    assert b[0] in f.rep && f.rep[b[0]] == key;
    assert Find(f, b[0]) == key;
    if e in b {
      var i :| 0 <= i < |b| && b[i] == e;
    }
  }

  /** The buckets in key order. */
  function Buckets(c: BucketCache): (bs: seq<seq<int>>)
    requires KeysAgree(c)
    ensures |bs| == |c.order|
    ensures forall j :: 0 <= j < |bs| ==> bs[j] == c.buckets[c.order[j]]
  {
    seq(|c.order|, j requires 0 <= j < |c.order| => c.buckets[c.order[j]])
  }

  /** A matching cache enumerates no pair exactly when the partition knows no element. */
  lemma EmptyIffNoElement(f: Forest, c: BucketCache)
    requires Valid(f) && Matches(f, c)
    ensures SumSquares(Buckets(c), 0) > 0 <==> exists e :: NodeExists(f, e)
  {
    var bs := Buckets(c);
    assert KeysAgree(c);
    forall e | NodeExists(f, e)
      ensures f.rep[e] in c.order
    {
      var key := f.rep[e];
      assert key in c.buckets;
      assert key in c.order;
    }
    if |bs| > 0 {
      var key := c.order[0];
      assert key in c.buckets && bs[0] == c.buckets[key];
      assert |bs[0]| > 0 && NodeExists(f, bs[0][0]);
      assert |bs[0]| * |bs[0]| > 0;
    }
  }

  /** Matching buckets are non-empty and pairwise disjoint. */
  lemma MatchingBucketsDisjoint(f: Forest, c: BucketCache)
    requires Valid(f) && Matches(f, c)
    ensures Disjoint(Buckets(c))
  {
    var bs := Buckets(c);
    forall j | 0 <= j < |bs|
      ensures |bs[j]| > 0 && Distinct(bs[j])
    {
      var key := c.order[j];
      assert key in c.buckets;
      assert bs[j] == c.buckets[key];
      assert |c.buckets[key]| > 0 && Distinct(c.buckets[key]);
    }
    forall i, j | 0 <= i < j < |bs|
      ensures NoCommon(bs[i], bs[j])
    {
      forall l | 0 <= l < |bs[i]|
        ensures bs[i][l] !in bs[j]
      {
        BucketIsClass(f, c, c.order[i], bs[i][l]);
        BucketIsClass(f, c, c.order[j], bs[i][l]);
      }
    }
  }

  /** The enumeration over a matching cache holds exactly the related pairs, each once. */
  lemma EnumerationIsRelation(f: Forest, c: BucketCache, p: Pair)
    requires Valid(f) && Matches(f, c)
    ensures p in Flatten(Buckets(c), 0) <==> SameSet(f, p.0, p.1)
    ensures Distinct(Flatten(Buckets(c), 0))
  {
    var bs := Buckets(c);
    MatchingBucketsDisjoint(f, c);
    FlattenDistinct(bs, 0);
    FlattenMembers(bs, 0, p);
    if SameSet(f, p.0, p.1) {
      var key := f.rep[p.0];
      var j :| 0 <= j < |c.order| && c.order[j] == key;
      BucketIsClass(f, c, key, p.0);
      BucketIsClass(f, c, key, p.1);
      assert InBucket(bs, j, p);
    }
    if p in Flatten(bs, 0) {
      var j :| 0 <= j && InBucket(bs, j, p);
      BucketIsClass(f, c, c.order[j], p.0);
      BucketIsClass(f, c, c.order[j], p.1);
    }
  }
}
