/**
  Reference enumeration of the pairs an equivalence relation holds, class
  by class: the self-cross-product of each bucket, row by row.
*/
module PairEnum {
  import opened SeqFacts

  type Pair = (int, int)

  /** The pairs (x, b[0]), (x, b[1]), ... in bucket order. */
  function Row(x: int, b: seq<int>): (r: seq<Pair>)
    ensures |r| == |b|
    ensures forall i :: 0 <= i < |b| ==> r[i] == (x, b[i])
  {
    seq(|b|, i requires 0 <= i < |b| => (x, b[i]))
  }

  /** Rows a, a+1, ... of the cross-product b × b. */
  function Rows(b: seq<int>, a: nat): seq<Pair>
    decreases |b| - a
  {
    if a >= |b| then [] else Row(b[a], b) + Rows(b, a + 1)
  }

  /** All pairs of one class, anterior-major. */
  function Square(b: seq<int>): seq<Pair> {
    Rows(b, 0)
  }

  /** The squares of buckets k, k+1, ... concatenated. */
  function Flatten(bs: seq<seq<int>>, k: nat): seq<Pair>
    decreases |bs| - k
  {
    if k >= |bs| then [] else Square(bs[k]) + Flatten(bs, k + 1)
  }

  /** The sum of the squared sizes of buckets k, k+1, ... */
  function SumSquares(bs: seq<seq<int>>, k: nat): nat
    decreases |bs| - k
  {
    if k >= |bs| then 0 else |bs[k]| * |bs[k]| + SumSquares(bs, k + 1)
  }

  /** Buckets in the list are non-empty, duplicate-free and pairwise disjoint. */
  ghost predicate Disjoint(bs: seq<seq<int>>) {
    && (forall j :: 0 <= j < |bs| ==> |bs[j]| > 0 && Distinct(bs[j]))
    && (forall i, j :: 0 <= i < j < |bs| ==> NoCommon(bs[i], bs[j]))
  }

  ghost predicate NoCommon(s: seq<int>, t: seq<int>) {
    forall i :: 0 <= i < |s| ==> s[i] !in t
  }

  lemma {:induction false} RowsLength(b: seq<int>, a: nat)
    requires a <= |b|
    ensures |Rows(b, a)| == (|b| - a) * |b|
    decreases |b| - a
  {
    if a < |b| {
      RowsLength(b, a + 1);
      assert (|b| - a) * |b| == |b| + (|b| - (a + 1)) * |b|;
    }
  }

  /** A bucket of size s contributes s² pairs. */
  lemma SquareLength(b: seq<int>)
    ensures |Square(b)| == |b| * |b|
  {
    RowsLength(b, 0);
  }

  /** The enumeration has exactly as many pairs as the sum of squares says. */
  lemma {:induction false} FlattenLength(bs: seq<seq<int>>, k: nat)
    ensures |Flatten(bs, k)| == SumSquares(bs, k)
    decreases |bs| - k
  {
    if k < |bs| {
      SquareLength(bs[k]);
      FlattenLength(bs, k + 1);
    }
  }

  lemma {:induction false} RowsMembers(b: seq<int>, a: nat, p: Pair)
    ensures p in Rows(b, a) <==> a <= |b| && p.0 in b[a..] && p.1 in b
    decreases |b| - a
  {
    if a < |b| {
      RowsMembers(b, a + 1, p);
      assert b[a..] == [b[a]] + b[a + 1..];
      if p in Row(b[a], b) {
        var i :| 0 <= i < |b| && Row(b[a], b)[i] == p;
        assert p.1 == b[i];
      }
      if p.0 == b[a] && p.1 in b {
        var i :| 0 <= i < |b| && b[i] == p.1;
        assert Row(b[a], b)[i] == p;
      }
    } else if a == |b| {
      assert b[a..] == [];
    }
  }

  /** The square of a bucket holds exactly the pairs drawn from it. */
  lemma SquareMembers(b: seq<int>, p: Pair)
    ensures p in Square(b) <==> p.0 in b && p.1 in b
  {
    RowsMembers(b, 0, p);
    assert b[0..] == b;
  }

  /** Both components of `p` lie in bucket `j`. */
  predicate InBucket(bs: seq<seq<int>>, j: int, p: Pair) {
    0 <= j < |bs| && p.0 in bs[j] && p.1 in bs[j]
  }

  /** The enumeration holds exactly the pairs drawn from one bucket. */
  lemma {:induction false} FlattenMembers(bs: seq<seq<int>>, k: nat, p: Pair)
    ensures p in Flatten(bs, k) <==> exists j :: k <= j && InBucket(bs, j, p)
    decreases |bs| - k
  {
    if k < |bs| {
      FlattenMembers(bs, k + 1, p);
      SquareMembers(bs[k], p);
      if p in Flatten(bs, k) {
        if p in Square(bs[k]) {
          assert InBucket(bs, k, p);
        } else {
          assert p in Flatten(bs, k + 1);
        }
      }
      if exists j :: k <= j && InBucket(bs, j, p) {
        var j :| k <= j && InBucket(bs, j, p);
        if j == k {
          assert p in Square(bs[k]);
        } else {
          assert k + 1 <= j;
        }
      }
    } else {
      assert forall j :: k <= j ==> !InBucket(bs, j, p);
    }
  }

  lemma {:induction false} RowsDistinct(b: seq<int>, a: nat)
    requires Distinct(b)
    ensures Distinct(Rows(b, a))
    decreases |b| - a
  {
    if a < |b| {
      RowsDistinct(b, a + 1);
      forall i | 0 <= i < |Row(b[a], b)|
        ensures Row(b[a], b)[i] !in Rows(b, a + 1)
      {
        RowsMembers(b, a + 1, Row(b[a], b)[i]);
        assert b[a..] == [b[a]] + b[a + 1..];
      }
      DistinctConcat(Row(b[a], b), Rows(b, a + 1));
    }
  }

  /** Every pair of the enumeration is listed once. */
  lemma {:induction false} FlattenDistinct(bs: seq<seq<int>>, k: nat)
    requires Disjoint(bs)
    ensures Distinct(Flatten(bs, k))
    decreases |bs| - k
  {
    if k < |bs| {
      FlattenDistinct(bs, k + 1);
      RowsDistinct(bs[k], 0);
      forall i | 0 <= i < |Square(bs[k])|
        ensures Square(bs[k])[i] !in Flatten(bs, k + 1)
      {
        var p := Square(bs[k])[i];
        SquareMembers(bs[k], p);
        FlattenMembers(bs, k + 1, p);
        forall j | k + 1 <= j < |bs|
          ensures !InBucket(bs, j, p)
        {
          assert NoCommon(bs[k], bs[j]);
        }
      }
      DistinctConcat(Square(bs[k]), Flatten(bs, k + 1));
    }
  }

  /** One row per member, concatenated, is the whole square. */
  lemma {:induction false} RowsAsConcat(b: seq<int>, a: nat)
    requires a <= |b|
    ensures Rows(b, a) == Concat(seq(|b| - a, i requires 0 <= i < |b| - a => Row(b[a + i], b)))
    decreases |b| - a
  {
    var ss := seq(|b| - a, i requires 0 <= i < |b| - a => Row(b[a + i], b));
    if a < |b| {
      RowsAsConcat(b, a + 1);
      assert ss[1..] == seq(|b| - (a + 1), i requires 0 <= i < |b| - (a + 1) => Row(b[a + 1 + i], b));
    }
  }

  /** Each bucket's square is part of the total. */
  lemma {:induction false} SumSquaresBound(bs: seq<seq<int>>, k: nat, j: nat)
    requires k <= j < |bs|
    ensures SumSquares(bs, k) >= |bs[j]| * |bs[j]|
    decreases j - k
  {
    if k < j {
      SumSquaresBound(bs, k + 1, j);
    }
  }
}
