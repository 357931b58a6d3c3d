/**
  The relation's single iterator type with its four modes. An active
  iterator holds the buckets it walks (a shared snapshot of the cache), a
  bucket cursor `k`, anterior and posterior indices into bucket `k`, and
  the current pair; the end iterator only remembers its owner.
*/
module PairIterator {
  import opened Results
  import opened PairEnum

  datatype Mode =
    | All        // every pair of every bucket
    | Anterior   // (former, y) for every y of one bucket
    | AntPost    // the single pair (former, latter)
    | Within     // every pair of one bucket

  datatype Iter =
    | AtEnd(owner: nat)
    | Active(owner: nat, mode: Mode, bs: seq<seq<int>>, k: nat, ant: nat, post: nat, pair: Pair)

  /** Cursors are in range, single-bucket modes hold one bucket, and the current pair agrees with the cursors. */
  ghost predicate WellFormed(it: Iter) {
    it.Active? ==>
      && it.k < |it.bs| && it.ant < |it.bs[it.k]| && it.post < |it.bs[it.k]|
      && (!it.mode.All? ==> |it.bs| == 1)
      && ((it.mode.All? || it.mode.Within?) ==> it.pair == (it.bs[it.k][it.ant], it.bs[it.k][it.post]))
      && (it.mode.Anterior? ==> it.pair.1 == it.bs[it.k][it.post])
  }

  /** Every bucket the iterator walks is non-empty. */
  ghost predicate NonEmptyBuckets(it: Iter) {
    it.Active? ==> forall j :: 0 <= j < |it.bs| ==> |it.bs[j]| > 0
  }

  /** ALL mode over the buckets in map order; at the end at once when there are none. */
  function IterAll(owner: nat, bs: seq<seq<int>>): (it: Iter)
    requires |bs| > 0 ==> |bs[0]| > 0
    ensures WellFormed(it) && it.owner == owner
    ensures it.AtEnd? <==> |bs| == 0
    ensures it.Active? ==> it.mode == All && it.bs == bs && it.k == 0 && it.ant == 0 && it.post == 0
  {
    if |bs| == 0 then AtEnd(owner) else Active(owner, All, bs, 0, 0, 0, (bs[0][0], bs[0][0]))
  }

  /** WITHIN mode over one bucket. */
  function IterWithin(owner: nat, b: seq<int>): (it: Iter)
    ensures WellFormed(it) && it.owner == owner
    ensures it.AtEnd? <==> |b| == 0
    ensures it.Active? ==> it.mode == Within && it.bs == [b] && it.ant == 0 && it.post == 0
  {
    if |b| == 0 then AtEnd(owner) else Active(owner, Within, [b], 0, 0, 0, (b[0], b[0]))
  }

  /** ANTERIOR mode: the first component is fixed to `former`. */
  function IterAnterior(owner: nat, former: int, b: seq<int>): (it: Iter)
    ensures WellFormed(it) && it.owner == owner
    ensures it.AtEnd? <==> |b| == 0
    ensures it.Active? ==> it.mode == Anterior && it.bs == [b] && it.pair.0 == former && it.post == 0
  {
    if |b| == 0 then AtEnd(owner) else Active(owner, Anterior, [b], 0, 0, 0, (former, b[0]))
  }

  /** ANTPOST mode: the single pair (former, latter). */
  function IterAntPost(owner: nat, former: int, latter: int, b: seq<int>): (it: Iter)
    ensures WellFormed(it) && it.owner == owner
    ensures it.AtEnd? <==> |b| == 0
    ensures it.Active? ==> it.mode == AntPost && it.bs == [b] && it.pair == (former, latter)
  {
    if |b| == 0 then AtEnd(owner) else Active(owner, AntPost, [b], 0, 0, 0, (former, latter))
  }

  /**
    Pre-increment. The posterior index moves first; when it runs off the
    bucket the anterior index moves and the posterior restarts; in ALL mode
    running off the bucket moves to the next bucket of the map.
  */
  function Next(it: Iter): (r: Result<Iter>)
    requires WellFormed(it)
    ensures it.AtEnd? ==> r == Fail(IncrementPastEnd)
    ensures r.Ok? ==> WellFormed(r.value) && r.value.owner == it.owner
    ensures r.Ok? && r.value.Active? ==> it.Active? && r.value.mode == it.mode && r.value.bs == it.bs
    ensures it.Active? && NonEmptyBuckets(it) ==> r.Ok?
  {
    match it
    case AtEnd(_) => Fail(IncrementPastEnd)
    case Active(o, mode, bs, k, a, p, pair) =>
      var b := bs[k];
      match mode
      case All =>
        if p + 1 < |b| then Ok(it.(post := p + 1, pair := (pair.0, b[p + 1])))
        else if a + 1 < |b| then Ok(it.(ant := a + 1, post := 0, pair := (b[a + 1], b[0])))
        else if k + 1 == |bs| then Ok(AtEnd(o))
        else if |bs[k + 1]| == 0 then Fail(EmptyBucket)
        else Ok(it.(k := k + 1, ant := 0, post := 0, pair := (bs[k + 1][0], bs[k + 1][0])))
      case Within =>
        if p + 1 < |b| then Ok(it.(post := p + 1, pair := (pair.0, b[p + 1])))
        else if a + 1 < |b| then Ok(it.(ant := a + 1, post := 0, pair := (b[a + 1], b[0])))
        else Ok(AtEnd(o))
      case Anterior =>
        if p + 1 < |b| then Ok(it.(post := p + 1, pair := (pair.0, b[p + 1])))
        else Ok(AtEnd(o))
      case AntPost =>
        Ok(AtEnd(o))
  }

  /** Iterator equality: end iterators compare owners, active ones compare current pairs. */
  function Eq(i: Iter, j: Iter): (b: bool)
    ensures b ==> i.AtEnd? == j.AtEnd?
    ensures i.Active? && j.Active? ==> (b <==> i.pair == j.pair)
  {
    if i.AtEnd? && j.AtEnd? then i.owner == j.owner
    else i.AtEnd? == j.AtEnd? && i.pair == j.pair
  }

  /** Equality is an equivalence relation on iterators. */
  lemma EqIsEquivalence(i: Iter, j: Iter, l: Iter)
    ensures Eq(i, i)
    ensures Eq(i, j) ==> Eq(j, i)
    ensures Eq(i, j) && Eq(j, l) ==> Eq(i, l)
  {
  }

  /**
    A range [it, end) stops exactly when `it` reaches the end iterator of
    the same owner: no active iterator equals an end iterator, and end
    iterators of different owners differ.
  */
  lemma EqEndIff(it: Iter, owner: nat)
    ensures Eq(it, AtEnd(owner)) <==> it == AtEnd(owner)
  {
  }

  /** The pairs an iterator has yet to produce, current pair first, by the reference enumeration. */
  function Expected(it: Iter): seq<Pair>
    requires WellFormed(it)
  {
    match it
    case AtEnd(_) => []
    case Active(_, mode, bs, k, a, p, pair) =>
      var b := bs[k];
      match mode
      case All => Row(b[a], b)[p..] + Rows(b, a + 1) + Flatten(bs, k + 1)
      case Within => Row(b[a], b)[p..] + Rows(b, a + 1)
      case Anterior => Row(pair.0, b)[p..]
      case AntPost => [pair]
  }

  lemma RowSuffixStep(x: int, b: seq<int>, p: nat)
    requires p < |b|
    ensures Row(x, b)[p..] == [(x, b[p])] + Row(x, b)[p + 1..]
  {
  }

  lemma RowsStep(b: seq<int>, a: nat)
    requires a < |b|
    ensures Rows(b, a) == Row(b[a], b)[0..] + Rows(b, a + 1)
  {
    assert Row(b[a], b)[0..] == Row(b[a], b);
  }

  /** One increment consumes exactly the current pair of the expected sequence. */
  lemma NextStep(it: Iter)
    requires WellFormed(it) && it.Active?
    ensures Next(it).Ok? ==> Expected(it) == [it.pair] + Expected(Next(it).value)
  {
    match it.mode
    case All => NextStepAll(it);
    case Within => NextStepWithin(it);
    case Anterior => RowSuffixStep(it.pair.0, it.bs[0], it.post);
    case AntPost =>
  }

  lemma NextStepAll(it: Iter)
    requires WellFormed(it) && it.Active? && it.mode.All?
    ensures Next(it).Ok? ==> Expected(it) == [it.pair] + Expected(Next(it).value)
  {
    var bs, k, a, p := it.bs, it.k, it.ant, it.post;
    var b := bs[k];
    if p + 1 < |b| {
      AllStepPosterior(it);
    } else if a + 1 < |b| {
      AllStepAnterior(it);
    } else if k + 1 == |bs| {
      assert Next(it) == Ok(AtEnd(it.owner));
      RowSuffixStep(b[a], b, p);
    } else if |bs[k + 1]| > 0 {
      AllStepBucket(it);
    } else {
      assert Next(it) == Fail(EmptyBucket);
    }
  }

  lemma AllStepPosterior(it: Iter)
    requires WellFormed(it) && it.Active? && it.mode.All?
    requires it.post + 1 < |it.bs[it.k]|
    ensures Next(it).Ok? && Expected(it) == [it.pair] + Expected(Next(it).value)
  {
    var bs, k, a, p := it.bs, it.k, it.ant, it.post;
    var b := bs[k];
    var x := b[a];
    var rest := Rows(b, a + 1) + Flatten(bs, k + 1);
    RowSuffixStep(x, b, p);
    var n := it.(post := p + 1, pair := (x, b[p + 1]));
    assert Next(it) == Ok(n);
    assert Expected(n) == Row(x, b)[p + 1..] + rest;
  }

  lemma AllStepAnterior(it: Iter)
    requires WellFormed(it) && it.Active? && it.mode.All?
    requires it.post + 1 == |it.bs[it.k]| && it.ant + 1 < |it.bs[it.k]|
    ensures Next(it).Ok? && Expected(it) == [it.pair] + Expected(Next(it).value)
  {
    var bs, k, a, p := it.bs, it.k, it.ant, it.post;
    var b := bs[k];
    RowSuffixStep(b[a], b, p);
    var n := it.(ant := a + 1, post := 0, pair := (b[a + 1], b[0]));
    assert Next(it) == Ok(n);
    RowsStep(b, a + 1);
    assert Expected(n) == Row(b[a + 1], b)[0..] + (Rows(b, a + 2) + Flatten(bs, k + 1));
  }

  lemma AllStepBucket(it: Iter)
    requires WellFormed(it) && it.Active? && it.mode.All?
    requires it.post + 1 == |it.bs[it.k]| && it.ant + 1 == |it.bs[it.k]|
    requires it.k + 1 < |it.bs| && |it.bs[it.k + 1]| > 0
    ensures Next(it).Ok? && Expected(it) == [it.pair] + Expected(Next(it).value)
  {
    var bs, k, a, p := it.bs, it.k, it.ant, it.post;
    var b := bs[k];
    RowSuffixStep(b[a], b, p);
    assert Rows(b, a + 1) == [];
    var b' := bs[k + 1];
    var n := it.(k := k + 1, ant := 0, post := 0, pair := (b'[0], b'[0]));
    assert Next(it) == Ok(n);
    RowsStep(b', 0);
    assert Flatten(bs, k + 1) == Rows(b', 0) + Flatten(bs, k + 2);
    assert Expected(n) == Row(b'[0], b')[0..] + (Rows(b', 1) + Flatten(bs, k + 2));
  }

  lemma NextStepWithin(it: Iter)
    requires WellFormed(it) && it.Active? && it.mode.Within?
    ensures Next(it).Ok? ==> Expected(it) == [it.pair] + Expected(Next(it).value)
  {
    var b, a, p := it.bs[0], it.ant, it.post;
    var x := b[a];
    var rest := Rows(b, a + 1);
    assert Expected(it) == Row(x, b)[p..] + rest;
    RowSuffixStep(x, b, p);
    if p + 1 < |b| {
      var n := it.(post := p + 1, pair := (x, b[p + 1]));
      assert Next(it) == Ok(n);
      assert Expected(n) == Row(x, b)[p + 1..] + rest;
    } else if a + 1 < |b| {
      var n := it.(ant := a + 1, post := 0, pair := (b[a + 1], b[0]));
      assert Next(it) == Ok(n);
      RowsStep(b, a + 1);
      assert Expected(n) == Row(b[a + 1], b)[0..] + Rows(b, a + 2);
    } else {
      assert Next(it) == Ok(AtEnd(it.owner));
      assert rest == [];
    }
  }

  /** The pairs produced by incrementing until the end (or until an increment faults). */
  function Pairs(it: Iter): seq<Pair>
    requires WellFormed(it)
    decreases |Expected(it)|
  {
    if it.AtEnd? then []
    else
      NextStep(it);
      match Next(it)
      case Ok(n) => [it.pair] + Pairs(n)
      case Fail(_) => [it.pair]
  }

  /** Walking an iterator over non-empty buckets yields exactly its expected pairs. */
  lemma {:induction false} WalkYieldsExpected(it: Iter)
    requires WellFormed(it) && NonEmptyBuckets(it)
    ensures Pairs(it) == Expected(it)
    decreases |Expected(it)|
  {
    if it.Active? {
      NextStep(it);
      var n := Next(it).value;
      WalkYieldsExpected(n);
    }
  }

  /**
    ALL mode from the start visits every pair of every bucket once, bucket
    by bucket, anterior-major, so it takes as many steps as the sum of the
    squared bucket sizes.
  */
  lemma AllVisitsEveryPairOnce(owner: nat, bs: seq<seq<int>>)
    requires forall j :: 0 <= j < |bs| ==> |bs[j]| > 0
    ensures Pairs(IterAll(owner, bs)) == Flatten(bs, 0)
    ensures |Pairs(IterAll(owner, bs))| == SumSquares(bs, 0)
  {
    var it := IterAll(owner, bs);
    WalkYieldsExpected(it);
    if |bs| > 0 {
      assert Row(bs[0][0], bs[0])[0..] == Row(bs[0][0], bs[0]);
    }
    FlattenLength(bs, 0);
  }

  /** WITHIN mode yields the |b|² pairs of its bucket. */
  lemma WithinYieldsSquare(owner: nat, b: seq<int>)
    ensures Pairs(IterWithin(owner, b)) == Square(b)
    ensures |Pairs(IterWithin(owner, b))| == |b| * |b|
  {
    var it := IterWithin(owner, b);
    WalkYieldsExpected(it);
    if |b| > 0 {
      assert Row(b[0], b)[0..] == Row(b[0], b);
    }
    SquareLength(b);
  }

  /** ANTERIOR mode yields |b| pairs, (former, y) for each y of the bucket in order. */
  lemma AnteriorYieldsRow(owner: nat, former: int, b: seq<int>)
    ensures Pairs(IterAnterior(owner, former, b)) == Row(former, b)
    ensures |Pairs(IterAnterior(owner, former, b))| == |b|
    ensures forall q :: q in Pairs(IterAnterior(owner, former, b)) ==> q.0 == former
  {
    var it := IterAnterior(owner, former, b);
    WalkYieldsExpected(it);
    assert Row(former, b)[0..] == Row(former, b);
  }

  /** ANTPOST mode yields exactly one pair. */
  lemma AntPostYieldsOne(owner: nat, former: int, latter: int, b: seq<int>)
    requires |b| > 0
    ensures Pairs(IterAntPost(owner, former, latter, b)) == [(former, latter)]
  {
    WalkYieldsExpected(IterAntPost(owner, former, latter, b));
  }
}
