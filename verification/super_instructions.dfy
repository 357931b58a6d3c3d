/**
  How the generator fills the bounds of a super-instruction from a RAM
  search pattern: the pattern is first put into index order, then each
  position is classified as unbounded, constant, tuple element or general
  expression.
*/
module SuperInstructions {
  import opened TupleOrders

  /** The bounds of the RAM signed domain, 32 bits wide. */
  const MIN_RAM_SIGNED: int := -0x8000_0000
  const MAX_RAM_SIGNED: int := 0x7fff_ffff

  /** A RAM value as far as bound filling can tell them apart. */
  datatype RamValue = Undef | Const(c: int) | TupleElem(tupleId: nat, element: nat) | Expr(exprId: nat)

  /** A bound slot: set by the generator, or left as the super-instruction was constructed. */
  datatype Slot = Untouched | Bound(v: int)

  /** A bound read during evaluation from a tuple: slot position, tuple id, and the column's position in the tuple's index order. */
  datatype TupleRef = TupleRef(pos: nat, tupleId: nat, element: nat)

  /** A bound computed during evaluation by the expression `exprId`. */
  datatype ExprRef = ExprRef(pos: nat, exprId: nat)

  datatype SuperInst = SuperInst(
    first: seq<Slot>, second: seq<Slot>,
    tupleFirst: seq<TupleRef>, tupleSecond: seq<TupleRef>,
    exprFirst: seq<ExprRef>, exprSecond: seq<ExprRef>)

  /** The pattern in index order: position i holds the value of column order[i]. */
  function Encoded(values: seq<RamValue>, order: seq<nat>): (pv: seq<RamValue>)
    requires forall i :: 0 <= i < |order| ==> order[i] < |values|
    ensures |pv| == |order|
    ensures forall i :: 0 <= i < |order| ==> pv[i] == values[order[i]]
  {
    seq(|order|, i requires 0 <= i < |order| => values[order[i]])
  }

  /** Every tuple element of the pattern names a tuple and column the ordering context knows. */
  ghost predicate Decodable(ctx: Context, pv: seq<RamValue>) {
    forall i :: 0 <= i < |pv| && pv[i].TupleElem? ==>
      pv[i].tupleId < |ctx.orders| && pv[i].element < |ctx.orders[pv[i].tupleId]|
  }

  /**
    `refs` lists, in increasing position order, exactly the tuple-element
    positions among the first n, each with its column decoded.
  */
  ghost predicate TupleRefsOf(refs: seq<TupleRef>, ctx: Context, pv: seq<RamValue>, n: nat)
    requires Decodable(ctx, pv) && n <= |pv|
  {
    && (forall k :: 0 <= k < |refs| ==>
          && refs[k].pos < n && pv[refs[k].pos].TupleElem?
          && refs[k].tupleId == pv[refs[k].pos].tupleId
          && refs[k].element == MapOrder(ctx, pv[refs[k].pos].tupleId, pv[refs[k].pos].element))
    && (forall k1, k2 :: 0 <= k1 < k2 < |refs| ==> refs[k1].pos < refs[k2].pos)
    && (forall p :: 0 <= p < n && pv[p].TupleElem? ==> exists k :: 0 <= k < |refs| && refs[k].pos == p)
  }

  /** `refs` lists, in increasing position order, exactly the expression positions among the first n. */
  ghost predicate ExprRefsOf(refs: seq<ExprRef>, pv: seq<RamValue>, n: nat)
    requires n <= |pv|
  {
    && (forall k :: 0 <= k < |refs| ==>
          refs[k].pos < n && pv[refs[k].pos].Expr? && refs[k].exprId == pv[refs[k].pos].exprId)
    && (forall k1, k2 :: 0 <= k1 < k2 < |refs| ==> refs[k1].pos < refs[k2].pos)
    && (forall p :: 0 <= p < n && pv[p].Expr? ==> exists k :: 0 <= k < |refs| && refs[k].pos == p)
  }

  /** Extending the scan by position n keeps `TupleRefsOf`, recording n exactly when it holds a tuple element. */
  lemma TupleRefsStep(refs: seq<TupleRef>, ctx: Context, pv: seq<RamValue>, n: nat)
    requires Decodable(ctx, pv) && n < |pv| && TupleRefsOf(refs, ctx, pv, n)
    ensures pv[n].TupleElem? ==>
              TupleRefsOf(refs + [TupleRef(n, pv[n].tupleId, MapOrder(ctx, pv[n].tupleId, pv[n].element))], ctx, pv, n + 1)
    ensures !pv[n].TupleElem? ==> TupleRefsOf(refs, ctx, pv, n + 1)
  {
    if pv[n].TupleElem? {
      var refs' := refs + [TupleRef(n, pv[n].tupleId, MapOrder(ctx, pv[n].tupleId, pv[n].element))];
      forall p | 0 <= p < n + 1 && pv[p].TupleElem?
        ensures exists k :: 0 <= k < |refs'| && refs'[k].pos == p
      {
        if p == n {
          assert refs'[|refs|].pos == p;
        } else {
          var k :| 0 <= k < |refs| && refs[k].pos == p;
          assert refs'[k].pos == p;
        }
      }
    }
  }

  /** Extending the scan by position n keeps `ExprRefsOf`, recording n exactly when it holds an expression. */
  lemma ExprRefsStep(refs: seq<ExprRef>, pv: seq<RamValue>, n: nat)
    requires n < |pv| && ExprRefsOf(refs, pv, n)
    ensures pv[n].Expr? ==> ExprRefsOf(refs + [ExprRef(n, pv[n].exprId)], pv, n + 1)
    ensures !pv[n].Expr? ==> ExprRefsOf(refs, pv, n + 1)
  {
    if pv[n].Expr? {
      var refs' := refs + [ExprRef(n, pv[n].exprId)];
      forall p | 0 <= p < n + 1 && pv[p].Expr?
        ensures exists k :: 0 <= k < |refs'| && refs'[k].pos == p
      {
        if p == n {
          assert refs'[|refs|].pos == p;
        } else {
          var k :| 0 <= k < |refs| && refs[k].pos == p;
          assert refs'[k].pos == p;
        }
      }
    }
  }

  /** Slot i is set from position i as the classification says: `unbounded` for an undefined value, c for a constant. */
  ghost predicate SlotsOf(slots: seq<Slot>, pv: seq<RamValue>, unbounded: int, n: nat)
    requires n <= |pv|
  {
    && |slots| == n
    && forall i :: 0 <= i < n ==>
         && (pv[i].Undef? ==> slots[i] == Bound(unbounded))
         && (pv[i].Const? ==> slots[i] == Bound(pv[i].c))
         && (pv[i].TupleElem? || pv[i].Expr? ==> slots[i] == Untouched)
  }

  /** Extending the scan by position n keeps `SlotsOf` when slot n is set as the classification says. */
  lemma SlotsStep(slots: seq<Slot>, pv: seq<RamValue>, unbounded: int, n: nat, slot: Slot)
    requires n < |pv| && SlotsOf(slots, pv, unbounded, n)
    requires pv[n].Undef? ==> slot == Bound(unbounded)
    requires pv[n].Const? ==> slot == Bound(pv[n].c)
    requires pv[n].TupleElem? || pv[n].Expr? ==> slot == Untouched
    ensures SlotsOf(slots + [slot], pv, unbounded, n + 1)
  {
  }

  /** The slot position n gets. */
  function SlotOf(v: RamValue, unbounded: int): (slot: Slot)
    ensures v.Undef? ==> slot == Bound(unbounded)
    ensures v.Const? ==> slot == Bound(v.c)
    ensures v.TupleElem? || v.Expr? ==> slot == Untouched
  {
    match v
    case Undef => Bound(unbounded)
    case Const(c) => Bound(c)
    case _ => Untouched
  }

  /** One side of the bounds: slots, tuple-element references and expression references. */
  method FillBounds(ctx: Context, pv: seq<RamValue>, unbounded: int)
    returns (slots: seq<Slot>, trefs: seq<TupleRef>, erefs: seq<ExprRef>)
    requires Decodable(ctx, pv)
    ensures SlotsOf(slots, pv, unbounded, |pv|)
    ensures TupleRefsOf(trefs, ctx, pv, |pv|)
    ensures ExprRefsOf(erefs, pv, |pv|)
  {
    slots, trefs, erefs := [], [], [];
    var i := 0;
    while i < |pv|
      invariant i <= |pv|
      invariant SlotsOf(slots, pv, unbounded, i)
      invariant TupleRefsOf(trefs, ctx, pv, i)
      invariant ExprRefsOf(erefs, pv, i)
    {
      var v := pv[i];
      SlotsStep(slots, pv, unbounded, i, SlotOf(v, unbounded));
      TupleRefsStep(trefs, ctx, pv, i);
      ExprRefsStep(erefs, pv, i);
      slots := slots + [SlotOf(v, unbounded)];
      if v.TupleElem? {
        trefs := trefs + [TupleRef(i, v.tupleId, MapOrder(ctx, v.tupleId, v.element))];
      } else if v.Expr? {
        erefs := erefs + [ExprRef(i, v.exprId)];
      }
      i := i + 1;
    }
  }

  /** A value in the 32-bit signed domain. */
  predicate InDomain(x: int) {
    MIN_RAM_SIGNED <= x <= MAX_RAM_SIGNED
  }

  /** What a pattern value asks of a column value x: nothing when undefined, x >= c (low side) or x <= c (high side) for a constant. */
  predicate LowAdmits(v: RamValue, x: int) {
    v.Undef? || (v.Const? && v.c <= x)
  }

  predicate HighAdmits(v: RamValue, x: int) {
    v.Undef? || (v.Const? && x <= v.c)
  }

  /**
    The bounds of an index scan over the range pattern (lows, highs), in
    the order of the index: an undefined low bound becomes MIN_RAM_SIGNED,
    an undefined high bound MAX_RAM_SIGNED, a constant is copied, and
    tuple elements and expressions are recorded for evaluation.
  */
  method IndexBounds(ctx: Context, lows: seq<RamValue>, highs: seq<RamValue>, order: seq<nat>) returns (s: SuperInst)
    requires forall i :: 0 <= i < |order| ==> order[i] < |lows| && order[i] < |highs|
    requires Decodable(ctx, Encoded(lows, order)) && Decodable(ctx, Encoded(highs, order))
    ensures SlotsOf(s.first, Encoded(lows, order), MIN_RAM_SIGNED, |order|)
    ensures SlotsOf(s.second, Encoded(highs, order), MAX_RAM_SIGNED, |order|)
    ensures TupleRefsOf(s.tupleFirst, ctx, Encoded(lows, order), |order|)
    ensures TupleRefsOf(s.tupleSecond, ctx, Encoded(highs, order), |order|)
    ensures ExprRefsOf(s.exprFirst, Encoded(lows, order), |order|)
    ensures ExprRefsOf(s.exprSecond, Encoded(highs, order), |order|)
    ensures forall i, x :: 0 <= i < |order| && InDomain(x) && s.first[i].Bound? && s.second[i].Bound? ==>
              (s.first[i].v <= x <= s.second[i].v <==> LowAdmits(lows[order[i]], x) && HighAdmits(highs[order[i]], x))
  {
    var f, tf, ef := FillBounds(ctx, Encoded(lows, order), MIN_RAM_SIGNED);
    var g, tg, eg := FillBounds(ctx, Encoded(highs, order), MAX_RAM_SIGNED);
    s := SuperInst(f, g, tf, tg, ef, eg);
  }

  /**
    The bounds of an existence check for the pattern `values`, in the
    order of the index: an undefined value spans the whole domain, a
    constant c gives [c, c], and tuple elements and expressions are
    recorded on the first side only.
  */
  method ExistenceBounds(ctx: Context, values: seq<RamValue>, order: seq<nat>) returns (s: SuperInst)
    requires forall i :: 0 <= i < |order| ==> order[i] < |values|
    requires Decodable(ctx, Encoded(values, order))
    ensures SlotsOf(s.first, Encoded(values, order), MIN_RAM_SIGNED, |order|)
    ensures SlotsOf(s.second, Encoded(values, order), MAX_RAM_SIGNED, |order|)
    ensures TupleRefsOf(s.tupleFirst, ctx, Encoded(values, order), |order|)
    ensures ExprRefsOf(s.exprFirst, Encoded(values, order), |order|)
    ensures s.tupleSecond == [] && s.exprSecond == []
    ensures forall i, x :: 0 <= i < |order| && InDomain(x) && s.first[i].Bound? ==>
              (s.first[i].v <= x <= s.second[i].v <==> values[order[i]].Undef? || values[order[i]] == Const(x))
  {
    var pv := Encoded(values, order);
    var f, tf, ef := FillBounds(ctx, pv, MIN_RAM_SIGNED);
    var g, _, _ := FillBounds(ctx, pv, MAX_RAM_SIGNED);
    s := SuperInst(f, g, tf, [], ef, []);
  }
}
