/**
  The interpreter generator's ordering context: for every tuple id it
  keeps the decode table of the index order the tuple was read through,
  so that a column number of the original tuple can be mapped to its
  position in the index order.
*/
module TupleOrders {
  /** `orders[t][e]` is the position column e of tuple t takes in its index order. */
  datatype Context = Context(orders: seq<seq<nat>>)

  function EmptyContext(): (ctx: Context)
    ensures Positional(ctx)
  {
    Context([])
  }

  /** Every stored entry is a position of its own table, so it can index the tuple read through that order. */
  ghost predicate Positional(ctx: Context) {
    forall t, e :: 0 <= t < |ctx.orders| && 0 <= e < |ctx.orders[t]| ==> ctx.orders[t][e] < |ctx.orders[t]|
  }

  /** Every entry of an order names one of its columns. */
  predicate InRange(order: seq<nat>) {
    forall i :: 0 <= i < |order| ==> order[i] < |order|
  }

  /** No column appears twice; with `InRange`, the order is a permutation. */
  ghost predicate Injective(order: seq<nat>) {
    forall i, j :: 0 <= i < j < |order| ==> order[i] != order[j]
  }

  /** The decode table after the first n rounds of the scatter loop, which writes i at entry order[i]. */
  function DecodePrefix(order: seq<nat>, n: nat): (d: seq<nat>)
    requires InRange(order) && n <= |order|
    ensures |d| == |order|
    ensures forall j :: 0 <= j < |d| ==> d[j] < |order|
  {
    if n == 0 then seq(|order|, _ => 0)
    else DecodePrefix(order, n - 1)[order[n - 1] := n - 1]
  }

  /** A written entry names a round, before n, that wrote it; without repeated columns, the round is i itself. */
  lemma {:induction false} DecodePrefixWritten(order: seq<nat>, n: nat, i: nat)
    requires InRange(order) && i < n <= |order|
    ensures var p := DecodePrefix(order, n)[order[i]];
            p < n && order[p] == order[i]
    ensures Injective(order) ==> DecodePrefix(order, n)[order[i]] == i
  {
    if i < n - 1 {
      DecodePrefixWritten(order, n - 1, i);
    }
  }

  /** An entry no round wrote keeps its initial 0. */
  lemma {:induction false} DecodePrefixUntouched(order: seq<nat>, n: nat, j: nat)
    requires InRange(order) && n <= |order| && j < |order|
    requires forall i :: 0 <= i < n ==> order[i] != j
    ensures DecodePrefix(order, n)[j] == 0
  {
    if n > 0 {
      DecodePrefixUntouched(order, n - 1, j);
    }
  }

  /** The full decode table of an order. */
  function Decode(order: seq<nat>): (d: seq<nat>)
    requires InRange(order)
    ensures |d| == |order|
    ensures forall j :: 0 <= j < |d| ==> d[j] < |order|
  {
    DecodePrefix(order, |order|)
  }

  /** Reads back the stored decode entry; the table must cover the tuple and the column. */
  function MapOrder(ctx: Context, tupleId: nat, elementId: nat): (p: nat)
    requires tupleId < |ctx.orders| && elementId < |ctx.orders[tupleId]|
    ensures Positional(ctx) ==> p < |ctx.orders[tupleId]|
  {
    ctx.orders[tupleId][elementId]
  }

  /**
    Stores the decode table of `order` for `tupleId`, first growing the
    table with empty entries so that it covers `tupleId`.
  */
  function InsertOrder(ctx: Context, tupleId: nat, order: seq<nat>): (ctx': Context)
    requires InRange(order)
    ensures |ctx'.orders| == if tupleId < |ctx.orders| then |ctx.orders| else tupleId + 1
    ensures |ctx'.orders[tupleId]| == |order|
    ensures forall u :: 0 <= u < |ctx'.orders| && u != tupleId ==>
              ctx'.orders[u] == if u < |ctx.orders| then ctx.orders[u] else []
    ensures Positional(ctx) ==> Positional(ctx')
  {
    var grown := if tupleId < |ctx.orders| then ctx.orders
                 else ctx.orders + seq(tupleId + 1 - |ctx.orders|, _ => []);
    Context(grown[tupleId := Decode(order)])
  }

  /**
    For a permutation, the stored table is its inverse: column order[i]
    maps back to position i, and every entry names the position whose
    order entry it is.
  */
  lemma InsertOrderInverts(ctx: Context, tupleId: nat, order: seq<nat>)
    requires InRange(order) && Injective(order)
    ensures forall i :: 0 <= i < |order| ==> MapOrder(InsertOrder(ctx, tupleId, order), tupleId, order[i]) == i
  {
    forall i | 0 <= i < |order|
      ensures MapOrder(InsertOrder(ctx, tupleId, order), tupleId, order[i]) == i
    {
      DecodePrefixWritten(order, |order|, i);
    }
  }

  /** Even when the order repeats a column, decoding a column the order uses gives a position holding that column. */
  lemma InsertOrderFindsAPosition(ctx: Context, tupleId: nat, order: seq<nat>, i: nat)
    requires InRange(order) && i < |order|
    ensures var p := MapOrder(InsertOrder(ctx, tupleId, order), tupleId, order[i]);
            p < |order| && order[p] == order[i]
  {
    DecodePrefixWritten(order, |order|, i);
  }

  /** The identity order on `n` columns. */
  function Identity(n: nat): (s: seq<nat>)
    ensures |s| == n && forall i :: 0 <= i < n ==> s[i] == i
  {
    seq(n, i => i)
  }

  /** A new tuple is read in its natural column order. */
  function AddNewTuple(ctx: Context, tupleId: nat, arity: nat): (ctx': Context)
    ensures |ctx'.orders| == if tupleId < |ctx.orders| then |ctx.orders| else tupleId + 1
    ensures |ctx'.orders[tupleId]| == arity
    ensures forall u :: 0 <= u < |ctx'.orders| && u != tupleId ==>
              ctx'.orders[u] == if u < |ctx.orders| then ctx.orders[u] else []
    ensures Positional(ctx) ==> Positional(ctx')
  {
    InsertOrder(ctx, tupleId, Identity(arity))
  }

  /** After `AddNewTuple`, every column maps to itself. */
  lemma AddNewTupleIsIdentity(ctx: Context, tupleId: nat, arity: nat)
    ensures forall i :: 0 <= i < arity ==> MapOrder(AddNewTuple(ctx, tupleId, arity), tupleId, i) == i
  {
    var id := Identity(arity);
    forall i | 0 <= i < arity
      ensures MapOrder(AddNewTuple(ctx, tupleId, arity), tupleId, i) == i
    {
      DecodePrefixWritten(id, arity, i);
    }
  }
}
