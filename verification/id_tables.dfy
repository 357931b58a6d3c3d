/**
  The generator's memoised id allocators: view ids, which restart at 0
  in every query block, and relation ids, which are handed out once per
  relation name, creating the relation the first time.
*/
module IdTables {
  import opened SeqFacts

  /** A memo table: `ids` maps every key seen so far to its id; `next` is the id the next new key gets. */
  datatype Table<K> = Table(ids: map<K, nat>, next: nat)

  function EmptyTable<K>(): Table<K> {
    Table(map[], 0)
  }

  /** The ids handed out are below `next`, each to one key, and there are `next` of them. */
  ghost predicate Dense<K>(t: Table<K>) {
    && (forall k :: k in t.ids ==> t.ids[k] < t.next)
    && (forall k1, k2 :: k1 in t.ids && k2 in t.ids && t.ids[k1] == t.ids[k2] ==> k1 == k2)
    && |t.ids| == t.next
  }

  /** Hands out the next id and advances the counter (post-increment). */
  function NextId<K>(t: Table<K>): (res: (nat, Table<K>))
    ensures res.1.ids == t.ids && res.1.next == res.0 + 1
  {
    (t.next, Table(t.ids, t.next + 1))
  }

  /** The stored id of a key seen before; otherwise the next id, remembered for the key. */
  function Encode<K(!new)>(t: Table<K>, k: K): (res: (nat, Table<K>))
    ensures k in res.1.ids && res.1.ids[k] == res.0
    ensures k in t.ids ==> res == (t.ids[k], t)
    ensures k !in t.ids ==> res.0 == t.next && res.1.next == t.next + 1
    ensures forall k' :: k' != k ==> (k' in res.1.ids <==> k' in t.ids)
    ensures forall k' :: k' != k && k' in t.ids ==> res.1.ids[k'] == t.ids[k']
    ensures Dense(t) ==> Dense(res.1)
  {
    if k in t.ids then (t.ids[k], t)
    else
      var (id, t') := NextId(t);
      (id, Table(t'.ids[k := id], t'.next))
  }

  /** Encoding a key twice gives the same id and leaves the table as the first call left it. */
  lemma EncodeIsIdempotent<K(!new)>(t: Table<K>, k: K)
    ensures Encode(Encode(t, k).1, k) == (Encode(t, k).0, Encode(t, k).1)
  {
  }

  /** In a dense table, different keys get different ids whatever the order of encoding. */
  lemma EncodeSeparatesKeys<K(!new)>(t: Table<K>, k1: K, k2: K)
    requires Dense(t) && k1 != k2
    ensures Encode(Encode(t, k1).1, k2).0 != Encode(t, k1).0
  {
    var t1 := Encode(t, k1).1;
    assert Dense(t1);
  }

  /** Node identities stand for the addresses of RAM nodes. */
  type NodeId = nat

  /**
    The generator's bookkeeping: the view table of the current query
    block, the relation table, and the names of the relations created so
    far, in creation order.
  */
  datatype Generator = Generator(views: Table<NodeId>, rels: Table<string>, created: seq<string>)

  /** Relation i was created for the name with id i, and every name with an id was created. */
  ghost predicate CreationLog(g: Generator) {
    && |g.created| == g.rels.next
    && (forall name :: name in g.rels.ids ==> g.rels.ids[name] < |g.created| && g.created[g.rels.ids[name]] == name)
    && (forall i :: 0 <= i < |g.created| ==> g.created[i] in g.rels.ids && g.rels.ids[g.created[i]] == i)
  }

  ghost predicate Inv(g: Generator) {
    Dense(g.views) && Dense(g.rels) && CreationLog(g)
  }

  function NewGenerator(): (g: Generator)
    ensures Inv(g)
  {
    Generator(EmptyTable(), EmptyTable(), [])
  }

  /** A query block starts: the view table is emptied and view ids restart at 0. */
  function NewQueryBlock(g: Generator): (g': Generator)
    ensures g'.views.next == 0 && forall node :: node !in g'.views.ids
    ensures g'.rels == g.rels && g'.created == g.created
    ensures Inv(g) ==> Inv(g')
  {
    g.(views := EmptyTable())
  }

  function GetNextViewId(g: Generator): (res: (nat, Generator))
    ensures res.0 == g.views.next && res.1.views.next == g.views.next + 1
    ensures res.1.views.ids == g.views.ids && res.1.rels == g.rels && res.1.created == g.created
  {
    var (id, views) := NextId(g.views);
    (id, g.(views := views))
  }

  function GetNewRelId(g: Generator): (res: (nat, Generator))
    ensures res.0 == g.rels.next && res.1.rels.next == g.rels.next + 1
    ensures res.1.rels.ids == g.rels.ids && res.1.views == g.views && res.1.created == g.created
  {
    var (id, rels) := NextId(g.rels);
    (id, g.(rels := rels))
  }

  /** The view id of a node: its stored id, or the next view id, stored for it. */
  function EncodeView(g: Generator, node: NodeId): (res: (nat, Generator))
    ensures res.1.rels == g.rels && res.1.created == g.created
    ensures res.1.views == Encode(g.views, node).1 && res.0 == Encode(g.views, node).0
    ensures Inv(g) ==> Inv(res.1)
  {
    if node in g.views.ids then (g.views.ids[node], g)
    else
      var (id, g1) := GetNextViewId(g);
      (id, g1.(views := Table(g1.views.ids[node := id], g1.views.next)))
  }

  /** The id of a relation: its stored id, or a new id, stored for it, and the relation is created under it. */
  function EncodeRelation(g: Generator, name: string): (res: (nat, Generator))
    ensures res.1.views == g.views
    ensures res.1.rels == Encode(g.rels, name).1 && res.0 == Encode(g.rels, name).0
    ensures name in g.rels.ids ==> res.1.created == g.created
    ensures name !in g.rels.ids ==> res.1.created == g.created + [name]
    ensures Inv(g) ==> Inv(res.1) && res.0 < |res.1.created| && res.1.created[res.0] == name
  {
    if name in g.rels.ids then (g.rels.ids[name], g)
    else
      var (id, g1) := GetNewRelId(g);
      (id, Generator(g1.views, Table(g1.rels.ids[name := id], g1.rels.next), g.created + [name]))
  }

  /** Encodes the relations named in `names`, in order. */
  function EncodeRelations(g: Generator, names: seq<string>): (g': Generator)
    ensures Inv(g) ==> Inv(g')
    decreases |names|
  {
    if |names| == 0 then g else EncodeRelations(EncodeRelation(g, names[0]).1, names[1..])
  }

  /** The creation log never repeats a name. */
  lemma CreationLogDistinct(g: Generator)
    requires Inv(g)
    ensures Distinct(g.created)
  {
    forall i, j | 0 <= i < j < |g.created|
      ensures g.created[i] != g.created[j]
    {
      assert g.rels.ids[g.created[i]] == i;
    }
  }

  /**
    However many times relation names are encoded, every relation is
    created exactly once: the creation log never repeats a name, and it
    holds every name encoded so far.
  */
  lemma EachRelationCreatedOnce(g: Generator, names: seq<string>)
    requires Inv(g)
    ensures Distinct(EncodeRelations(g, names).created)
    ensures forall i :: 0 <= i < |names| ==> names[i] in EncodeRelations(g, names).created
    ensures forall i :: 0 <= i < |g.created| ==> g.created[i] in EncodeRelations(g, names).created
  {
    var g' := EncodeRelations(g, names);
    CreationLogDistinct(g');
    assert Logged(g) by {
      forall name | name in g.rels.ids
        ensures name in g.created
      {
        assert g.created[g.rels.ids[name]] == name;
      }
    }
    RelationsLogged(g, names);
    forall i | 0 <= i < |g.created|
      ensures g.created[i] in g'.created
    {
      assert g'.created[i] == g.created[i];
    }
  }

  /** Every name that has an id is in the creation log. */
  ghost predicate Logged(g: Generator) {
    forall name :: name in g.rels.ids ==> name in g.created
  }

  /** The creation log keeps its entries and gains every name encoded. */
  lemma {:induction false} RelationsLogged(g: Generator, names: seq<string>)
    requires Logged(g)
    ensures Logged(EncodeRelations(g, names))
    ensures g.created <= EncodeRelations(g, names).created
    ensures forall i :: 0 <= i < |names| ==> names[i] in EncodeRelations(g, names).created
    decreases |names|
  {
    if |names| > 0 {
      var g1 := EncodeRelation(g, names[0]).1;
      var g' := EncodeRelations(g1, names[1..]);
      assert g' == EncodeRelations(g, names);
      assert names[0] in g1.rels.ids;
      assert Logged(g1) by {
        forall name | name in g1.rels.ids
          ensures name in g1.created
        {
          if name != names[0] {
            assert name in g.created;
            var k :| 0 <= k < |g.created| && g.created[k] == name;
            assert g1.created[k] == name;
          }
        }
      }
      RelationsLogged(g1, names[1..]);
      forall i | 1 <= i < |names|
        ensures names[i] in g'.created
      {
        assert names[i] == names[1..][i - 1];
      }
    }
  }

  /** Encodes the views of `nodes`, in order. */
  function EncodeViews(g: Generator, nodes: seq<NodeId>): (g': Generator)
    ensures g'.rels == g.rels && g'.created == g.created
    ensures Inv(g) ==> Inv(g')
    decreases |nodes|
  {
    if |nodes| == 0 then g else EncodeViews(EncodeView(g, nodes[0]).1, nodes[1..])
  }

  /**
    Within a query block the view table holds exactly the nodes encoded
    since the block started, with the ids 0 .. k-1, one per distinct node.
  */
  lemma {:induction false} ViewIdsRestartPerBlock(g: Generator, nodes: seq<NodeId>)
    requires Inv(g)
    ensures var g' := EncodeViews(NewQueryBlock(g), nodes);
            Dense(g'.views) && forall node :: node in g'.views.ids <==> node in nodes
  {
    ViewsCollected(NewQueryBlock(g), nodes);
  }

  /** The view table after encoding `nodes` holds the nodes it held before and those of `nodes`, and no others. */
  lemma {:induction false} ViewsCollected(g: Generator, nodes: seq<NodeId>)
    ensures forall node :: node in EncodeViews(g, nodes).views.ids <==> node in g.views.ids || node in nodes
    decreases |nodes|
  {
    if |nodes| > 0 {
      var g1 := EncodeView(g, nodes[0]).1;
      ViewsCollected(g1, nodes[1..]);
      assert EncodeViews(g, nodes) == EncodeViews(g1, nodes[1..]);
      forall node
        ensures node in nodes <==> node == nodes[0] || node in nodes[1..]
      {
        assert nodes == [nodes[0]] + nodes[1..];
      }
    }
  }
}
