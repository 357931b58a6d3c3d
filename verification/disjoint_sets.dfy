/**
  The union-find collaborator the relation is built on, abstracted as a
  partition: every known element maps to the representative of its class.
  Path compression, ranks and the sparse/dense translation tables of the
  real structure are not modelled; `slots` keeps the dense-index order in
  which elements were first seen, which is the order the cache rebuild
  scans them in.
*/
module DisjointSets {
  import opened SeqFacts

  /** `slots[i]` is the element whose dense index is i; `rep[e]` is the representative of e's class. */
  datatype Forest = Forest(slots: seq<int>, rep: map<int, int>)

  /** Every slot holds a distinct known element, and representatives are known fixed points. */
  ghost predicate Valid(f: Forest) {
    && Distinct(f.slots)
    && (forall x :: x in f.rep <==> x in f.slots)
    && (forall r :: r in f.rep.Values ==> r in f.rep && f.rep[r] == r)
  }

  function Empty(): (f: Forest)
    ensures Valid(f)
    ensures forall e :: !NodeExists(f, e)
  {
    Forest([], map[])
  }

  predicate NodeExists(f: Forest, e: int) {
    e in f.rep
  }

  /** Both elements are known and share a representative. */
  predicate SameSet(f: Forest, x: int, y: int) {
    x in f.rep && y in f.rep && f.rep[x] == f.rep[y]
  }

  /** The representative of a known element's class; it is its own representative. */
  function Find(f: Forest, e: int): (r: int)
    requires Valid(f) && e in f.rep
    ensures r in f.rep && f.rep[r] == r
    ensures SameSet(f, e, r)
  {
    assert f.rep[e] in f.rep.Values;
    f.rep[e]
  }

  /** `a` lies in the class `x` has (or would have, as a fresh singleton). */
  predicate InClassOf(f: Forest, a: int, x: int) {
    a == x || SameSet(f, a, x)
  }

  /** Makes `e` known as a singleton class if it is not known yet. */
  function AddNode(f: Forest, e: int): (g: Forest)
    requires Valid(f)
    ensures Valid(g)
    ensures forall a :: NodeExists(g, a) <==> NodeExists(f, a) || a == e
    ensures forall a, b :: SameSet(g, a, b) <==> SameSet(f, a, b) || (a == b == e)
  {
    if e in f.rep then f else Forest(f.slots + [e], f.rep[e := e])
  }

  /**
    Merges the classes of `x` and `y`, creating either element first if it
    is new. The merged class keeps the representative of `x`'s class.
  */
  function Union(f: Forest, x: int, y: int): (g: Forest)
    requires Valid(f)
    ensures Valid(g)
    ensures forall a :: NodeExists(g, a) <==> NodeExists(f, a) || a == x || a == y
    ensures SameSet(g, x, y)
    ensures forall a, b :: SameSet(f, a, b) ==> SameSet(g, a, b)
  {
    var h := AddNode(AddNode(f, x), y);
    var rx := Find(h, x);
    var ry := Find(h, y);
    if rx == ry then h
    else Forest(h.slots, map z | z in h.rep :: if h.rep[z] == ry then rx else h.rep[z])
  }

  /**
    `Union` merges exactly the two classes involved: a pair is related
    afterwards iff it was related before, or each side lies in the class
    of `x` or of `y`.
  */
  lemma UnionMergesOnlyTheTwoClasses(f: Forest, x: int, y: int)
    requires Valid(f)
    ensures forall a, b :: SameSet(Union(f, x, y), a, b) <==>
            SameSet(f, a, b) ||
            ((InClassOf(f, a, x) || InClassOf(f, a, y)) && (InClassOf(f, b, x) || InClassOf(f, b, y)))
  {
    var h := AddNode(AddNode(f, x), y);
    assert forall c, d :: SameSet(h, c, d) <==> SameSet(f, c, d) || (c == d && (c == x || c == y));
    assert forall c, d :: InClassOf(f, c, d) && (d == x || d == y) ==> SameSet(h, c, d);
  }

  /** Uniting two elements that are already related changes nothing. */
  lemma UnionOfRelatedIsIdentity(f: Forest, x: int, y: int)
    requires Valid(f) && SameSet(f, x, y)
    ensures Union(f, x, y) == f
  {
  }

  /**
    If every class of `f` lies inside a class of the equivalence `rel`, and
    `x` is `rel`-related to `y`, the classes of `Union(f, x, y)` still lie
    inside classes of `rel`: a union never relates more than `rel` does.
  */
  lemma UnionStaysWithin(f: Forest, x: int, y: int, rel: Forest)
    requires Valid(f) && Valid(rel)
    requires forall a, b :: SameSet(f, a, b) ==> SameSet(rel, a, b)
    requires SameSet(rel, x, y)
    ensures forall a, b :: SameSet(Union(f, x, y), a, b) ==> SameSet(rel, a, b)
  {
    UnionMergesOnlyTheTwoClasses(f, x, y);
    forall a | InClassOf(f, a, x) || InClassOf(f, a, y)
      ensures SameSet(rel, a, x)
    {
    }
  }

  /** Relatedness is an equivalence on the known elements. */
  lemma SameSetIsEquivalence(f: Forest, a: int, b: int, c: int)
    ensures NodeExists(f, a) <==> SameSet(f, a, a)
    ensures SameSet(f, a, b) ==> SameSet(f, b, a)
    ensures SameSet(f, a, b) && SameSet(f, b, c) ==> SameSet(f, a, c)
  {
  }
}
