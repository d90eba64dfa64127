/** The game map of the model crate: lands plus an undirected adjacency list (crates/model/src/gm/mod.rs). */
module ModelGm {
  import opened Types

  /** `b` is listed among the neighbours of `a`. */
  predicate Linked(edges: seq<seq<nat>>, a: nat, b: nat) {
    a < |edges| && b in edges[a]
  }

  predicate NoDuplicates(s: seq<nat>) {
    forall i, j :: 0 <= i < j < |s| ==> s[i] != s[j]
  }

  /** Every endpoint is a land id, no list repeats an id, and the relation is symmetric. */
  ghost predicate WellFormed(edges: seq<seq<nat>>) {
    && (forall a, i :: 0 <= a < |edges| && 0 <= i < |edges[a]| ==> edges[a][i] < |edges|)
    && (forall a :: 0 <= a < |edges| ==> NoDuplicates(edges[a]))
    && (forall a: nat, b: nat :: Linked(edges, a, b) ==> Linked(edges, b, a))
  }

  /** The adjacency lists after `add_edge(u, v)`: `v` is pushed to `edges[u]` unless present, then `u` to `edges[v]`. */
  function AddedEdge(edges: seq<seq<nat>>, u: nat, v: nat): (r: seq<seq<nat>>)
    requires u < |edges| && v < |edges|
    ensures |r| == |edges|
    ensures Linked(r, u, v) && Linked(r, v, u)
    ensures forall w :: 0 <= w < |edges| && w != u && w != v ==> r[w] == edges[w]
    ensures forall w :: 0 <= w < |edges| ==> edges[w] <= r[w]
  {
    var e := if v in edges[u] then edges else edges[u := edges[u] + [v]];
    if u in e[v] then e else e[v := e[v] + [u]]
  }

  /** `add_edge` adds exactly the pair {u, v} to the edge relation. */
  lemma AddedEdgeRelation(edges: seq<seq<nat>>, u: nat, v: nat, a: nat, b: nat)
    requires u < |edges| && v < |edges|
    ensures Linked(AddedEdge(edges, u, v), a, b) <==>
      Linked(edges, a, b) || (a == u && b == v) || (a == v && b == u)
  {
    var e := if v in edges[u] then edges else edges[u := edges[u] + [v]];
    assert Linked(e, a, b) <==> Linked(edges, a, b) || (a == u && b == v);
  }

  /** `add_edge` keeps every endpoint in range, every list duplicate-free and the relation symmetric. */
  lemma AddedEdgeWellFormed(edges: seq<seq<nat>>, u: nat, v: nat)
    requires u < |edges| && v < |edges| && WellFormed(edges)
    ensures WellFormed(AddedEdge(edges, u, v))
  {
    var r := AddedEdge(edges, u, v);
    forall a: nat, b: nat | Linked(r, a, b) ensures Linked(r, b, a) {
      AddedEdgeRelation(edges, u, v, a, b);
      AddedEdgeRelation(edges, u, v, b, a);
    }
    var e := if v in edges[u] then edges else edges[u := edges[u] + [v]];
    assert forall a :: 0 <= a < |e| ==> NoDuplicates(e[a]);
  }

  /** Calling `add_edge(u, v)` twice has the effect of calling it once. */
  lemma AddedEdgeIdempotent(edges: seq<seq<nat>>, u: nat, v: nat)
    requires u < |edges| && v < |edges|
    ensures AddedEdge(AddedEdge(edges, u, v), u, v) == AddedEdge(edges, u, v)
  {
  }

  /** `GM`: `edges[id]` lists the neighbours of land `id`. */
  class GM {
    var edges: seq<seq<nat>>
    var lands: seq<Land>

    ghost predicate Valid()
      reads this
    {
      |edges| == |lands| && WellFormed(edges)
    }

    /** `GM::new(size)`: `size` default lands, each without neighbours. */
    constructor (size: nat)
      ensures Valid()
      ensures lands == seq(size, _ => DefaultLand) && edges == seq(size, _ => [])
    {
      lands := seq(size, _ => DefaultLand);
      edges := seq(size, _ => []);
    }

    /** `has_edge`: `v` is listed among the neighbours of `u`; on a valid map the relation is symmetric. */
    function HasEdge(u: nat, v: nat): (r: bool)
      reads this
      requires u < |edges|
      ensures r <==> Linked(edges, u, v)
      ensures Valid() && r ==> v < |edges| && Linked(edges, v, u)
    {
      v in edges[u]
    }

    method AddEdge(u: nat, v: nat)
      requires Valid() && u < |edges| && v < |edges|
      modifies this
      ensures Valid()
      ensures edges == AddedEdge(old(edges), u, v) && lands == old(lands)
    {
      AddedEdgeWellFormed(edges, u, v);
      if !HasEdge(u, v) {
        edges := edges[u := edges[u] + [v]];
      }
      if !HasEdge(v, u) {
        edges := edges[v := edges[v] + [u]];
      }
    }

    /** `size`: the number of lands, which on a valid map is also the number of adjacency lists. */
    function Size(): (r: nat)
      reads this
      ensures r == |lands|
      ensures Valid() ==> r == |edges|
    {
      |lands|
    }

    /** `type`. */
    function LandTypeOf(id: nat): LandType
      reads this
      requires id < |lands|
    {
      lands[id].landType
    }

    /** `amount`. */
    function Amount(id: nat): nat
      reads this
      requires id < |lands|
    {
      lands[id].amount
    }

    /** `color`. */
    function Color(id: nat): nat
      reads this
      requires id < |lands|
    {
      lands[id].color
    }

    /** `neighbors`: the ids `has_edge(id, _)` accepts, each once; on a valid map each is a land linking back to `id`. */
    function Neighbors(id: nat): (r: seq<nat>)
      reads this
      requires id < |edges|
      ensures forall v :: v in r <==> HasEdge(id, v)
      ensures Valid() ==> NoDuplicates(r) && forall v :: v in r ==> v < Size() && HasEdge(v, id)
    {
      edges[id]
    }

    /** The three accessors read the fields of land `id`, which they determine together. */
    lemma LandFields(id: nat)
      requires id < |lands|
      ensures lands[id] == Land(LandTypeOf(id), Color(id), Amount(id))
    {
    }
  }
}
