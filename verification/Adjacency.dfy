/** Weighted adjacency dictionaries built from an edge list, as the refinement and the
    modularity graph both build them. */
module Adjacency {
  import opened Ordering
  import opened Refinement

  type Neighbours = map<Node, map<Node, real>>

  /** The keys of each row, in the order they were inserted. */
  type Orders = map<Node, seq<Node>>

  /** The total positive weight an edge list puts between two different nodes. */
  ghost function Weight(edges: seq<Edge>, u: Node, v: Node): real {
    if edges == [] then 0.0
    else
      var e := edges[|edges| - 1];
      Weight(edges[..|edges| - 1], u, v) + (if e.w > 0.0 && Joins(e, u, v) then e.w else 0.0)
  }

  ghost predicate Joins(e: Edge, u: Node, v: Node) {
    u != v && ((e.u == u && e.v == v) || (e.u == v && e.v == u))
  }

  lemma {:induction false} WeightSigns(edges: seq<Edge>, u: Node, v: Node)
    ensures Weight(edges, u, v) >= 0.0 && Weight(edges, u, v) == Weight(edges, v, u)
    ensures Weight(edges, u, v) > 0.0 <==> Linked(edges, u, v)
    ensures Weight(edges, u, u) == 0.0
  {
    LinkedEitherWay(edges, u, v);
    if edges != [] {
      var front := edges[..|edges| - 1];
      WeightSigns(front, u, v);
      LinkedEitherWay(front, u, v);
      assert forall i :: 0 <= i < |front| ==> front[i] == edges[i];
      if Linked(front, u, v) {
        var i :| 0 <= i < |front| && front[i].w > 0.0 && Joins(front[i], u, v);
        assert edges[i].w > 0.0 && Joins(edges[i], u, v);
      }
    }
  }

  predicate Has(adj: Neighbours, u: Node, v: Node) {
    u in adj && v in adj[u]
  }

  function Get(adj: Neighbours, u: Node, v: Node): real {
    if Has(adj, u, v) then adj[u][v] else 0.0
  }

  /** `adj[u][v] = adj[u].get(v, 0.0) + w` on a defaultdict of dicts. */
  function AddArc(adj: Neighbours, u: Node, v: Node, w: real): (r: Neighbours)
    ensures forall x, y :: Has(r, x, y) <==> Has(adj, x, y) || (x == u && y == v)
    ensures forall x, y :: Get(r, x, y) == Get(adj, x, y) + (if x == u && y == v then w else 0.0)
  {
    adj[u := (if u in adj then adj[u] else map[])[v := Get(adj, u, v) + w]]
  }

  function OrderAt(order: Orders, u: Node): seq<Node> {
    if u in order then order[u] else []
  }

  /** What the same assignment does to the order of the keys. */
  function AddKey(order: Orders, u: Node, v: Node): Orders {
    order[u := Inserted(OrderAt(order, u), v)]
  }

  /** The dictionary holds an entry for each linked pair, and its weight. */
  ghost predicate Holds(adj: Neighbours, edges: seq<Edge>) {
    forall u, v :: (Has(adj, u, v) <==> Weight(edges, u, v) > 0.0) && Get(adj, u, v) == Weight(edges, u, v)
  }

  lemma HoldsOneMore(adj: Neighbours, edges: seq<Edge>, e: Edge)
    requires Holds(adj, edges)
    ensures e.u == e.v || e.w <= 0.0 ==> Holds(adj, edges + [e])
    ensures e.u != e.v && e.w > 0.0 ==> Holds(AddArc(AddArc(adj, e.u, e.v, e.w), e.v, e.u, e.w), edges + [e])
  {
    assert (edges + [e])[..|edges|] == edges;
    forall u, v
      ensures Weight(edges + [e], u, v) == Weight(edges, u, v) + (if e.w > 0.0 && Joins(e, u, v) then e.w else 0.0)
    {
    }
    forall u, v ensures Weight(edges, u, v) >= 0.0 && Weight(edges, u, u) == 0.0 {
      WeightSigns(edges, u, v);
    }
  }

  /** A finished dictionary lists the neighbours of each node. */
  lemma HoldsLinks(adj: Neighbours, edges: seq<Edge>, u: Node, v: Node)
    requires Holds(adj, edges)
    ensures Has(adj, u, v) <==> (u, v) in LinksOf(edges)
    ensures Has(adj, u, v) ==> Get(adj, u, v) > 0.0
  {
    WeightSigns(edges, u, v);
  }
}
