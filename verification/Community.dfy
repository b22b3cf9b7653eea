/** The structural graph as the code builds and scores it: `_Graph.from_edges`, `degree`,
    `total_weight`, `modularity` and `coverage`. */
module Community {
  import opened Ordering
  import opened Refinement
  import opened Adjacency
  import opened Sums
  import opened Modularity

  /** The edges `from_edges` does not skip. */
  ghost function Kept(edges: seq<Edge>, present: set<Node>): seq<Edge> {
    if edges == [] then []
    else
      var e := edges[|edges| - 1];
      Kept(edges[..|edges| - 1], present) + (if e.u in present && e.v in present && e.w > 0.0 then [e] else [])
  }

  ghost function LoopWeight(edges: seq<Edge>, u: Node): real {
    if edges == [] then 0.0
    else
      var e := edges[|edges| - 1];
      LoopWeight(edges[..|edges| - 1], u) + (if e.u == e.v == u then e.w else 0.0)
  }

  /** What the edge list determines of the graph. */
  ghost predicate Built(adj: Neighbours, loops: map<Node, real>, kept: seq<Edge>) {
    Holds(adj, kept) &&
    forall u :: (if u in loops then loops[u] else 0.0) == LoopWeight(kept, u) && (u in loops ==> loops[u] > 0.0)
  }

  /** The other ends of the edges at u, in the order of the edges. */
  ghost function OtherEnds(kept: seq<Edge>, u: Node): seq<Node> {
    if kept == [] then []
    else
      var e := kept[|kept| - 1];
      OtherEnds(kept[..|kept| - 1], u) + OtherEnd(e, u)
  }

  ghost function OtherEnd(e: Edge, u: Node): seq<Node> {
    if e.u == e.v then [] else if e.u == u then [e.v] else if e.v == u then [e.u] else []
  }

  /** Each row lists its neighbours in the order in which the edges first name them. */
  ghost predicate ListedAs(order: Orders, kept: seq<Edge>) {
    forall u :: OrderAt(order, u) == Firsts(OtherEnds(kept, u))
  }

  ghost function ListedAfter(order: Orders, e: Edge): Orders {
    if e.u == e.v then order else AddKey(AddKey(order, e.u, e.v), e.v, e.u)
  }

  lemma ListedOneMore(order: Orders, kept: seq<Edge>, e: Edge)
    requires ListedAs(order, kept)
    ensures ListedAs(ListedAfter(order, e), kept + [e])
  {
    forall u ensures OrderAt(ListedAfter(order, e), u) == Firsts(OtherEnds(kept + [e], u)) {
      assert OrderAt(order, u) == Firsts(OtherEnds(kept, u));
      ListedAt(order, kept, e, u);
    }
  }

  lemma ListedAt(order: Orders, kept: seq<Edge>, e: Edge, u: Node)
    requires OrderAt(order, u) == Firsts(OtherEnds(kept, u))
    ensures OrderAt(ListedAfter(order, e), u) == Firsts(OtherEnds(kept + [e], u))
  {
    hide OtherEnds, Firsts, Inserted;
    EndsOneMore(kept, e, u);
    var before := OtherEnds(kept, u);
    if e.u == e.v || (e.u != u && e.v != u) {
      assert before + [] == before;
    } else {
      FirstsOneMore(before, if e.u == u then e.v else e.u);
    }
  }

  lemma EndsOneMore(kept: seq<Edge>, e: Edge, u: Node)
    ensures OtherEnds(kept + [e], u) == OtherEnds(kept, u) + OtherEnd(e, u)
  {
    assert (kept + [e])[..|kept|] == kept;
  }

  lemma {:induction false} OtherEndsLinked(kept: seq<Edge>, u: Node, v: Node)
    requires forall i :: 0 <= i < |kept| ==> kept[i].w > 0.0
    ensures v in OtherEnds(kept, u) <==> Weight(kept, u, v) > 0.0
  {
    if kept != [] {
      var front := kept[..|kept| - 1];
      OtherEndsLinked(front, u, v);
      WeightSigns(front, u, v);
    }
  }

  lemma {:induction false} KeptEdges(edges: seq<Edge>, present: set<Node>, i: nat)
    requires i < |Kept(edges, present)|
    ensures var e := Kept(edges, present)[i]; e in edges && e.u in present && e.v in present && e.w > 0.0
  {
    var front := edges[..|edges| - 1];
    assert edges == front + [edges[|edges| - 1]];
    if i < |Kept(front, present)| {
      KeptEdges(front, present, i);
    }
  }

  lemma LoopOneMore(kept: seq<Edge>, e: Edge, u: Node)
    ensures LoopWeight(kept + [e], u) == LoopWeight(kept, u) + (if e.u == e.v == u then e.w else 0.0)
  {
    assert (kept + [e])[..|kept|] == kept;
  }

  lemma BuiltOneMore(adj: Neighbours, loops: map<Node, real>, kept: seq<Edge>, e: Edge)
    requires Built(adj, loops, kept) && e.w > 0.0
    ensures e.u == e.v ==> Built(adj, loops[e.u := (if e.u in loops then loops[e.u] else 0.0) + e.w], kept + [e])
    ensures e.u != e.v ==> Built(AddArc(AddArc(adj, e.u, e.v, e.w), e.v, e.u, e.w), loops, kept + [e])
  {
    HoldsOneMore(adj, kept, e);
    forall u ensures LoopWeight(kept + [e], u) == LoopWeight(kept, u) + (if e.u == e.v == u then e.w else 0.0) {
      LoopOneMore(kept, e, u);
    }
  }

  /** The graph of these nodes and edges: what `from_edges` builds, whatever empty rows it holds. */
  ghost predicate GraphOf(g: Graph, nodes: seq<Node>, edges: seq<Edge>) {
    ValidGraph(g) && (forall x :: x in g.nodes <==> x in nodes) &&
    (forall i, j :: 0 <= i < j < |g.nodes| ==> Before(g.nodes[i], g.nodes[j])) &&
    Built(g.adj, g.loops, Kept(edges, set x | x in nodes)) && ListedAs(g.order, Kept(edges, set x | x in nodes))
  }

  lemma GraphIsInOrder(g: Graph, edges: seq<Edge>, present: set<Node>)
    requires Built(g.adj, g.loops, Kept(edges, present)) && ListedAs(g.order, Kept(edges, present))
    ensures InOrder(g)
  {
    var kept := Kept(edges, present);
    forall i | 0 <= i < |kept| ensures kept[i].w > 0.0 { KeptEdges(edges, present, i); }
    forall n, v ensures v in RowOrder(g, n) <==> v in Row(g, n) {
      OtherEndsLinked(kept, n, v);
      assert Has(g.adj, n, v) <==> v in Row(g, n);
    }
  }

  /** The three dictionaries, entry by entry. */
  ghost predicate Stores(g: Graph, kept: seq<Edge>) {
    (forall u, v :: u in g.adj && v in g.adj[u] <==> Weight(kept, u, v) > 0.0) &&
    (forall u, v :: u in g.adj && v in g.adj[u] ==> g.adj[u][v] == Weight(kept, u, v)) &&
    (forall u :: (if u in g.loops then g.loops[u] else 0.0) == LoopWeight(kept, u)) &&
    forall u :: (if u in g.order then g.order[u] else []) == Firsts(OtherEnds(kept, u))
  }

  lemma BuiltStores(g: Graph, kept: seq<Edge>)
    requires Built(g.adj, g.loops, kept) && ListedAs(g.order, kept)
    ensures Stores(g, kept)
  {
    forall u, v
      ensures u in g.adj && v in g.adj[u] <==> Weight(kept, u, v) > 0.0
      ensures u in g.adj && v in g.adj[u] ==> g.adj[u][v] == Weight(kept, u, v)
    {
      assert Has(g.adj, u, v) <==> Weight(kept, u, v) > 0.0;
      assert Get(g.adj, u, v) == Weight(kept, u, v);
    }
    forall u ensures (if u in g.order then g.order[u] else []) == Firsts(OtherEnds(kept, u)) {
      assert OrderAt(g.order, u) == Firsts(OtherEnds(kept, u));
    }
  }

  /** `_Graph.from_edges`. */
  method FromEdges(nodes: seq<Node>, edges: seq<Edge>) returns (g: Graph)
    ensures GraphOf(g, nodes, edges) && InOrder(g) && ArcsAreLinks(g, LinksOf(edges))
    ensures Stores(g, Kept(edges, set x | x in nodes))
  {
    var present := set x | x in nodes;
    var adj: Neighbours := map[];
    var order: Orders := map[];
    var loops: map<Node, real> := map[];
    for i := 0 to |edges|
      invariant Built(adj, loops, Kept(edges[..i], present)) && ListedAs(order, Kept(edges[..i], present))
    {
      var e := edges[i];
      assert edges[..i + 1][..i] == edges[..i];
      if e.u !in present || e.v !in present || e.w <= 0.0 {
        assert Kept(edges[..i + 1], present) == Kept(edges[..i], present);
        continue;
      }
      BuiltOneMore(adj, loops, Kept(edges[..i], present), e);
      ListedOneMore(order, Kept(edges[..i], present), e);
      if e.u == e.v {
        loops := loops[e.u := (if e.u in loops then loops[e.u] else 0.0) + e.w];
        continue;
      }
      adj, order := AddArc(adj, e.u, e.v, e.w), AddKey(order, e.u, e.v);
      adj, order := AddArc(adj, e.v, e.u, e.w), AddKey(order, e.v, e.u);
    }
    assert edges[..|edges|] == edges;
    var names := SortedSet(present);
    g := Graph(names, adj, order, loops);
    BuiltIsValid(g, edges, present);
    GraphIsInOrder(g, edges, present);
    BuiltStores(g, Kept(edges, present));
  }

  /** `sorted(set(nodes))`. */
  method SortedSet(s: set<Node>) returns (r: seq<Node>)
    ensures Distinct(r) && forall x :: x in r <==> x in s
    ensures forall i, j :: 0 <= i < j < |r| ==> Before(r[i], r[j])
  {
    var listed: seq<Node> := [];
    var rest := s;
    while rest != {}
      invariant rest <= s && Distinct(listed)
      invariant forall x :: x in listed <==> x in s && x !in rest
    {
      var x :| x in rest;
      listed := listed + [x];
      rest := rest - {x};
    }
    SortedNames(listed);
    r := Sorted(Before, listed);
  }

  lemma {:induction false} LoopIsEdge(kept: seq<Edge>, u: Node)
    requires LoopWeight(kept, u) > 0.0
    ensures exists i :: 0 <= i < |kept| && kept[i].u == u
  {
    var front := kept[..|kept| - 1];
    if LoopWeight(front, u) > 0.0 {
      LoopIsEdge(front, u);
      var i :| 0 <= i < |front| && front[i].u == u;
      assert kept[i].u == u;
    } else {
      assert kept[|kept| - 1].u == u;
    }
  }

  lemma ArcIsKept(adj: Neighbours, edges: seq<Edge>, present: set<Node>, u: Node, v: Node)
    requires Holds(adj, Kept(edges, present)) && Has(adj, u, v)
    ensures u in present && v in present && adj[u][v] > 0.0 && (u, v) in LinksOf(edges)
  {
    var kept := Kept(edges, present);
    HoldsLinks(adj, kept, u, v);
    LinkedEitherWay(kept, u, v);
    var i :| 0 <= i < |kept| && kept[i].w > 0.0 &&
      ((kept[i].u == u && kept[i].v == v) || (kept[i].u == v && kept[i].v == u));
    KeptEdges(edges, present, i);
    var j :| 0 <= j < |edges| && edges[j] == kept[i];
    LinkedEitherWay(edges, u, v);
  }

  lemma BuiltIsValid(g: Graph, edges: seq<Edge>, present: set<Node>)
    requires Built(g.adj, g.loops, Kept(edges, present))
    requires Distinct(g.nodes) && forall x :: x in g.nodes <==> x in present
    ensures ValidGraph(g) && ArcsAreLinks(g, LinksOf(edges))
  {
    forall u, v | Has(g.adj, u, v)
      ensures u in present && v in present && g.adj[u][v] > 0.0 && (u, v) in LinksOf(edges)
    {
      ArcIsKept(g.adj, edges, present, u, v);
    }
    forall u | u in g.loops ensures u in g.nodes {
      LoopIsEdge(Kept(edges, present), u);
      var i :| 0 <= i < |Kept(edges, present)| && Kept(edges, present)[i].u == u;
      KeptEdges(edges, present, i);
    }
  }

  // ---- the scores as computed ---------------------------------------------------------

  /** `_Graph.degree`. */
  method Degree(g: Graph, n: Node) returns (d: real)
    ensures d == DegreeOf(g, n)
  {
    var s := SumValues(Row(g, n));
    d := s + 2.0 * Loop(g, n);
  }

  /** `_Graph.total_weight`. */
  method TotalWeight(g: Graph) returns (m: real)
    ensures m == TotalWeightOf(g)
  {
    var inter := 0.0;
    var rest := g.adj;
    ghost var totals := map n | n in g.adj :: Total(g.adj[n]);
    RestrictAll(totals, rest.Keys);
    while rest != map[]
      invariant rest.Keys <= g.adj.Keys && forall n :: n in rest ==> rest[n] == g.adj[n]
      invariant inter + Total(Restrict(totals, rest.Keys)) == Total(totals)
      decreases |rest|
    {
      var n :| n in rest;
      var s := SumValues(rest[n]);
      RestrictTotal(totals, rest.Keys, n);
      inter := inter + s;
      assert (rest - {n}).Keys == rest.Keys - {n};
      rest := rest - {n};
    }
    var loops := SumValues(g.loops);
    m := inter / 2.0 + loops;
  }

  /** The inner loop both scores run for one node. */
  method AddHalves(g: Graph, comm: Assignment, n: Node, start: real) returns (s: real)
    requires Assigned(g, comm) && n in comm
    ensures s == start + InsideOf(g, comm, n)
  {
    RowAssigned(g, comm, n);
    s := start + Loop(g, n);
    var row := Row(g, n);
    var rest := row;
    ghost var halves := HalvesInside(g, comm, n);
    RestrictAll(halves, rest.Keys);
    while rest != map[]
      invariant rest.Keys <= row.Keys && forall j :: j in rest ==> rest[j] == row[j]
      invariant s + Total(Restrict(halves, rest.Keys)) == start + Loop(g, n) + Total(halves)
      decreases |rest|
    {
      var j :| j in rest;
      RestrictTotal(halves, rest.Keys, j);
      if comm[j] == comm[n] {
        s := s + rest[j] / 2.0;
      }
      assert (rest - {j}).Keys == rest.Keys - {j};
      rest := rest - {j};
    }
  }

  /** `coverage`. */
  method CoverageScore(g: Graph, comm: Assignment) returns (r: real)
    requires Assigned(g, comm)
    ensures r == CoverageOf(g, comm)
  {
    var m := TotalWeight(g);
    if m <= 0.0 { return 0.0; }
    var inside := 0.0;
    for i := 0 to |g.nodes|
      invariant inside == SumOver(g.nodes[..i], Insides(g, comm))
    {
      assert g.nodes[..i + 1][..i] == g.nodes[..i];
      assert g.nodes[i] in g.nodes;
      inside := AddHalves(g, comm, g.nodes[i], inside);
    }
    assert g.nodes[..|g.nodes|] == g.nodes;
    r := inside / m;
  }

  /** m holds the class sums of the first i nodes. */
  ghost predicate PartSums(ns: seq<Node>, i: nat, comm: Assignment, k: map<Node, real>, m: map<int, real>) {
    i <= |ns| && Defined(ns[..i], comm, k) && m == ClassSums(ns[..i], comm, k)
  }

  lemma PartSumsStep(ns: seq<Node>, i: nat, comm: Assignment, k: map<Node, real>, m: map<int, real>, r: map<int, real>)
    requires i < |ns| && PartSums(ns, i, comm, k, m) && ns[i] in comm && ns[i] in k
    requires r == m[comm[ns[i]] := At(m, comm[ns[i]]) + k[ns[i]]]
    ensures PartSums(ns, i + 1, comm, k, r)
  {
    var next := ns[..i + 1];
    assert next == ns[..i] + [ns[i]] && next[..i] == ns[..i];
  }

  /** The first loop of `modularity`: inside weight and total degree of every community. */
  method ClassTables(g: Graph, comm: Assignment, ghost ins: map<Node, real>, ghost deg: map<Node, real>)
    returns (internal: map<int, real>, tot: map<int, real>)
    requires Assigned(g, comm) && forall n :: n in g.nodes ==> Entry(g, comm, n, ins, deg)
    ensures Defined(g.nodes, comm, ins) && internal == ClassSums(g.nodes, comm, ins)
    ensures Defined(g.nodes, comm, deg) && tot == ClassSums(g.nodes, comm, deg)
  {
    internal, tot := map[], map[];
    for i := 0 to |g.nodes|
      invariant PartSums(g.nodes, i, comm, ins, internal) && PartSums(g.nodes, i, comm, deg, tot)
    {
      assert g.nodes[i] in g.nodes;
      internal, tot := AddNode(g, comm, i, internal, tot, ins, deg);
    }
    assert g.nodes[..|g.nodes|] == g.nodes;
  }

  ghost predicate Entry(g: Graph, comm: Assignment, n: Node, ins: map<Node, real>, deg: map<Node, real>)
    requires Assigned(g, comm)
  {
    n in comm && n in ins && n in deg && ins[n] == InsideOf(g, comm, n) && deg[n] == DegreeOf(g, n)
  }

  method AddNode(g: Graph, comm: Assignment, i: nat, internal0: map<int, real>, tot0: map<int, real>,
                 ghost ins: map<Node, real>, ghost deg: map<Node, real>)
    returns (internal: map<int, real>, tot: map<int, real>)
    requires i < |g.nodes| && Assigned(g, comm) && Entry(g, comm, g.nodes[i], ins, deg)
    requires PartSums(g.nodes, i, comm, ins, internal0) && PartSums(g.nodes, i, comm, deg, tot0)
    ensures PartSums(g.nodes, i + 1, comm, ins, internal) && PartSums(g.nodes, i + 1, comm, deg, tot)
  {
    var n := g.nodes[i];
    var d := Degree(g, n);
    assert d == deg[n];
    var grown := AddHalves(g, comm, n, At(internal0, comm[n]));
    assert grown == At(internal0, comm[n]) + ins[n];
    tot := tot0[comm[n] := At(tot0, comm[n]) + d];
    internal := internal0[comm[n] := grown];
    PartSumsStep(g.nodes, i, comm, ins, internal0, internal);
    PartSumsStep(g.nodes, i, comm, deg, tot0, tot);
  }

  /** The second loop of `modularity`, over `for c in tot`. */
  method SumShares(internal: map<int, real>, tot: map<int, real>, m: real, resolution: real,
                   ghost shares: map<int, real>)
    returns (q: real)
    requires m > 0.0 && shares.Keys == tot.Keys == internal.Keys
    requires forall c :: c in tot ==> shares[c] == Share(internal[c], tot[c], m, resolution)
    ensures q == Total(shares)
  {
    q := 0.0;
    var rest := tot.Keys;
    RestrictAll(shares, rest);
    while rest != {}
      invariant rest <= tot.Keys
      invariant q + Total(Restrict(shares, rest)) == Total(shares)
    {
      ghost var some := SomeMember(rest);
      var c :| c in rest;
      RestrictTotal(shares, rest, c);
      q := q + (internal[c] / m - resolution * Square(tot[c] / (2.0 * m)));
      rest := rest - {c};
    }
  }

  lemma TablesGiveShares(g: Graph, comm: Assignment, m: real, resolution: real, c: int)
    requires Assigned(g, comm) && m > 0.0
    ensures var internal, tot, shares :=
              ClassSums(g.nodes, comm, Insides(g, comm)), ClassSums(g.nodes, comm, Degrees(g)),
              Shares(g, comm, m, resolution);
            (c in shares <==> c in tot) && (c in tot <==> c in internal) &&
            (c in tot ==> shares[c] == Share(internal[c], tot[c], m, resolution))
  {
    ClassSumsAre(g.nodes, comm, Insides(g, comm), c);
    ClassSumsAre(g.nodes, comm, Degrees(g), c);
  }

  /** `modularity`. */
  method ModularityScore(g: Graph, comm: Assignment, resolution: real) returns (q: real)
    requires Assigned(g, comm)
    ensures q == ModularityOf(g, comm, resolution)
  {
    var m := TotalWeight(g);
    if m <= 0.0 { return 0.0; }
    var internal, tot := ClassTables(g, comm, Insides(g, comm), Degrees(g));
    ghost var shares := Shares(g, comm, m, resolution);
    forall c ensures (c in shares <==> c in tot) && (c in tot <==> c in internal) &&
                     (c in tot ==> shares[c] == Share(internal[c], tot[c], m, resolution))
    {
      TablesGiveShares(g, comm, m, resolution, c);
    }
    q := SumShares(internal, tot, m, resolution, shares);
  }
}
