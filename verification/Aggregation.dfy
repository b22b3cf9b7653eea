/** Collapsing communities into super-nodes, and the whole detector: no weight is lost, every
    partition of the super-nodes scores what it scores on the graph itself, and so the result
    never scores below one node per community. */
module Aggregation {
  import opened Ordering
  import opened Refinement
  import opened Adjacency
  import opened Sums
  import opened Modularity
  import opened Mnemosyne
  import Community
  import M = Matrices

  // ---- a graph as a matrix ---------------------------------------------------------------------

  ghost function Arcs(g: Graph): (Node, Node) -> real { (u: Node, v: Node) => Get(g.adj, u, v) }

  ghost function Loops(g: Graph): Node -> real { (n: Node) => Loop(g, n) }

  ghost function DegreesOf(g: Graph): Node -> real { M.DegreeIn(g.nodes, Arcs(g), Loops(g)) }

  /** The community of each node, as a function of all names. */
  ghost function Labelling(comm: Assignment): Node -> int { (n: Node) => if n in comm then comm[n] else 0 }

  lemma {:induction false} SumOverIsSigma(ns: seq<Node>, k: map<Node, real>, f: Node -> real)
    requires forall n :: n in ns ==> n in k && f(n) == k[n]
    ensures SumOver(ns, k) == Sigma(ns, f)
  {
    if ns != [] {
      assert ns == ns[..|ns| - 1] + [ns[|ns| - 1]];
      SumOverIsSigma(ns[..|ns| - 1], k, f);
    }
  }

  /** A dictionary over some of the nodes, summed over all of them. */
  lemma DictIsSigma(g: Graph, m: map<Node, real>, f: Node -> real)
    requires Distinct(g.nodes) && (forall j :: j in m ==> j in g.nodes)
    requires forall n :: n in g.nodes ==> f(n) == if n in m then m[n] else 0.0
    ensures Total(m) == Sigma(g.nodes, f)
  {
    var k := map n | n in g.nodes :: f(n);
    SumOverIsSigma(g.nodes, k, f);
    SumOverIsTotal(g.nodes, k);
    RestrictAll(k, set n | n in g.nodes);
    TotalIgnoresZeros(k, m);
  }

  lemma RowInside(g: Graph, n: Node)
    requires ValidGraph(g)
    ensures forall j :: j in Row(g, n) ==> j in g.nodes
  {
    forall j | j in Row(g, n) ensures j in g.nodes { assert Has(g.adj, n, j); }
  }

  lemma DegreeIsSigma(g: Graph, n: Node)
    requires ValidGraph(g)
    ensures DegreeOf(g, n) == DegreesOf(g)(n)
  {
    RowInside(g, n);
    DictIsSigma(g, Row(g, n), M.RowOf(Arcs(g), n));
  }

  lemma WeightToIsSigma(g: Graph, comm: Assignment, n: Node, c: int)
    requires Assigned(g, comm)
    ensures WeightTo(g, comm, n, c) == Sigma(g.nodes, M.Into(Labelling(comm), Arcs(g), n, c))
  {
    RowInside(g, n);
    RowAssigned(g, comm, n);
    DictIsSigma(g, RowTo(g, comm, n, c), M.Into(Labelling(comm), Arcs(g), n, c));
  }

  /** The weight inside communities: all loops, and half of every arc within a community. */
  lemma InsideIsSigma(g: Graph, comm: Assignment)
    requires Assigned(g, comm)
    ensures SumOver(g.nodes, Insides(g, comm)) == M.Within(g.nodes, Labelling(comm), Arcs(g), Loops(g))
  {
    var row := M.SameRow(g.nodes, Labelling(comm), Arcs(g));
    var inside := (n: Node) => Loop(g, n) + row(n) / 2.0;
    forall n | n in g.nodes ensures inside(n) == Insides(g, comm)[n] {
      InsideIsHalf(g, comm, n);
      WeightToIsSigma(g, comm, n, comm[n]);
    }
    SumOverIsSigma(g.nodes, Insides(g, comm), inside);
    var half := (n: Node) => row(n) / 2.0;
    SigmaHalves(g.nodes, row, half);
    SigmaAdds(g.nodes, Loops(g), half, inside);
  }

  lemma {:induction false} ClassIsSigma(g: Graph, ns: seq<Node>, comm: Assignment, c: int, k: map<Node, real>)
    requires Assigned(g, comm) && k == Degrees(g) && Defined(ns, comm, k)
    ensures ClassSum(ns, comm, c, k) == Sigma(ns, M.InClass(Labelling(comm), DegreesOf(g), c))
  {
    if ns != [] {
      assert ns == ns[..|ns| - 1] + [ns[|ns| - 1]];
      ClassIsSigma(g, ns[..|ns| - 1], comm, c, k);
      DegreeIsSigma(g, ns[|ns| - 1]);
    }
  }

  ghost function RowTotals(g: Graph): map<Node, real> { map n | n in g.adj :: Total(g.adj[n]) }

  /** Both ends of an arc are nodes. */
  lemma ArcEnds(g: Graph, u: Node, v: Node)
    requires Undirected(g) && Has(g.adj, u, v)
    ensures u in g.nodes && v in g.nodes
  {
    assert Get(g.adj, v, u) == Get(g.adj, u, v);
    assert Has(g.adj, v, u);
  }

  ghost function Strengths(g: Graph): Node -> real { (n: Node) => Sigma(g.nodes, M.RowOf(Arcs(g), n)) }

  lemma StrengthIsRow(g: Graph, n: Node)
    requires Undirected(g)
    ensures Strengths(g)(n) == if n in RowTotals(g) then RowTotals(g)[n] else 0.0
    ensures n !in g.nodes ==> Strengths(g)(n) == 0.0
  {
    RowInside(g, n);
    DictIsSigma(g, Row(g, n), M.RowOf(Arcs(g), n));
    forall v ensures n !in g.nodes ==> !Has(g.adj, n, v) { if Has(g.adj, n, v) { ArcEnds(g, n, v); } }
    if n !in g.nodes { SigmaZero(g.nodes, M.RowOf(Arcs(g), n)); }
  }

  lemma ArcsTotal(g: Graph)
    requires Undirected(g)
    ensures Total(RowTotals(g)) == Sigma(g.nodes, Strengths(g))
  {
    var rows := Restrict(RowTotals(g), set n | n in g.nodes);
    forall n
      ensures (n !in g.nodes ==> Strengths(g)(n) == 0.0) &&
        Strengths(g)(n) == if n in RowTotals(g) then RowTotals(g)[n] else 0.0
    {
      StrengthIsRow(g, n);
    }
    TotalIgnoresZeros(RowTotals(g), rows);
    DictIsSigma(g, rows, Strengths(g));
  }

  /** The total weight is half the sum of the degrees. */
  lemma TotalIsHalfDegrees(g: Graph)
    requires Undirected(g)
    ensures TotalWeightOf(g) == Sigma(g.nodes, DegreesOf(g)) / 2.0
  {
    var twice := (n: Node) => 2.0 * Loop(g, n);
    ArcsTotal(g);
    DictIsSigma(g, g.loops, Loops(g));
    SigmaHalves(g.nodes, twice, Loops(g));
    SigmaAdds(g.nodes, Strengths(g), twice, DegreesOf(g));
  }

  // ---- collapsing ---------------------------------------------------------------------------------

  /** Arcs between super-nodes carry the weight between their members; there are no self arcs. */
  ghost function SuperArcs(g: Graph, cls: Node -> Node): (Node, Node) -> real {
    M.OffDiagonal(M.BetweenClasses(g.nodes, cls, Arcs(g)))
  }

  /** Loops on super-nodes carry the loops of their members and the weight inside. */
  ghost function SuperLoops(g: Graph, cls: Node -> Node): Node -> real {
    M.LoopsOfClasses(g.nodes, cls, Arcs(g), Loops(g))
  }

  ghost predicate Collapsed(g: Graph, cls: Node -> Node, agg: Graph) {
    Undirected(agg) && M.Classes(g.nodes, agg.nodes, cls) &&
    (forall l, k :: l in agg.nodes && k in agg.nodes ==> Arcs(agg)(l, k) == SuperArcs(g, cls)(l, k)) &&
    forall l :: l in agg.nodes ==> Loops(agg)(l) == SuperLoops(g, cls)(l)
  }

  /** The partition of the graph that a partition of the super-nodes stands for. */
  ghost predicate StandsFor(g: Graph, cls: Node -> Node, agg: Graph, b: Assignment, a: Assignment) {
    Assigned(agg, b) && Assigned(g, a) && forall n :: n in g.nodes ==> cls(n) in b && a[n] == b[cls(n)]
  }

  /** A super-node's degree is the sum of its members' degrees. */
  lemma DegreesCollapse(g: Graph, cls: Node -> Node, agg: Graph, l: Node)
    requires Collapsed(g, cls, agg) && l in agg.nodes
    ensures DegreesOf(agg)(l) == M.ClassOf(g.nodes, cls, DegreesOf(g))(l)
  {
    M.DegreeSame(agg.nodes, Arcs(agg), SuperArcs(g, cls), Loops(agg), SuperLoops(g, cls), l);
    M.DegreesCollapse(g.nodes, agg.nodes, cls, Arcs(g), Loops(g), l);
  }

  /** No weight is lost or made. */
  lemma TotalCollapses(g: Graph, cls: Node -> Node, agg: Graph)
    requires Undirected(g) && Collapsed(g, cls, agg)
    ensures TotalWeightOf(agg) == TotalWeightOf(g)
  {
    forall l | l in agg.nodes
      ensures DegreesOf(agg)(l) == M.ClassOf(g.nodes, cls, DegreesOf(g))(l)
    {
      DegreesCollapse(g, cls, agg, l);
    }
    SigmaSame(agg.nodes, DegreesOf(agg), M.ClassOf(g.nodes, cls, DegreesOf(g)));
    M.ByClass(g.nodes, agg.nodes, cls, DegreesOf(g));
    TotalIsHalfDegrees(g);
    TotalIsHalfDegrees(agg);
  }

  lemma InsideOfSupers(g: Graph, cls: Node -> Node, agg: Graph, b: Assignment)
    requires Collapsed(g, cls, agg) && Assigned(agg, b)
    ensures SumOver(agg.nodes, Insides(agg, b)) ==
      M.Within(agg.nodes, Labelling(b), SuperArcs(g, cls), SuperLoops(g, cls))
  {
    InsideIsSigma(agg, b);
    M.WithinSame(agg.nodes, Labelling(b), Labelling(b), Arcs(agg), SuperArcs(g, cls), Loops(agg), SuperLoops(g, cls));
  }

  lemma InsideOfMembers(g: Graph, cls: Node -> Node, b: Assignment, a: Assignment)
    requires Assigned(g, a) && forall n :: n in g.nodes ==> cls(n) in b && a[n] == b[cls(n)]
    ensures SumOver(g.nodes, Insides(g, a)) == M.Within(g.nodes, M.Coarser(cls, Labelling(b)), Arcs(g), Loops(g))
  {
    InsideIsSigma(g, a);
    M.WithinSame(g.nodes, Labelling(a), M.Coarser(cls, Labelling(b)), Arcs(g), Arcs(g), Loops(g), Loops(g));
  }

  /** The weight inside communities is the same. */
  lemma InsideCollapses(g: Graph, cls: Node -> Node, agg: Graph, b: Assignment, a: Assignment)
    requires ValidGraph(g) && Collapsed(g, cls, agg) && StandsFor(g, cls, agg, b, a)
    ensures SumOver(agg.nodes, Insides(agg, b)) == SumOver(g.nodes, Insides(g, a))
  {
    InsideOfSupers(g, cls, agg, b);
    InsideOfMembers(g, cls, b, a);
    M.WithinCollapses(g.nodes, agg.nodes, cls, Arcs(g), Loops(g), Labelling(b));
  }

  lemma ClassOfSupers(g: Graph, cls: Node -> Node, agg: Graph, b: Assignment, x: int)
    requires Collapsed(g, cls, agg) && Assigned(agg, b)
    ensures ClassSum(agg.nodes, b, x, Degrees(agg)) ==
      Sigma(agg.nodes, M.InClass(Labelling(b), M.ClassOf(g.nodes, cls, DegreesOf(g)), x))
  {
    ClassIsSigma(agg, agg.nodes, b, x, Degrees(agg));
    forall l | l in agg.nodes
      ensures DegreesOf(agg)(l) == M.ClassOf(g.nodes, cls, DegreesOf(g))(l)
    {
      DegreesCollapse(g, cls, agg, l);
    }
    SigmaSame(agg.nodes, M.InClass(Labelling(b), DegreesOf(agg), x),
              M.InClass(Labelling(b), M.ClassOf(g.nodes, cls, DegreesOf(g)), x));
  }

  lemma ClassOfMembers(g: Graph, cls: Node -> Node, b: Assignment, a: Assignment, x: int)
    requires Assigned(g, a) && forall n :: n in g.nodes ==> cls(n) in b && a[n] == b[cls(n)]
    ensures ClassSum(g.nodes, a, x, Degrees(g)) ==
      Sigma(g.nodes, M.InClass(M.Coarser(cls, Labelling(b)), DegreesOf(g), x))
  {
    ClassIsSigma(g, g.nodes, a, x, Degrees(g));
    M.ClassSame(g.nodes, M.Coarser(cls, Labelling(b)), Labelling(a), DegreesOf(g), x);
  }

  /** Every community has the same total degree. */
  lemma ClassesCollapse(g: Graph, cls: Node -> Node, agg: Graph, b: Assignment, a: Assignment, x: int)
    requires ValidGraph(g) && Collapsed(g, cls, agg) && StandsFor(g, cls, agg, b, a)
    ensures ClassSum(agg.nodes, b, x, Degrees(agg)) == ClassSum(g.nodes, a, x, Degrees(g))
  {
    ClassOfSupers(g, cls, agg, b, x);
    ClassOfMembers(g, cls, b, a, x);
    M.ClassOfClasses(g.nodes, agg.nodes, cls, Labelling(b), DegreesOf(g), x);
  }

  lemma LabelsCollapse(g: Graph, cls: Node -> Node, agg: Graph, b: Assignment, a: Assignment, x: int)
    requires StandsFor(g, cls, agg, b, a) && M.Classes(g.nodes, agg.nodes, cls)
    requires Onto(g, cls, agg)
    ensures x in Labels(agg.nodes, b) <==> x in Labels(g.nodes, a)
  {
    if x in Labels(agg.nodes, b) {
      var l :| l in agg.nodes && b[l] == x;
      var n :| n in g.nodes && cls(n) == l;
      assert a[n] == x;
    }
    if x in Labels(g.nodes, a) {
      var n :| n in g.nodes && a[n] == x;
      assert b[cls(n)] == x;
    }
  }

  ghost predicate Onto(g: Graph, cls: Node -> Node, agg: Graph) {
    forall l :: l in agg.nodes ==> exists n :: n in g.nodes && cls(n) == l
  }

  ghost predicate SameClass(ns: seq<Node>, a: Assignment, k: map<Node, real>, ms: seq<Node>, b: Assignment,
                            j: map<Node, real>, c: int)
    requires Defined(ns, a, k) && Defined(ms, b, j)
  {
    (c in ClassSums(ns, a, k) <==> c in ClassSums(ms, b, j)) && At(ClassSums(ns, a, k), c) == At(ClassSums(ms, b, j), c)
  }

  lemma SamePairs(ns: seq<Node>, a: Assignment, k: map<Node, real>, ms: seq<Node>, b: Assignment, j: map<Node, real>)
    requires Defined(ns, a, k) && Defined(ms, b, j) && forall c :: SameClass(ns, a, k, ms, b, j, c)
    ensures PairSum(ns, a, k) == PairSum(ms, b, j)
  {
    var x, y := ClassSums(ns, a, k), ClassSums(ms, b, j);
    forall c ensures (c in x <==> c in y) && (c in x ==> x[c] == y[c]) { assert SameClass(ns, a, k, ms, b, j, c); }
    assert x == y;
    SquaresArePairs(ns, a, k);
    SquaresArePairs(ms, b, j);
  }

  lemma ClassCollapses(g: Graph, cls: Node -> Node, agg: Graph, b: Assignment, a: Assignment, c: int)
    requires ValidGraph(g) && Collapsed(g, cls, agg) && Onto(g, cls, agg) && StandsFor(g, cls, agg, b, a)
    ensures SameClass(agg.nodes, b, Degrees(agg), g.nodes, a, Degrees(g), c)
  {
    ClassSumsAre(agg.nodes, b, Degrees(agg), c);
    ClassSumsAre(g.nodes, a, Degrees(g), c);
    ClassesCollapse(g, cls, agg, b, a, c);
    LabelsCollapse(g, cls, agg, b, a, c);
  }

  lemma PairsCollapse(g: Graph, cls: Node -> Node, agg: Graph, b: Assignment, a: Assignment)
    requires ValidGraph(g) && Collapsed(g, cls, agg) && Onto(g, cls, agg) && StandsFor(g, cls, agg, b, a)
    ensures PairSum(agg.nodes, b, Degrees(agg)) == PairSum(g.nodes, a, Degrees(g))
  {
    forall c
      ensures SameClass(agg.nodes, b, Degrees(agg), g.nodes, a, Degrees(g), c)
    {
      ClassCollapses(g, cls, agg, b, a, c);
    }
    SamePairs(agg.nodes, b, Degrees(agg), g.nodes, a, Degrees(g));
  }

  ghost predicate SameScore(g: Graph, a: Assignment, h: Graph, b: Assignment, resolution: real) {
    Assigned(g, a) && Assigned(h, b) && ModularityOf(g, a, resolution) == ModularityOf(h, b, resolution)
  }

  lemma CombinesUnique(h1: real, h2: real, f: real, s: real, p: real, q: real)
    requires Combines(h1, f, s, p, q) && Combines(h2, f, s, p, q)
    ensures h1 == h2
  {
  }

  /** Any partition of the super-nodes has the modularity and the coverage, on the collapsed
      graph, of the partition it stands for on the graph itself. */
  lemma CollapseKeepsScores(g: Graph, cls: Node -> Node, agg: Graph, b: Assignment, a: Assignment, resolution: real)
    requires Undirected(g) && Collapsed(g, cls, agg) && Onto(g, cls, agg) && StandsFor(g, cls, agg, b, a)
    ensures SameScore(agg, b, g, a, resolution)
    ensures CoverageOf(agg, b) == CoverageOf(g, a)
  {
    TotalCollapses(g, cls, agg);
    InsideCollapses(g, cls, agg, b, a);
    PairsCollapse(g, cls, agg, b, a);
    var m := TotalWeightOf(g);
    if m > 0.0 {
      ModularityClosedForm(agg, b, resolution);
      ModularityClosedForm(g, a, resolution);
      CombinesUnique(ModularityOf(agg, b, resolution), ModularityOf(g, a, resolution), SumOver(g.nodes, Insides(g, a)),
                     PairSum(g.nodes, a, Degrees(g)), 1.0 / m, Penalty(m, resolution));
    }
  }

  // ---- `_aggregate` ---------------------------------------------------------------------------------

  /** The super-node of each node. */
  ghost function SuperOf(comm: Assignment, names: map<int, Node>): Node -> Node {
    (n: Node) => if n in comm && comm[n] in names then names[comm[n]] else ""
  }

  /** `comm` assigns exactly the nodes, and `names` names exactly its communities, each differently. */
  ghost predicate Named(g: Graph, comm: Assignment, names: map<int, Node>) {
    Assigned(g, comm) && (forall n :: n in comm <==> n in g.nodes) &&
    (forall n :: n in g.nodes ==> comm[n] in names) &&
    (forall c :: c in names ==> exists n :: n in g.nodes && comm[n] == c) &&
    forall c, d :: c in names && d in names && names[c] == names[d] ==> c == d
  }

  ghost function RowIntoSuper(g: Graph, cls: Node -> Node, n: Node, k: Node): map<Node, real> {
    map j | j in Row(g, n) && cls(j) == k :: Row(g, n)[j]
  }

  /** What node n sends to super-node k along some of its arcs. */
  ghost function Sent(g: Graph, cls: Node -> Node, n: Node, k: Node, keys: set<Node>): real {
    Total(Restrict(RowIntoSuper(g, cls, n, k), keys))
  }

  lemma SentOneMore(g: Graph, cls: Node -> Node, n: Node, k: Node, keys: set<Node>, j: Node)
    requires j in Row(g, n) && j !in keys
    ensures Sent(g, cls, n, k, keys + {j}) == Sent(g, cls, n, k, keys) + (if cls(j) == k then Row(g, n)[j] else 0.0)
  {
    RestrictTotal(RowIntoSuper(g, cls, n, k), keys + {j}, j);
    assert keys + {j} - {j} == keys;
  }

  lemma SentNothing(g: Graph, cls: Node -> Node, n: Node, k: Node)
    ensures Sent(g, cls, n, k, {}) == 0.0
  {
    assert Restrict(RowIntoSuper(g, cls, n, k), {}) == map[];
  }

  lemma SentAll(g: Graph, cls: Node -> Node, n: Node, k: Node)
    requires ValidGraph(g)
    ensures Sent(g, cls, n, k, Row(g, n).Keys) == Sigma(g.nodes, M.Into(cls, Arcs(g), n, k))
  {
    RowInside(g, n);
    RestrictAll(RowIntoSuper(g, cls, n, k), Row(g, n).Keys);
    DictIsSigma(g, RowIntoSuper(g, cls, n, k), M.Into(cls, Arcs(g), n, k));
  }

  /** What the first i nodes send from l to k, and the next one along some of its arcs. */
  ghost function SentSoFar(g: Graph, cls: Node -> Node, i: nat, keys: set<Node>, l: Node, k: Node): real
    requires i <= |g.nodes|
  {
    Sigma(g.nodes[..i], M.FromInto(g.nodes, cls, Arcs(g), l, k)) +
    (if i < |g.nodes| && cls(g.nodes[i]) == l then Sent(g, cls, g.nodes[i], k, keys) else 0.0)
  }

  lemma SentNext(g: Graph, cls: Node -> Node, i: nat, l: Node, k: Node)
    requires ValidGraph(g) && i < |g.nodes|
    ensures SentSoFar(g, cls, i + 1, {}, l, k) == SentSoFar(g, cls, i, Row(g, g.nodes[i]).Keys, l, k)
  {
    SentAll(g, cls, g.nodes[i], k);
    assert g.nodes[..i + 1][..i] == g.nodes[..i];
    if i + 1 < |g.nodes| { SentNothing(g, cls, g.nodes[i + 1], k); }
  }

  function LoopAt(loops: map<Node, real>, l: Node): real { if l in loops then loops[l] else 0.0 }

  /** The collapsed arcs while they are being added. */
  ghost predicate FoldingArcs(g: Graph, cls: Node -> Node, i: nat, keys: set<Node>, adj: Neighbours)
    requires i <= |g.nodes|
  {
    forall l, k :: Get(adj, l, k) == if l == k then 0.0 else SentSoFar(g, cls, i, keys, l, k)
  }

  /** And the loops. */
  ghost predicate FoldingLoops(g: Graph, cls: Node -> Node, i: nat, keys: set<Node>, loops: map<Node, real>)
    requires i <= |g.nodes|
  {
    forall l :: LoopAt(loops, l) == Sigma(g.nodes, M.InClass(cls, Loops(g), l)) + SentSoFar(g, cls, i, keys, l, l) / 2.0
  }

  ghost predicate Folding(g: Graph, cls: Node -> Node, i: nat, keys: set<Node>, adj: Neighbours, loops: map<Node, real>)
  {
    i <= |g.nodes| && FoldingArcs(g, cls, i, keys, adj) && FoldingLoops(g, cls, i, keys, loops)
  }

  /** And what is there is fit for a graph over the super-nodes. */
  ghost predicate Fit(g: Graph, cls: Node -> Node, adj: Neighbours, loops: map<Node, real>) {
    (forall l, k :: Has(adj, l, k) ==> adj[l][k] > 0.0 && l != k && IsSuper(g, cls, k)) &&
    forall l :: l in loops ==> loops[l] >= 0.0 && IsSuper(g, cls, l)
  }

  ghost predicate IsSuper(g: Graph, cls: Node -> Node, l: Node) {
    exists n :: n in g.nodes && cls(n) == l
  }

  lemma SentOneArc(g: Graph, cls: Node -> Node, i: nat, keys: set<Node>, j: Node, l: Node, k: Node)
    requires i < |g.nodes| && j in Row(g, g.nodes[i]) && j !in keys
    ensures SentSoFar(g, cls, i, keys + {j}, l, k) == SentSoFar(g, cls, i, keys, l, k) +
      (if cls(g.nodes[i]) == l && cls(j) == k then Row(g, g.nodes[i])[j] else 0.0)
  {
    SentOneMore(g, cls, g.nodes[i], k, keys, j);
  }

  lemma FoldArc(g: Graph, cls: Node -> Node, i: nat, keys: set<Node>, adj: Neighbours, j: Node)
    requires i < |g.nodes| && FoldingArcs(g, cls, i, keys, adj) && j in Row(g, g.nodes[i]) && j !in keys
    ensures var from, to := cls(g.nodes[i]), cls(j);
      FoldingArcs(g, cls, i, keys + {j}, NextArcs(adj, from, to, Row(g, g.nodes[i])[j]))
  {
    var from, to := cls(g.nodes[i]), cls(j);
    var after := NextArcs(adj, from, to, Row(g, g.nodes[i])[j]);
    forall l, k ensures Get(after, l, k) == if l == k then 0.0 else SentSoFar(g, cls, i, keys + {j}, l, k) {
      SentOneArc(g, cls, i, keys, j, l, k);
    }
  }

  lemma FoldLoop(g: Graph, cls: Node -> Node, i: nat, keys: set<Node>, loops: map<Node, real>, j: Node)
    requires i < |g.nodes| && FoldingLoops(g, cls, i, keys, loops) && j in Row(g, g.nodes[i]) && j !in keys
    ensures var from, to := cls(g.nodes[i]), cls(j);
      FoldingLoops(g, cls, i, keys + {j}, NextLoops(loops, from, to, Row(g, g.nodes[i])[j]))
  {
    var from, to := cls(g.nodes[i]), cls(j);
    var after := NextLoops(loops, from, to, Row(g, g.nodes[i])[j]);
    forall l
      ensures LoopAt(after, l) ==
        Sigma(g.nodes, M.InClass(cls, Loops(g), l)) + SentSoFar(g, cls, i, keys + {j}, l, l) / 2.0
    {
      SentOneArc(g, cls, i, keys, j, l, l);
      assert LoopAt(loops, l) == Sigma(g.nodes, M.InClass(cls, Loops(g), l)) + SentSoFar(g, cls, i, keys, l, l) / 2.0;
    }
  }

  lemma FoldRow(g: Graph, cls: Node -> Node, i: nat, adj: Neighbours, loops: map<Node, real>)
    requires ValidGraph(g) && i < |g.nodes| && Folding(g, cls, i, Row(g, g.nodes[i]).Keys, adj, loops)
    ensures Folding(g, cls, i + 1, {}, adj, loops)
  {
    forall l, k ensures SentSoFar(g, cls, i + 1, {}, l, k) == SentSoFar(g, cls, i, Row(g, g.nodes[i]).Keys, l, k) {
      SentNext(g, cls, i, l, k);
    }
  }

  /** One arc: within a super-node half of it joins the loop, between two it joins the arc. */
  function NextArcs(adj: Neighbours, from: Node, to: Node, w: real): Neighbours {
    if from == to then adj else AddArc(adj, from, to, w)
  }

  function NextLoops(loops: map<Node, real>, from: Node, to: Node, w: real): map<Node, real> {
    if from == to then loops[from := LoopAt(loops, from) + w / 2.0] else loops
  }

  lemma FitArc(g: Graph, cls: Node -> Node, adj: Neighbours, loops: map<Node, real>, from: Node, to: Node, w: real)
    requires Fit(g, cls, adj, loops) && IsSuper(g, cls, from) && IsSuper(g, cls, to) && w > 0.0
    ensures Fit(g, cls, NextArcs(adj, from, to, w), NextLoops(loops, from, to, w))
  {
    if from != to {
      var after := AddArc(adj, from, to, w);
      forall l, k | Has(after, l, k) ensures after[l][k] > 0.0 && l != k && IsSuper(g, cls, k) {
        assert Get(after, l, k) == Get(adj, l, k) + (if l == from && k == to then w else 0.0);
      }
    }
  }

  lemma FoldBoth(g: Graph, cls: Node -> Node, i: nat, keys: set<Node>, adj: Neighbours, loops: map<Node, real>, j: Node)
    requires i < |g.nodes| && Folding(g, cls, i, keys, adj, loops) && j in Row(g, g.nodes[i]) && j !in keys
    ensures var from, to, w := cls(g.nodes[i]), cls(j), Row(g, g.nodes[i])[j];
      Folding(g, cls, i, keys + {j}, NextArcs(adj, from, to, w), NextLoops(loops, from, to, w))
  {
    FoldArc(g, cls, i, keys, adj, j);
    FoldLoop(g, cls, i, keys, loops, j);
  }

  lemma ArcKeeps(g: Graph, cls: Node -> Node, i: nat, keys: set<Node>, adj: Neighbours, loops: map<Node, real>, j: Node)
    requires i < |g.nodes| && Folding(g, cls, i, keys, adj, loops) && Fit(g, cls, adj, loops)
    requires j in Row(g, g.nodes[i]) && j !in keys && j in g.nodes && Row(g, g.nodes[i])[j] > 0.0
    ensures var from, to, w := cls(g.nodes[i]), cls(j), Row(g, g.nodes[i])[j];
      Folding(g, cls, i, keys + {j}, NextArcs(adj, from, to, w), NextLoops(loops, from, to, w)) &&
      Fit(g, cls, NextArcs(adj, from, to, w), NextLoops(loops, from, to, w))
  {
    FoldBoth(g, cls, i, keys, adj, loops, j);
    assert g.nodes[i] in g.nodes;
    assert IsSuper(g, cls, cls(g.nodes[i])) && IsSuper(g, cls, cls(j));
    FitArc(g, cls, adj, loops, cls(g.nodes[i]), cls(j), Row(g, g.nodes[i])[j]);
  }

  // ---- the order of the collapsed rows ---------------------------------------------------------------

  /** Where these neighbours lead outside super-node l. */
  ghost function Crossing(js: seq<Node>, cls: Node -> Node, l: Node): seq<Node> {
    if js == [] then []
    else
      var j := js[|js| - 1];
      Crossing(js[..|js| - 1], cls, l) + (if cls(j) != l then [cls(j)] else [])
  }

  /** Where the first i nodes lead from l, in order. */
  ghost function CrossingSoFar(g: Graph, cls: Node -> Node, i: nat, l: Node): seq<Node>
    requires i <= |g.nodes|
  {
    if i == 0 then []
    else
      var n := g.nodes[i - 1];
      CrossingSoFar(g, cls, i - 1, l) + (if cls(n) == l then Crossing(RowOrder(g, n), cls, l) else [])
  }

  /** A super-node lists its neighbours in the order in which its members' rows first lead there. */
  ghost function SuperOrder(g: Graph, cls: Node -> Node, l: Node): seq<Node> {
    Firsts(CrossingSoFar(g, cls, |g.nodes|, l))
  }

  /** The first i nodes, and the next one along the first k of its row. */
  ghost function Led(g: Graph, cls: Node -> Node, i: nat, k: nat, l: Node): seq<Node>
    requires i < |g.nodes| && k <= |RowOrder(g, g.nodes[i])|
  {
    CrossingSoFar(g, cls, i, l) +
    (if cls(g.nodes[i]) == l then Crossing(RowOrder(g, g.nodes[i])[..k], cls, l) else [])
  }

  ghost predicate Queued(g: Graph, cls: Node -> Node, i: nat, order: Orders)
    requires i <= |g.nodes|
  {
    forall l :: OrderAt(order, l) == Firsts(CrossingSoFar(g, cls, i, l))
  }

  ghost predicate QueuedInto(g: Graph, cls: Node -> Node, i: nat, k: nat, order: Orders)
    requires i < |g.nodes| && k <= |RowOrder(g, g.nodes[i])|
  {
    forall l :: OrderAt(order, l) == Firsts(Led(g, cls, i, k, l))
  }

  function NextOrder(order: Orders, from: Node, to: Node): Orders {
    if from == to then order else AddKey(order, from, to)
  }

  lemma NothingQueued(g: Graph, cls: Node -> Node)
    ensures Queued(g, cls, 0, map[]) && SameKeys(map[], map[])
  {
  }

  lemma QueueStarts(g: Graph, cls: Node -> Node, i: nat, order: Orders)
    requires i < |g.nodes| && Queued(g, cls, i, order)
    ensures QueuedInto(g, cls, i, 0, order)
  {
    forall l ensures Led(g, cls, i, 0, l) == CrossingSoFar(g, cls, i, l) {}
  }

  lemma QueueStep(g: Graph, cls: Node -> Node, i: nat, k: nat, order: Orders)
    requires i < |g.nodes| && k < |RowOrder(g, g.nodes[i])| && QueuedInto(g, cls, i, k, order)
    ensures QueuedInto(g, cls, i, k + 1, NextOrder(order, cls(g.nodes[i]), cls(RowOrder(g, g.nodes[i])[k])))
  {
    var js := RowOrder(g, g.nodes[i]);
    var from, to := cls(g.nodes[i]), cls(js[k]);
    forall l ensures OrderAt(NextOrder(order, from, to), l) == Firsts(Led(g, cls, i, k + 1, l)) {
      assert js[..k + 1][..k] == js[..k];
      if from == l && to != l {
        assert Led(g, cls, i, k + 1, l) == Led(g, cls, i, k, l) + [to];
        FirstsOneMore(Led(g, cls, i, k, l), to);
      } else {
        assert Led(g, cls, i, k + 1, l) == Led(g, cls, i, k, l);
      }
    }
  }

  lemma QueueEnds(g: Graph, cls: Node -> Node, i: nat, order: Orders)
    requires i < |g.nodes| && QueuedInto(g, cls, i, |RowOrder(g, g.nodes[i])|, order)
    ensures Queued(g, cls, i + 1, order)
  {
    var js := RowOrder(g, g.nodes[i]);
    assert js[..|js|] == js;
    forall l ensures Led(g, cls, i, |js|, l) == CrossingSoFar(g, cls, i + 1, l) {}
  }

  /** The lists hold the keys of the rows. */
  ghost predicate SameKeys(adj: Neighbours, order: Orders) {
    forall l, k :: k in OrderAt(order, l) <==> Has(adj, l, k)
  }

  lemma SameKeysStep(adj: Neighbours, order: Orders, from: Node, to: Node, w: real)
    requires SameKeys(adj, order)
    ensures SameKeys(NextArcs(adj, from, to, w), NextOrder(order, from, to))
  {
  }

  // ---- the loops --------------------------------------------------------------------------------------

  method AddArcOf(g: Graph, from: Node, to: Node, w: real, adj0: Neighbours, loops0: map<Node, real>,
                  ghost cls: Node -> Node, ghost i: nat, ghost keys: set<Node>, ghost j: Node)
    returns (adj: Neighbours, loops: map<Node, real>)
    requires i < |g.nodes| && j in Row(g, g.nodes[i]) && j !in keys && j in g.nodes
    requires w == Row(g, g.nodes[i])[j] && w > 0.0
    requires from == cls(g.nodes[i]) && to == cls(j)
    requires Folding(g, cls, i, keys, adj0, loops0) && Fit(g, cls, adj0, loops0)
    ensures adj == NextArcs(adj0, from, to, w)
    ensures Folding(g, cls, i, keys + {j}, adj, loops) && Fit(g, cls, adj, loops)
  {
    ArcKeeps(g, cls, i, keys, adj0, loops0, j);
    adj, loops := NextArcs(adj0, from, to, w), NextLoops(loops0, from, to, w);
  }

  /** One node's arcs, in the order of its row. */
  method AddRowOf(g: Graph, comm: Assignment, names: map<int, Node>, i: nat, adj0: Neighbours, order0: Orders,
                  loops0: map<Node, real>)
    returns (adj: Neighbours, order: Orders, loops: map<Node, real>)
    requires Undirected(g) && InOrder(g) && Named(g, comm, names) && i < |g.nodes|
    requires Folding(g, SuperOf(comm, names), i, {}, adj0, loops0) && Fit(g, SuperOf(comm, names), adj0, loops0)
    requires Queued(g, SuperOf(comm, names), i, order0) && SameKeys(adj0, order0)
    ensures Folding(g, SuperOf(comm, names), i + 1, {}, adj, loops) && Fit(g, SuperOf(comm, names), adj, loops)
    ensures Queued(g, SuperOf(comm, names), i + 1, order) && SameKeys(adj, order)
  {
    hide Folding, Fit, Queued, QueuedInto, SameKeys, Undirected;
    adj, order, loops := adj0, order0, loops0;
    var n := g.nodes[i];
    assert n in g.nodes;
    var row, js := Row(g, n), RowOrder(g, n);
    ghost var cls := SuperOf(comm, names);
    RowAssigned(g, comm, n);
    RowInside(g, n);
    assert Seen(js[..0]) == {};
    QueueStarts(g, cls, i, order);
    for k := 0 to |js|
      invariant Folding(g, cls, i, Seen(js[..k]), adj, loops) && Fit(g, cls, adj, loops)
      invariant QueuedInto(g, cls, i, k, order) && SameKeys(adj, order)
    {
      var j := js[k];
      assert j in row && j in g.nodes && row[j] > 0.0;
      SeenOneMore(js, k);
      QueueStep(g, cls, i, k, order);
      SameKeysStep(adj, order, cls(n), cls(j), row[j]);
      adj, loops := AddArcOf(g, names[comm[n]], names[comm[j]], row[j], adj, loops, cls, i, Seen(js[..k]), j);
      order := NextOrder(order, names[comm[n]], names[comm[j]]);
    }
    assert js[..|js|] == js && Seen(js) == row.Keys;
    FoldRow(g, cls, i, adj, loops);
    QueueEnds(g, cls, i, order);
  }

  // ---- the whole collapse ----------------------------------------------------------------------------

  ghost predicate LoopsSoFar(g: Graph, cls: Node -> Node, i: nat, loops: map<Node, real>)
    requires i <= |g.nodes|
  {
    forall l :: LoopAt(loops, l) == Sigma(g.nodes[..i], M.InClass(cls, Loops(g), l))
  }

  lemma OneMoreLoop(g: Graph, cls: Node -> Node, i: nat, loops: map<Node, real>)
    requires i < |g.nodes| && LoopsSoFar(g, cls, i, loops)
    ensures LoopsSoFar(g, cls, i + 1, loops[cls(g.nodes[i]) := LoopAt(loops, cls(g.nodes[i])) + Loop(g, g.nodes[i])])
  {
    assert g.nodes[..i + 1][..i] == g.nodes[..i];
  }

  lemma FitLoop(g: Graph, cls: Node -> Node, loops: map<Node, real>, n: Node)
    requires ValidGraph(g) && Fit(g, cls, map[], loops) && n in g.nodes
    ensures Fit(g, cls, map[], loops[cls(n) := LoopAt(loops, cls(n)) + Loop(g, n)])
  {
    assert IsSuper(g, cls, cls(n));
  }

  lemma NothingSent(g: Graph, cls: Node -> Node, l: Node, k: Node)
    ensures SentSoFar(g, cls, 0, {}, l, k) == 0.0
  {
    assert g.nodes[..0] == [];
    if |g.nodes| > 0 { SentNothing(g, cls, g.nodes[0], k); }
  }

  lemma FoldingStarts(g: Graph, cls: Node -> Node, loops: map<Node, real>)
    requires LoopsSoFar(g, cls, |g.nodes|, loops)
    ensures Folding(g, cls, 0, {}, map[], loops)
  {
    assert g.nodes[..|g.nodes|] == g.nodes;
    forall l, k ensures SentSoFar(g, cls, 0, {}, l, k) == 0.0 { NothingSent(g, cls, l, k); }
  }

  lemma AllSent(g: Graph, cls: Node -> Node, l: Node, k: Node)
    requires Undirected(g)
    ensures SentSoFar(g, cls, |g.nodes|, {}, l, k) == M.BetweenClasses(g.nodes, cls, Arcs(g))(l, k)
    ensures M.BetweenClasses(g.nodes, cls, Arcs(g))(l, k) == M.BetweenClasses(g.nodes, cls, Arcs(g))(k, l)
  {
    assert g.nodes[..|g.nodes|] == g.nodes;
    M.BetweenSymmetric(g.nodes, cls, Arcs(g), l, k);
  }

  lemma FitIsValid(g: Graph, cls: Node -> Node, agg: Graph)
    requires Fit(g, cls, agg.adj, agg.loops) && Distinct(agg.nodes)
    requires forall l :: l in agg.nodes <==> IsSuper(g, cls, l)
    ensures ValidGraph(agg) && M.Classes(g.nodes, agg.nodes, cls) && Onto(g, cls, agg)
    ensures forall u :: !Has(agg.adj, u, u)
  {
    forall n | n in g.nodes ensures cls(n) in agg.nodes { assert IsSuper(g, cls, cls(n)); }
    forall l | l in agg.nodes ensures exists n :: n in g.nodes && cls(n) == l { assert IsSuper(g, cls, l); }
  }

  lemma FoldedArc(g: Graph, cls: Node -> Node, agg: Graph, l: Node, k: Node)
    requires Undirected(g) && FoldingArcs(g, cls, |g.nodes|, {}, agg.adj)
    ensures Arcs(agg)(l, k) == SuperArcs(g, cls)(l, k) && Get(agg.adj, l, k) == Get(agg.adj, k, l)
  {
    AllSent(g, cls, l, k);
    AllSent(g, cls, k, l);
  }

  lemma FoldedLoop(g: Graph, cls: Node -> Node, agg: Graph, l: Node)
    requires Undirected(g) && FoldingLoops(g, cls, |g.nodes|, {}, agg.loops)
    ensures Loops(agg)(l) == SuperLoops(g, cls)(l)
  {
    AllSent(g, cls, l, l);
    assert LoopAt(agg.loops, l) ==
      Sigma(g.nodes, M.InClass(cls, Loops(g), l)) + SentSoFar(g, cls, |g.nodes|, {}, l, l) / 2.0;
  }

  lemma FoldedIsUndirected(g: Graph, cls: Node -> Node, agg: Graph)
    requires Undirected(g) && FoldingArcs(g, cls, |g.nodes|, {}, agg.adj)
    requires ValidGraph(agg) && forall u :: !Has(agg.adj, u, u)
    ensures Undirected(agg)
  {
    forall l, k ensures Get(agg.adj, l, k) == Get(agg.adj, k, l) { FoldedArc(g, cls, agg, l, k); }
  }

  lemma FoldedIsCollapsed(g: Graph, cls: Node -> Node, agg: Graph)
    requires Undirected(g) && Folding(g, cls, |g.nodes|, {}, agg.adj, agg.loops)
    requires Fit(g, cls, agg.adj, agg.loops) && Distinct(agg.nodes)
    requires forall l :: l in agg.nodes <==> IsSuper(g, cls, l)
    ensures Collapsed(g, cls, agg) && Onto(g, cls, agg)
  {
    FitIsValid(g, cls, agg);
    FoldedIsUndirected(g, cls, agg);
    forall l, k ensures Arcs(agg)(l, k) == SuperArcs(g, cls)(l, k) { FoldedArc(g, cls, agg, l, k); }
    forall l ensures Loops(agg)(l) == SuperLoops(g, cls)(l) { FoldedLoop(g, cls, agg, l); }
  }

  lemma NamesAreSupers(g: Graph, comm: Assignment, names: map<int, Node>)
    requires Named(g, comm, names)
    ensures forall l :: l in (set c | c in names :: names[c]) <==> IsSuper(g, SuperOf(comm, names), l)
  {
    var cls := SuperOf(comm, names);
    forall l | IsSuper(g, cls, l) ensures l in (set c | c in names :: names[c]) {
      var n :| n in g.nodes && cls(n) == l;
      var c := comm[n];
      assert c in names && names[c] == l;
    }
    forall c | c in names ensures IsSuper(g, cls, names[c]) {
      var n :| n in g.nodes && comm[n] == c;
      assert cls(n) == names[c];
    }
  }

  method GatherLoops(g: Graph, comm: Assignment, names: map<int, Node>) returns (loops: map<Node, real>)
    requires Undirected(g) && Named(g, comm, names)
    ensures LoopsSoFar(g, SuperOf(comm, names), |g.nodes|, loops) && Fit(g, SuperOf(comm, names), map[], loops)
  {
    ghost var cls := SuperOf(comm, names);
    loops := map[];
    for i := 0 to |g.nodes|
      invariant LoopsSoFar(g, cls, i, loops) && Fit(g, cls, map[], loops)
    {
      assert g.nodes[i] in g.nodes;
      var name := names[comm[g.nodes[i]]];
      OneMoreLoop(g, cls, i, loops);
      FitLoop(g, cls, loops, g.nodes[i]);
      loops := loops[name := LoopAt(loops, name) + Loop(g, g.nodes[i])];
    }
  }

  method GatherArcs(g: Graph, comm: Assignment, names: map<int, Node>, loops0: map<Node, real>)
    returns (adj: Neighbours, order: Orders, loops: map<Node, real>)
    requires Undirected(g) && InOrder(g) && Named(g, comm, names)
    requires LoopsSoFar(g, SuperOf(comm, names), |g.nodes|, loops0) && Fit(g, SuperOf(comm, names), map[], loops0)
    ensures Folding(g, SuperOf(comm, names), |g.nodes|, {}, adj, loops) && Fit(g, SuperOf(comm, names), adj, loops)
    ensures Queued(g, SuperOf(comm, names), |g.nodes|, order) && SameKeys(adj, order)
  {
    hide Folding, Fit, LoopsSoFar, Queued, SameKeys, Undirected, InOrder, Named;
    adj, order, loops := map[], map[], loops0;
    NothingQueued(g, SuperOf(comm, names));
    FoldingStarts(g, SuperOf(comm, names), loops);
    for i := 0 to |g.nodes|
      invariant Folding(g, SuperOf(comm, names), i, {}, adj, loops) && Fit(g, SuperOf(comm, names), adj, loops)
      invariant Queued(g, SuperOf(comm, names), i, order) && SameKeys(adj, order)
    {
      adj, order, loops := AddRowOf(g, comm, names, i, adj, order, loops);
    }
  }

  lemma QueuedIsInOrder(g: Graph, cls: Node -> Node, agg: Graph)
    requires Queued(g, cls, |g.nodes|, agg.order) && SameKeys(agg.adj, agg.order)
    ensures InOrder(agg) && forall l :: RowOrder(agg, l) == SuperOrder(g, cls, l)
  {
    forall l ensures RowOrder(agg, l) == SuperOrder(g, cls, l) {
      assert OrderAt(agg.order, l) == Firsts(CrossingSoFar(g, cls, |g.nodes|, l));
    }
    forall l, k ensures k in RowOrder(agg, l) <==> k in Row(agg, l) {
      assert Has(agg.adj, l, k) <==> k in Row(agg, l);
    }
  }

  /** `_aggregate`: one super-node per community; what crosses communities becomes arcs, what
      stays inside becomes loops. */
  method Aggregate(g: Graph, comm: Assignment, names: map<int, Node>) returns (agg: Graph)
    requires Undirected(g) && InOrder(g) && Named(g, comm, names)
    ensures Collapsed(g, SuperOf(comm, names), agg) && Onto(g, SuperOf(comm, names), agg)
    ensures InOrder(agg) && forall l :: RowOrder(agg, l) == SuperOrder(g, SuperOf(comm, names), l)
    ensures forall l :: l in agg.nodes <==> IsSuper(g, SuperOf(comm, names), l)
    ensures forall i, j :: 0 <= i < j < |agg.nodes| ==> Before(agg.nodes[i], agg.nodes[j])
  {
    var nodes := Community.SortedSet(set c | c in names :: names[c]);
    NamesAreSupers(g, comm, names);
    var loops := GatherLoops(g, comm, names);
    var adj, order;
    adj, order, loops := GatherArcs(g, comm, names, loops);
    agg := Graph(nodes, adj, order, loops);
    FoldedIsCollapsed(g, SuperOf(comm, names), agg);
    QueuedIsInOrder(g, SuperOf(comm, names), agg);
  }
}
