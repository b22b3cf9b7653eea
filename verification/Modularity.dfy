/** The structural graph and its two scores, modularity and coverage, and what refinement
    does to them. */
module Modularity {
  import opened Paths
  import opened Ordering
  import opened Refinement
  import opened Adjacency
  import opened Sums

  /** `_Graph`: ascending node names, neighbour dictionaries, and self-loop weights. */
  datatype Graph = Graph(nodes: seq<Node>, adj: Neighbours, order: Orders, loops: map<Node, real>)

  function Row(g: Graph, n: Node): map<Node, real> {
    if n in g.adj then g.adj[n] else map[]
  }

  /** The neighbours in the order in which the row lists them. */
  function RowOrder(g: Graph, n: Node): seq<Node> { OrderAt(g.order, n) }

  /** Each row is listed, each neighbour once. */
  ghost predicate InOrder(g: Graph) {
    forall n :: Distinct(RowOrder(g, n)) && forall v :: v in RowOrder(g, n) <==> v in Row(g, n)
  }

  function Loop(g: Graph, n: Node): real {
    if n in g.loops then g.loops[n] else 0.0
  }

  /** Every neighbour and every node with a loop is a node of the graph; arcs weigh something. */
  ghost predicate ValidGraph(g: Graph) {
    Distinct(g.nodes) &&
    (forall u, v :: Has(g.adj, u, v) ==> v in g.nodes && g.adj[u][v] > 0.0) &&
    (forall u :: u in g.loops ==> u in g.nodes && g.loops[u] >= 0.0)
  }

  // ---- the scores, community by community ------------------------------------------

  ghost function DegreeOf(g: Graph, n: Node): real {
    Total(Row(g, n)) + 2.0 * Loop(g, n)
  }

  ghost function Degrees(g: Graph): map<Node, real> {
    map n | n in g.nodes :: DegreeOf(g, n)
  }

  ghost function TotalWeightOf(g: Graph): real {
    Total(map n | n in g.adj :: Total(g.adj[n])) / 2.0 + Total(g.loops)
  }

  /** Half the weight of each edge to a neighbour in the same community. */
  ghost function HalvesInside(g: Graph, comm: Assignment, n: Node): map<Node, real>
    requires n in comm && forall j :: j in Row(g, n) ==> j in comm
  {
    map j | j in Row(g, n) && comm[j] == comm[n] :: Row(g, n)[j] / 2.0
  }

  ghost predicate Assigned(g: Graph, comm: Assignment) {
    ValidGraph(g) && forall n :: n in g.nodes ==> n in comm
  }

  lemma RowAssigned(g: Graph, comm: Assignment, n: Node)
    requires Assigned(g, comm)
    ensures forall j :: j in Row(g, n) ==> j in comm && Row(g, n)[j] > 0.0
  {
    forall j | j in Row(g, n) ensures j in comm && Row(g, n)[j] > 0.0 {
      assert Has(g.adj, n, j);
    }
  }

  /** What node n contributes to the weight inside its community. */
  ghost function InsideOf(g: Graph, comm: Assignment, n: Node): real
    requires Assigned(g, comm) && n in comm
  {
    RowAssigned(g, comm, n);
    Loop(g, n) + Total(HalvesInside(g, comm, n))
  }

  ghost function Insides(g: Graph, comm: Assignment): map<Node, real>
    requires Assigned(g, comm)
  {
    map n | n in g.nodes :: InsideOf(g, comm, n)
  }

  ghost function SumOver(ns: seq<Node>, k: map<Node, real>): real
    requires forall n :: n in ns ==> n in k
  {
    if ns == [] then 0.0 else SumOver(ns[..|ns| - 1], k) + k[ns[|ns| - 1]]
  }

  ghost predicate Defined(ns: seq<Node>, comm: Assignment, k: map<Node, real>) {
    forall n :: n in ns ==> n in k && n in comm
  }

  /** The sum of k over the nodes that community c has among ns. */
  ghost function ClassSum(ns: seq<Node>, comm: Assignment, c: int, k: map<Node, real>): real
    requires Defined(ns, comm, k)
  {
    if ns == [] then 0.0
    else
      var n := ns[|ns| - 1];
      ClassSum(ns[..|ns| - 1], comm, c, k) + (if comm[n] == c then k[n] else 0.0)
  }

  ghost function Labels(ns: seq<Node>, comm: Assignment): set<int>
    requires forall n :: n in ns ==> n in comm
  {
    set n | n in ns :: comm[n]
  }

  function Square(x: real): real { x * x }

  lemma SquarePositive(x: real)
    requires x > 0.0
    ensures Square(x) > 0.0
  {
    var inverse := 1.0 / x;
    assert Square(x) * inverse == x;
    if Square(x) <= 0.0 { NegativeTimes(Square(x), inverse); }
  }

  lemma NegativeTimes(s: real, t: real)
    requires s <= 0.0 && t > 0.0
    ensures s * t <= 0.0
  {
  }

  /** One community's share of the modularity. */
  ghost function Share(inside: real, degree: real, m: real, resolution: real): real
    requires m > 0.0
  {
    inside / m - resolution * Square(degree / (2.0 * m))
  }

  ghost function Shares(g: Graph, comm: Assignment, m: real, resolution: real): map<int, real>
    requires Assigned(g, comm) && m > 0.0
  {
    map c | c in Labels(g.nodes, comm) ::
      Share(ClassSum(g.nodes, comm, c, Insides(g, comm)), ClassSum(g.nodes, comm, c, Degrees(g)), m, resolution)
  }

  ghost function ModularityOf(g: Graph, comm: Assignment, resolution: real): real
    requires Assigned(g, comm)
  {
    var m := TotalWeightOf(g);
    if m <= 0.0 then 0.0 else Total(Shares(g, comm, m, resolution))
  }

  ghost function CoverageOf(g: Graph, comm: Assignment): real
    requires Assigned(g, comm)
  {
    var m := TotalWeightOf(g);
    if m <= 0.0 then 0.0 else SumOver(g.nodes, Insides(g, comm)) / m
  }

  // ---- sums over classes ------------------------------------------------------------

  function At(m: map<int, real>, c: int): real {
    if c in m then m[c] else 0.0
  }

  /** All class sums at once, as the loop over the nodes builds them: `tot[c] += k[n]`. */
  ghost function ClassSums(ns: seq<Node>, comm: Assignment, k: map<Node, real>): map<int, real>
    requires Defined(ns, comm, k)
  {
    if ns == [] then map[]
    else
      var n := ns[|ns| - 1];
      var m := ClassSums(ns[..|ns| - 1], comm, k);
      m[comm[n] := At(m, comm[n]) + k[n]]
  }

  lemma LabelsOneMore(ns: seq<Node>, comm: Assignment, c: int)
    requires ns != [] && forall n :: n in ns ==> n in comm
    ensures c in Labels(ns, comm) <==> c in Labels(ns[..|ns| - 1], comm) || c == comm[ns[|ns| - 1]]
  {
    var front, n := ns[..|ns| - 1], ns[|ns| - 1];
    assert ns == front + [n];
    if c in Labels(ns, comm) {
      var x :| x in ns && comm[x] == c;
      assert x in front || x == n;
    }
  }

  lemma {:induction false} ClassSumsAre(ns: seq<Node>, comm: Assignment, k: map<Node, real>, c: int)
    requires Defined(ns, comm, k)
    ensures c in ClassSums(ns, comm, k) <==> c in Labels(ns, comm)
    ensures At(ClassSums(ns, comm, k), c) == ClassSum(ns, comm, c, k)
  {
    if ns != [] {
      ClassSumsAre(ns[..|ns| - 1], comm, k, c);
      LabelsOneMore(ns, comm, c);
    }
  }

  lemma {:induction false} ClassTotals(ns: seq<Node>, comm: Assignment, k: map<Node, real>)
    requires Defined(ns, comm, k)
    ensures Total(ClassSums(ns, comm, k)) == SumOver(ns, k)
  {
    if ns != [] {
      var front, n := ns[..|ns| - 1], ns[|ns| - 1];
      var m := ClassSums(front, comm, k);
      ClassTotals(front, comm, k);
      TotalUpdate(m, comm[n], At(m, comm[n]) + k[n]);
    }
  }

  ghost function Squares(m: map<int, real>): map<int, real> {
    map c | c in m :: Square(m[c])
  }

  /** What a node of degree k adds to the pairs of a class of total degree t. */
  ghost function Gain(k: real, t: real): real { 2.0 * (k * t) + k * k }

  /** The sum of k[x] * k[y] over all ordered pairs of nodes in one class. */
  ghost function PairSum(ns: seq<Node>, comm: Assignment, k: map<Node, real>): real
    requires Defined(ns, comm, k)
  {
    if ns == [] then 0.0
    else
      var front, n := ns[..|ns| - 1], ns[|ns| - 1];
      PairSum(front, comm, k) + Gain(k[n], ClassSum(front, comm, comm[n], k))
  }

  lemma SquareOfSum(x: real, y: real)
    ensures Square(x + y) == Square(x) + Gain(y, x)
  {
  }

  lemma SquaresGrow(m: map<int, real>, c: int, k: real)
    ensures Total(Squares(m[c := At(m, c) + k])) == Total(Squares(m)) + Gain(k, At(m, c))
  {
    var t := At(m, c);
    assert Squares(m[c := t + k]) == Squares(m)[c := Square(t + k)];
    TotalUpdate(Squares(m), c, Square(t + k));
    SquareOfSum(t, k);
  }

  lemma {:induction false} SquaresArePairs(ns: seq<Node>, comm: Assignment, k: map<Node, real>)
    requires Defined(ns, comm, k)
    ensures Total(Squares(ClassSums(ns, comm, k))) == PairSum(ns, comm, k)
  {
    if ns == [] {
      assert Squares(ClassSums(ns, comm, k)) == map[];
    } else {
      SquaresArePairs(ns[..|ns| - 1], comm, k);
      SquaresOneMore(ns, comm, k);
    }
  }

  lemma SquaresOneMore(ns: seq<Node>, comm: Assignment, k: map<Node, real>)
    requires ns != [] && Defined(ns, comm, k)
    ensures var front, n := ns[..|ns| - 1], ns[|ns| - 1];
            Total(Squares(ClassSums(ns, comm, k))) ==
            Total(Squares(ClassSums(front, comm, k))) + Gain(k[n], ClassSum(front, comm, comm[n], k))
  {
    var front, n := ns[..|ns| - 1], ns[|ns| - 1];
    var m := ClassSums(front, comm, k);
    ClassSumsAre(front, comm, k, comm[n]);
    assert ClassSums(ns, comm, k) == m[comm[n] := At(m, comm[n]) + k[n]];
    SquaresGrow(m, comm[n], k[n]);
  }

  lemma {:induction false} FinerClassSum(ns: seq<Node>, fine: Assignment, coarse: Assignment, k: map<Node, real>,
                                         x: Node)
    requires forall n :: n in ns + [x] ==> n in k && n in fine && n in coarse && k[n] >= 0.0
    requires forall n :: n in ns ==> fine[n] == fine[x] ==> coarse[n] == coarse[x]
    ensures 0.0 <= ClassSum(ns, fine, fine[x], k) <= ClassSum(ns, coarse, coarse[x], k)
  {
    if ns != [] {
      var front, n := ns[..|ns| - 1], ns[|ns| - 1];
      assert ns == front + [n] && n in ns + [x];
      FinerClassSum(front, fine, coarse, k, x);
    }
  }

  lemma GainOrder(k: real, s: real, t: real)
    requires k >= 0.0 && 0.0 <= s <= t
    ensures Gain(k, s) <= Gain(k, t)
  {
    assert k * (t - s) >= 0.0;
    assert k * (t - s) == k * t - k * s;
  }

  ghost predicate Comparable(ns: seq<Node>, fine: Assignment, coarse: Assignment, k: map<Node, real>) {
    (forall n :: n in ns ==> n in k && n in fine && n in coarse && k[n] >= 0.0) &&
    forall x, y :: x in ns && y in ns && fine[x] == fine[y] ==> coarse[x] == coarse[y]
  }

  lemma FinerGain(front: seq<Node>, n: Node, fine: Assignment, coarse: Assignment, k: map<Node, real>)
    requires Comparable(front + [n], fine, coarse, k)
    ensures n in front + [n] && Comparable(front, fine, coarse, k)
    ensures Gain(k[n], ClassSum(front, fine, fine[n], k)) <= Gain(k[n], ClassSum(front, coarse, coarse[n], k))
  {
    assert n in front + [n] && forall x :: x in front ==> x in front + [n];
    FinerClassSum(front, fine, coarse, k, n);
    GainOrder(k[n], ClassSum(front, fine, fine[n], k), ClassSum(front, coarse, coarse[n], k));
  }

  /** A finer partition has fewer pairs in one class. */
  lemma {:induction false} FinerPairSum(ns: seq<Node>, fine: Assignment, coarse: Assignment, k: map<Node, real>)
    requires Comparable(ns, fine, coarse, k)
    ensures PairSum(ns, fine, k) <= PairSum(ns, coarse, k)
  {
    if ns != [] {
      var front, n := ns[..|ns| - 1], ns[|ns| - 1];
      assert ns == front + [n];
      FinerGain(front, n, fine, coarse, k);
      FinerPairSum(front, fine, coarse, k);
    }
  }

  // ---- the closed form ---------------------------------------------------------------

  lemma ShareSplits(inside: real, degree: real, m: real, resolution: real)
    requires m > 0.0
    ensures Combines(Share(inside, degree, m, resolution), inside, Square(degree), 1.0 / m, Penalty(m, resolution))
  {
    var e := 2.0 * m;
    SquarePositive(e);
    var d, x := Square(e), degree / e;
    var q := resolution / d;
    assert x * e == degree && q * d == resolution;
    SquareOfProduct(x, e);
    Reassociate(q, Square(x), d);
    assert (1.0 / m) * inside == inside / m;
  }

  lemma SquareOfProduct(x: real, y: real)
    ensures Square(x * y) == Square(x) * Square(y)
  {
    assert (x * y) * (x * y) == (x * x) * (y * y);
  }

  lemma Reassociate(q: real, s: real, d: real)
    ensures q * (s * d) == (q * d) * s
  {
  }

  /** The weight of one pair: resolution / (2m)**2. */
  ghost function Penalty(m: real, resolution: real): real
    requires m > 0.0
  {
    SquarePositive(2.0 * m);
    resolution / Square(2.0 * m)
  }

  lemma SharesSplit(g: Graph, comm: Assignment, m: real, resolution: real, c: int)
    requires Assigned(g, comm) && m > 0.0
    ensures var f, s := ClassSums(g.nodes, comm, Insides(g, comm)), Squares(ClassSums(g.nodes, comm, Degrees(g)));
            (c in Shares(g, comm, m, resolution) <==> c in f) && (c in f <==> c in s) &&
            (c in f ==> Combines(Shares(g, comm, m, resolution)[c], f[c], s[c], 1.0 / m, Penalty(m, resolution)))
  {
    ClassSumsAre(g.nodes, comm, Insides(g, comm), c);
    ClassSumsAre(g.nodes, comm, Degrees(g), c);
    ShareSplits(ClassSum(g.nodes, comm, c, Insides(g, comm)), ClassSum(g.nodes, comm, c, Degrees(g)), m, resolution);
  }

  lemma SharesTotal(g: Graph, comm: Assignment, m: real, resolution: real)
    requires Assigned(g, comm) && m > 0.0
    ensures Combines(Total(Shares(g, comm, m, resolution)), Total(ClassSums(g.nodes, comm, Insides(g, comm))),
                     Total(Squares(ClassSums(g.nodes, comm, Degrees(g)))), 1.0 / m, Penalty(m, resolution))
  {
    var h, f := Shares(g, comm, m, resolution), ClassSums(g.nodes, comm, Insides(g, comm));
    var s := Squares(ClassSums(g.nodes, comm, Degrees(g)));
    var p, q := 1.0 / m, Penalty(m, resolution);
    forall c ensures (c in h <==> c in f) && (c in f <==> c in s) && (c in f ==> Combines(h[c], f[c], s[c], p, q)) {
      SharesSplit(g, comm, m, resolution, c);
    }
    TotalLinear(h, f, s, p, q);
  }

  /** Modularity is the weight inside communities over m, less the penalty for every pair of
      nodes that share a community. */
  lemma ModularityClosedForm(g: Graph, comm: Assignment, resolution: real)
    requires Assigned(g, comm) && TotalWeightOf(g) > 0.0
    ensures Combines(ModularityOf(g, comm, resolution), SumOver(g.nodes, Insides(g, comm)),
                     PairSum(g.nodes, comm, Degrees(g)), 1.0 / TotalWeightOf(g), Penalty(TotalWeightOf(g), resolution))
  {
    SharesTotal(g, comm, TotalWeightOf(g), resolution);
    ClassTotals(g.nodes, comm, Insides(g, comm));
    SquaresArePairs(g.nodes, comm, Degrees(g));
  }

  ghost function Product(x: real, y: real): real { x * y }

  lemma ProductLaws(x: real, y: real, z: real)
    ensures Product(x, y + z) == Product(x, y) + Product(x, z) && Product(x, y) == Product(y, x)
    ensures Product(x, 0.0) == 0.0 && Gain(x, y) == 2.0 * Product(x, y) + Product(x, x)
  {
  }

  /** What node x and each other node contribute to the pairs of a class. */
  ghost function Fellows(comm: Assignment, k: map<Node, real>, x: Node): Node -> real {
    (y: Node) => if x in comm && y in comm && x in k && y in k && comm[x] == comm[y] then Product(k[x], k[y]) else 0.0
  }

  ghost function AllFellows(ns: seq<Node>, comm: Assignment, k: map<Node, real>): Node -> real {
    (x: Node) => Sigma(ns, Fellows(comm, k, x))
  }

  lemma {:induction false} FellowsSum(ns: seq<Node>, comm: Assignment, k: map<Node, real>, x: Node)
    requires Defined(ns, comm, k) && x in comm && x in k
    ensures Sigma(ns, Fellows(comm, k, x)) == Product(k[x], ClassSum(ns, comm, comm[x], k))
  {
    hide Product;
    if ns == [] {
      ProductLaws(k[x], 0.0, 0.0);
    } else {
      var front, n := ns[..|ns| - 1], ns[|ns| - 1];
      assert ns == front + [n];
      FellowsSum(front, comm, k, x);
      ProductLaws(k[x], ClassSum(front, comm, comm[x], k), k[n]);
    }
  }

  /** One node more: its row, and its entry in every other row. */
  lemma FellowsOneMore(front: seq<Node>, n: Node, comm: Assignment, k: map<Node, real>)
    requires Defined(front + [n], comm, k) && n in comm && n in k
    ensures Sigma(front + [n], AllFellows(front + [n], comm, k)) ==
      Sigma(front, AllFellows(front, comm, k)) + 2.0 * Sigma(front, Fellows(comm, k, n)) + Product(k[n], k[n])
  {
    hide Product;
    var ns := front + [n];
    var row := Fellows(comm, k, n);
    assert ns[..|ns| - 1] == front;
    forall x | x in front ensures AllFellows(ns, comm, k)(x) == AllFellows(front, comm, k)(x) + row(x) {
      assert x in ns;
      ProductLaws(k[x], k[n], 0.0);
    }
    SigmaAdds(front, AllFellows(front, comm, k), row, AllFellows(ns, comm, k));
  }

  /** PairSum is the sum over all ordered pairs. */
  lemma {:induction false} PairSumIsDoubleSum(ns: seq<Node>, comm: Assignment, k: map<Node, real>)
    requires Defined(ns, comm, k)
    ensures PairSum(ns, comm, k) == Sigma(ns, AllFellows(ns, comm, k))
  {
    hide Product, Gain, AllFellows, Fellows;
    if ns != [] {
      var front, n := ns[..|ns| - 1], ns[|ns| - 1];
      assert ns == front + [n];
      PairSumIsDoubleSum(front, comm, k);
      FellowsSum(front, comm, k, n);
      FellowsOneMore(front, n, comm, k);
      ProductLaws(k[n], ClassSum(front, comm, comm[n], k), 0.0);
    }
  }

  ghost predicate NewmanGirvan(q: real, inside: real, pairs: real, m: real, resolution: real) {
    m * m > 0.0 && q == inside / m - resolution * pairs / (4.0 * (m * m))
  }

  lemma LiteralForm(q: real, inside: real, pairs: real, m: real, resolution: real)
    requires m > 0.0 && Combines(q, inside, pairs, 1.0 / m, Penalty(m, resolution))
    ensures NewmanGirvan(q, inside, pairs, m, resolution)
  {
    SquarePositive(m);
    var d := 4.0 * (m * m);
    assert Square(2.0 * m) == d;
    assert (1.0 / m) * inside == inside / m;
    assert (resolution / d) * pairs == resolution * pairs / d;
  }

  /** Modularity in full: inside weight over m, less resolution times the degree products of all
      ordered pairs of nodes that share a community, over (2m)**2. */
  lemma ModularityFormula(g: Graph, comm: Assignment, resolution: real)
    requires Assigned(g, comm) && TotalWeightOf(g) > 0.0
    ensures NewmanGirvan(ModularityOf(g, comm, resolution), SumOver(g.nodes, Insides(g, comm)),
                         Sigma(g.nodes, AllFellows(g.nodes, comm, Degrees(g))), TotalWeightOf(g), resolution)
  {
    hide ModularityOf, Combines, Penalty, AllFellows, NewmanGirvan;
    ModularityClosedForm(g, comm, resolution);
    PairSumIsDoubleSum(g.nodes, comm, Degrees(g));
    LiteralForm(ModularityOf(g, comm, resolution), SumOver(g.nodes, Insides(g, comm)),
                PairSum(g.nodes, comm, Degrees(g)), TotalWeightOf(g), resolution);
  }

  lemma PenaltyOrder(q1: real, q2: real, i: real, s1: real, s2: real, p: real, r: real)
    requires Combines(q1, i, s1, p, r) && Combines(q2, i, s2, p, r)
    requires s1 <= s2 && r >= 0.0
    ensures q1 >= q2
  {
    assert r * (s2 - s1) >= 0.0;
    assert r * (s2 - s1) == r * s2 - r * s1;
  }

  // ---- refinement and the scores --------------------------------------------------------

  lemma DegreesNonNegative(g: Graph)
    requires ValidGraph(g)
    ensures forall n :: n in g.nodes ==> n in Degrees(g) && Degrees(g)[n] >= 0.0
  {
    forall n | n in g.nodes ensures DegreeOf(g, n) >= 0.0 {
      forall j | j in Row(g, n) ensures Row(g, n)[j] >= 0.0 {
        assert Has(g.adj, n, j);
      }
      TotalNonNegative(Row(g, n));
    }
  }

  /** The graph has an arc only where the edges have a link. */
  ghost predicate ArcsAreLinks(g: Graph, links: Links) {
    forall u, v :: Has(g.adj, u, v) ==> (u, v) in links
  }

  lemma InsideUnchanged(g: Graph, a: Assignment, links: Links, r: Assignment, n: Node)
    requires Symmetric(links) && Exact(a, links, r) && Assigned(g, a) && ArcsAreLinks(g, links) && n in g.nodes
    ensures Assigned(g, r) && InsideOf(g, r, n) == InsideOf(g, a, n)
  {
    RowAssigned(g, a, n);
    forall j | j in Row(g, n) ensures r[j] == r[n] <==> a[j] == a[n] {
      assert Has(g.adj, n, j);
      if a[j] == a[n] {
        LinkReaches(Within(a, links), n, j);
        ReachesIsJoined(Within(a, links), n, j);
      }
      if r[j] == r[n] {
        WithinStays(a, links, n, j);
      }
    }
    assert HalvesInside(g, r, n) == HalvesInside(g, a, n);
  }

  lemma RefinementKeepsInsides(g: Graph, a: Assignment, links: Links)
    requires Symmetric(links) && Assigned(g, a) && ArcsAreLinks(g, links)
    ensures Assigned(g, Refined(a, links)) && Insides(g, Refined(a, links)) == Insides(g, a)
  {
    var r := Refined(a, links);
    RefinedExact(a, links);
    assert Assigned(g, r);
    forall n | n in g.nodes ensures InsideOf(g, r, n) == InsideOf(g, a, n) {
      InsideUnchanged(g, a, links, r, n);
    }
    SameMap(Insides(g, r), Insides(g, a));
  }

  lemma RefinedIsFiner(a: Assignment, links: Links)
    requires Symmetric(links)
    ensures Refines(Refined(a, links), a)
  {
    RefinedIsWellConnected(a, links);
  }

  lemma RefinementLosesPairs(g: Graph, a: Assignment, links: Links)
    requires Symmetric(links) && Assigned(g, a) && Assigned(g, Refined(a, links))
    ensures PairSum(g.nodes, Refined(a, links), Degrees(g)) <= PairSum(g.nodes, a, Degrees(g))
  {
    RefinedIsFiner(a, links);
    FinerLosesPairs(g, a, Refined(a, links));
  }

  lemma FinerLosesPairs(g: Graph, a: Assignment, r: Assignment)
    requires Assigned(g, a) && Assigned(g, r) && Refines(r, a)
    ensures PairSum(g.nodes, r, Degrees(g)) <= PairSum(g.nodes, a, Degrees(g))
  {
    DegreesNonNegative(g);
    FinerPairSum(g.nodes, r, a, Degrees(g));
  }

  lemma PenaltyNonNegative(m: real, resolution: real)
    requires m > 0.0 && resolution >= 0.0
    ensures Penalty(m, resolution) >= 0.0
  {
    SquarePositive(2.0 * m);
    QuotientNonNegative(resolution, Square(2.0 * m));
  }

  lemma NegativeProduct(q: real, d: real)
    requires q < 0.0 && d > 0.0
    ensures q * d < 0.0
  {
  }

  lemma QuotientNonNegative(r: real, d: real)
    requires r >= 0.0 && d > 0.0
    ensures r / d >= 0.0
  {
    var q := r / d;
    assert q * d == r;
    if q < 0.0 { NegativeProduct(q, d); }
  }

  /** Refining keeps coverage and never lowers modularity, at any resolution that is not
      negative: the weight inside communities stays, and the penalty can only fall. */
  lemma RefinementNeverHurts(g: Graph, a: Assignment, links: Links, resolution: real)
    requires Symmetric(links) && Assigned(g, a) && ArcsAreLinks(g, links) && resolution >= 0.0
    ensures var r := Refined(a, links);
            Assigned(g, r) &&
            CoverageOf(g, r) == CoverageOf(g, a) &&
            ModularityOf(g, r, resolution) >= ModularityOf(g, a, resolution)
  {
    var r, m := Refined(a, links), TotalWeightOf(g);
    RefinementKeepsInsides(g, a, links);
    if m > 0.0 {
      ModularityClosedForm(g, a, resolution);
      ModularityClosedForm(g, r, resolution);
      RefinementLosesPairs(g, a, links);
      PenaltyNonNegative(m, resolution);
      PenaltyOrder(ModularityOf(g, r, resolution), ModularityOf(g, a, resolution), SumOver(g.nodes, Insides(g, a)),
                   PairSum(g.nodes, r, Degrees(g)), PairSum(g.nodes, a, Degrees(g)), 1.0 / m, Penalty(m, resolution));
    }
  }
}
