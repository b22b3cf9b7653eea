/** A tie that decides the communities: one graph of three nodes whose edges, listed in two orders,
    lead the base detector to two outcomes. */
module Ties {
  import opened Ordering
  import opened Refinement
  import opened Adjacency
  import opened Modularity
  import opened Sums
  import opened Mnemosyne
  import opened Aggregation
  import opened Levels
  import opened Choices
  import Community

  const TIE_NODES: seq<Node> := ["a", "b", "c"]

  ghost predicate Friend(x: Node) { x == "b" || x == "c" }

  function Other(x: Node): Node { if x == "b" then "c" else "b" }

  /** The edge from "a" to x listed before the other. */
  function TieEdges(x: Node): seq<Edge> {
    [Edge("a", x, 1.0), Edge("a", Other(x), 1.0), Edge("b", "b", 1.0), Edge("c", "c", 1.0)]
  }

  lemma TieWeights(x: Node, u: Node, v: Node)
    requires Friend(x)
    ensures Weight(TieEdges(x), u, v) ==
      if (u == "a" && (v == "b" || v == "c")) || (v == "a" && (u == "b" || u == "c")) then 1.0 else 0.0
    ensures Community.LoopWeight(TieEdges(x), u) == if u == "b" || u == "c" then 1.0 else 0.0
  {
    var e := TieEdges(x);
    assert e[..3][..2] == e[..2] && e[..2][..1] == e[..1] && e[..1][..0] == [];
    assert Weight(e[..1], u, v) == if Joins(e[0], u, v) then 1.0 else 0.0;
    assert Weight(e[..2], u, v) == Weight(e[..1], u, v) + if Joins(e[1], u, v) then 1.0 else 0.0;
    assert Weight(e[..3], u, v) == Weight(e[..2], u, v);
    assert Community.LoopWeight(e[..1], u) == 0.0;
    assert Community.LoopWeight(e[..2], u) == 0.0;
    assert Community.LoopWeight(e[..3], u) == if u == "b" then 1.0 else 0.0;
  }

  lemma TieListed(x: Node)
    requires Friend(x)
    ensures Community.OtherEnds(TieEdges(x), "a") == [x] + [Other(x)]
  {
    var e := TieEdges(x);
    assert e[..3][..2] == e[..2] && e[..2][..1] == e[..1] && e[..1][..0] == [];
    assert Community.OtherEnds(e[..1], "a") == [x];
    assert Community.OtherEnds(e[..2], "a") == [x] + [Other(x)];
    assert Community.OtherEnds(e[..3], "a") == [x] + [Other(x)];
  }

  lemma TieKept(x: Node)
    requires Friend(x)
    ensures Community.Kept(TieEdges(x), set n | n in TIE_NODES) == TieEdges(x)
  {
    var e, present := TieEdges(x), set n | n in TIE_NODES;
    assert "a" in present && "b" in present && "c" in present by {
      assert TIE_NODES[0] == "a" && TIE_NODES[1] == "b" && TIE_NODES[2] == "c";
    }
    assert e[..3][..2] == e[..2] && e[..2][..1] == e[..1] && e[..1][..0] == [];
    assert Community.Kept(e[..1], present) == e[..1];
    assert Community.Kept(e[..2], present) == e[..2];
    assert Community.Kept(e[..3], present) == e[..3];
  }

  function TieRow(u: Node): map<Node, real> {
    if u == "a" then map["b" := 1.0, "c" := 1.0] else if u == "b" || u == "c" then map["a" := 1.0] else map[]
  }

  function TieLoop(u: Node): real { if u == "b" || u == "c" then 1.0 else 0.0 }

  ghost predicate IsTie(g: Graph) {
    Undirected(g) && g.nodes == TIE_NODES && forall u :: Row(g, u) == TieRow(u) && Loop(g, u) == TieLoop(u)
  }

  /** What `from_edges` builds. */
  lemma TieGraph(g: Graph, x: Node)
    requires Friend(x) && Community.GraphOf(g, TIE_NODES, TieEdges(x))
    ensures IsTie(g) && InOrder(g) && RowOrder(g, "a") == Firsts([x] + [Other(x)])
  {
    TieKept(x);
    TieListed(x);
    BuiltIsUndirected(g, TieEdges(x));
    Community.GraphIsInOrder(g, TieEdges(x), set n | n in TIE_NODES);
    assert Before("a", "b") && Before("b", "c") && Before("a", "c");
    AscendingUnique(g.nodes, TIE_NODES);
    forall u ensures Row(g, u) == TieRow(u) && Loop(g, u) == TieLoop(u) { TieRowIs(g, x, u); }
    assert OrderAt(g.order, "a") == Firsts(Community.OtherEnds(TieEdges(x), "a"));
  }

  lemma TieRowIs(g: Graph, x: Node, u: Node)
    requires Friend(x) && Community.Built(g.adj, g.loops, TieEdges(x))
    ensures Row(g, u) == TieRow(u) && Loop(g, u) == TieLoop(u)
  {
    TieWeights(x, u, u);
    assert Loop(g, u) == Community.LoopWeight(TieEdges(x), u);
    forall v ensures (v in Row(g, u) <==> v in TieRow(u)) && (v in TieRow(u) ==> Row(g, u)[v] == TieRow(u)[v]) {
      TieWeights(x, u, v);
      assert Has(g.adj, u, v) <==> v in Row(g, u);
      assert Get(g.adj, u, v) == Weight(TieEdges(x), u, v);
    }
  }

  // ---- its scores -----------------------------------------------------------------------------

  lemma OneTotal(x: Node, w: real)
    ensures Total(map[x := w]) == w
  {
    TotalUpdate(map[], x, w);
    assert map[][x := w] == map[x := w];
  }

  lemma SumOfThree(f: Node -> real)
    ensures Sigma(TIE_NODES, f) == f("a") + f("b") + f("c")
  {
    assert TIE_NODES[..2] == ["a", "b"] && ["a", "b"][..1] == ["a"];
    assert Sigma(["a"], f) == f("a");
    assert Sigma(["a", "b"], f) == f("a") + f("b");
  }

  lemma TieDegree(g: Graph, u: Node)
    requires IsTie(g) && u in TIE_NODES
    ensures DegreeOf(g, u) == DegreesOf(g)(u) == if u == "a" then 2.0 else 3.0
  {
    DegreeIsSigma(g, u);
    OneTotal("a", 1.0);
    OneTotal("b", 1.0);
    TotalUpdate(map["b" := 1.0], "c", 1.0);
    assert map["b" := 1.0]["c" := 1.0] == TieRow("a");
    assert Row(g, u) == TieRow(u) && Loop(g, u) == TieLoop(u);
  }

  lemma TieTotal(g: Graph)
    requires IsTie(g)
    ensures TotalWeightOf(g) == 4.0
  {
    TieDegree(g, "a");
    TieDegree(g, "b");
    TieDegree(g, "c");
    TotalIsHalfDegrees(g);
    SumOfThree(DegreesOf(g));
  }

  function One(b: bool): real { if b then 1.0 else 0.0 }

  ghost predicate OnTie(comm: Assignment) { "a" in comm && "b" in comm && "c" in comm }

  /** Half of each arc between nodes that are together, and the loops. */
  lemma TieInsideOf(g: Graph, comm: Assignment, u: Node)
    requires IsTie(g) && Assigned(g, comm) && OnTie(comm) && u in TIE_NODES && u in comm
    ensures InsideOf(g, comm, u) ==
      if u == "a" then One(comm["a"] == comm["b"]) / 2.0 + One(comm["a"] == comm["c"]) / 2.0
      else 1.0 + One(comm["a"] == comm[u]) / 2.0
  {
    RowAssigned(g, comm, u);
    var halves := HalvesInside(g, comm, u);
    assert Row(g, u) == TieRow(u) && Loop(g, u) == TieLoop(u);
    OneTotal("a", 0.5);
    OneTotal("b", 0.5);
    OneTotal("c", 0.5);
    TotalUpdate(map["b" := 0.5], "c", 0.5);
    if u == "a" {
      var ab, ac := comm["a"] == comm["b"], comm["a"] == comm["c"];
      assert halves == if ab && ac then map["b" := 0.5]["c" := 0.5] else if ab then map["b" := 0.5]
                       else if ac then map["c" := 0.5] else map[];
    } else {
      assert halves == if comm["a"] == comm[u] then map["a" := 0.5] else map[];
    }
  }

  lemma TieInside(g: Graph, comm: Assignment)
    requires IsTie(g) && Assigned(g, comm) && OnTie(comm)
    ensures SumOver(g.nodes, Insides(g, comm)) == 2.0 + One(comm["a"] == comm["b"]) + One(comm["a"] == comm["c"])
  {
    TieInsideOf(g, comm, "a");
    TieInsideOf(g, comm, "b");
    TieInsideOf(g, comm, "c");
    var k, f := Insides(g, comm), (n: Node) => if n in Insides(g, comm) then Insides(g, comm)[n] else 0.0;
    SumOverIsSigma(g.nodes, k, f);
    SumOfThree(f);
    assert "a" in TIE_NODES && "b" in TIE_NODES && "c" in TIE_NODES;
  }

  /** The degree products of the pairs that are together. */
  lemma TiePairs(g: Graph, comm: Assignment)
    requires IsTie(g) && Assigned(g, comm) && OnTie(comm)
    ensures PairSum(g.nodes, comm, Degrees(g)) == 22.0 + 12.0 * One(comm["a"] == comm["b"]) +
      12.0 * One(comm["a"] == comm["c"]) + 18.0 * One(comm["b"] == comm["c"])
  {
    var k := Degrees(g);
    TieDegree(g, "a");
    TieDegree(g, "b");
    TieDegree(g, "c");
    assert "a" in TIE_NODES && "b" in TIE_NODES && "c" in TIE_NODES;
    TiePairsOf(comm, k);
  }

  lemma TiePairsOf(comm: Assignment, k: map<Node, real>)
    requires OnTie(comm) && "a" in k && "b" in k && "c" in k && k["a"] == 2.0 && k["b"] == 3.0 && k["c"] == 3.0
    ensures PairSum(TIE_NODES, comm, k) == 22.0 + 12.0 * One(comm["a"] == comm["b"]) +
      12.0 * One(comm["a"] == comm["c"]) + 18.0 * One(comm["b"] == comm["c"])
  {
    assert TIE_NODES[..2] == ["a", "b"] && ["a", "b"][..1] == ["a"];
    assert PairSum(["a"], comm, k) == 4.0;
    assert ClassSum(["a"], comm, comm["b"], k) == 2.0 * One(comm["a"] == comm["b"]);
    assert PairSum(["a", "b"], comm, k) == 13.0 + 12.0 * One(comm["a"] == comm["b"]);
    assert ClassSum(["a"], comm, comm["c"], k) == 2.0 * One(comm["a"] == comm["c"]);
    assert ClassSum(["a", "b"], comm, comm["c"], k) ==
      2.0 * One(comm["a"] == comm["c"]) + 3.0 * One(comm["b"] == comm["c"]);
  }

  /** Modularity by which nodes are together. */
  function TieScore(ab: bool, ac: bool, bc: bool): real {
    (2.0 + One(ab) + One(ac)) / 4.0 - (22.0 + 12.0 * One(ab) + 12.0 * One(ac) + 18.0 * One(bc)) / 64.0
  }

  lemma TieScores(g: Graph, comm: Assignment)
    requires IsTie(g) && Assigned(g, comm) && OnTie(comm)
    ensures ModularityOf(g, comm, 1.0) ==
      TieScore(comm["a"] == comm["b"], comm["a"] == comm["c"], comm["b"] == comm["c"])
  {
    hide ModularityOf, Combines, PairSum, SumOver, InsideOf, DegreeOf, TotalWeightOf, Penalty;
    hide Undirected, TieRow, TieLoop;
    TieTotal(g);
    TieInside(g, comm);
    TiePairs(g, comm);
    ModularityClosedForm(g, comm, 1.0);
    TieCombines(ModularityOf(g, comm, 1.0), SumOver(g.nodes, Insides(g, comm)), PairSum(g.nodes, comm, Degrees(g)));
  }

  lemma TieCombines(q: real, inside: real, pairs: real)
    requires Combines(q, inside, pairs, 1.0 / 4.0, Penalty(4.0, 1.0))
    ensures q == inside / 4.0 - pairs / 64.0
  {
    assert Penalty(4.0, 1.0) == 1.0 / 64.0;
  }

  /** What one pair together scores: nothing scores more. */
  const BEST := 14.0 / 64.0

  lemma TieAtMost(g: Graph, comm: Assignment)
    requires IsTie(g) && Assigned(g, comm) && OnTie(comm)
    ensures ModularityOf(g, comm, 1.0) <= BEST
    ensures (comm["a"] == comm["b"]) != (comm["a"] == comm["c"]) ==> ModularityOf(g, comm, 1.0) == BEST
    ensures comm["a"] != comm["b"] && comm["a"] != comm["c"] ==> ModularityOf(g, comm, 1.0) < BEST
  {
    TieScores(g, comm);
  }

  // ---- its first level ------------------------------------------------------------------------

  const START: Assignment := map["a" := 0, "b" := 1, "c" := 2]

  /** After "a" has joined "b" or "c". */
  function Joined(x: Node): Assignment { START["a" := if x == "b" then 1 else 2] }

  lemma TieAssigned(g: Graph, comm: Assignment)
    requires IsTie(g) && OnTie(comm)
    ensures Assigned(g, comm)
  {
  }

  /** Joining either is best. */
  lemma JoinedIsTaken(g: Graph, x: Node)
    requires IsTie(g) && Friend(x)
    ensures Assigned(g, START) && Takes(g, START, "a", Joined(x)["a"], 1.0) && Improves(g, START, Joined(x), 1.0)
    ensures !LocallyOptimal(g, START, 1.0)
  {
    hide ModularityOf;
    TieAssigned(g, START);
    var best := Joined(x)["a"];
    assert START["a" := best] == Joined(x);
    RowAssigned(g, START, "a");
    assert x in Row(g, "a") && START[x] == best by { assert Row(g, "a") == TieRow("a"); }
    assert Neighbouring(g, START, "a", best);
    TieAtMost(g, START);
    TieAtMost(g, Joined(x));
    forall c | Neighbouring(g, START, "a", c) ensures !Improves(g, Joined(x), START["a" := c], 1.0) {
      TieAssigned(g, START["a" := c]);
      TieAtMost(g, START["a" := c]);
    }
    assert "a" in g.nodes && !StaysPut(g, START, "a", 1.0) by { assert g.nodes[0] == "a"; }
  }

  lemma JoinedIsOptimal(g: Graph, x: Node)
    requires IsTie(g) && Friend(x)
    ensures LocallyOptimal(g, Joined(x), 1.0)
  {
    hide ModularityOf;
    TieAssigned(g, Joined(x));
    TieAtMost(g, Joined(x));
    forall i, c | i in g.nodes && Neighbouring(g, Joined(x), i, c)
      ensures !Improves(g, Joined(x), Joined(x)[i := c], 1.0)
    {
      TieAssigned(g, Joined(x)[i := c]);
      TieAtMost(g, Joined(x)[i := c]);
    }
  }

  /** The first visit takes the community listed first, and nothing moves after it. */
  lemma JoinedRun(g: Graph, x: Node) returns (run: seq<Sweep>)
    requires IsTie(g) && Friend(x) && RowOrder(g, "a") == Firsts([x] + [Other(x)])
    ensures MovesTo(g, START, run, Joined(x), 1.0)
  {
    hide ModularityOf, LocallyOptimal, Takes, Chooses, RowOrder, Undirected;
    JoinedIsTaken(g, x);
    JoinedIsOptimal(g, x);
    assert START[x] == Joined(x)["a"];
    LeaderIsChosen(g, START, "a", x, [Other(x)], 1.0);
    var s, t := Sweep(START, 0, false), Sweep(Joined(x), 1, true);
    assert Visits(g, s, Joined(x)["a"], t, 1.0);
    var rest := OptimumFinishes(g, t, 1.0);
    run := FirstStep(g, s, t, rest, 1.0);
  }

  ghost function Places(x: Node): Node -> Node { SuperOf(Joined(x), NamesOf(Joined(x), 0)) }

  lemma JoinedNamed(g: Graph, x: Node)
    requires IsTie(g) && Friend(x)
    ensures Named(g, Joined(x), NamesOf(Joined(x), 0))
    ensures Places(x)("a") == Places(x)(x) && Places(x)(Other(x)) != Places(x)("a")
  {
    TieAssigned(g, Joined(x));
    NamesAreNamed(g, Joined(x), 0);
    assert "a" in TIE_NODES && "b" in TIE_NODES && "c" in TIE_NODES;
  }

  lemma StartEnumerates()
    ensures Enumerated(TIE_NODES, START)
  {
    assert TIE_NODES[0] == "a" && TIE_NODES[1] == "b" && TIE_NODES[2] == "c";
  }

  /** "a" together with x, and the other apart. */
  ghost predicate Splits(m: map<Node, Node>, x: Node) {
    Friend(x) && m.Keys == {"a", "b", "c"} && m["a"] == m[x] && m[Other(x)] != m["a"]
  }

  lemma FirstComm(g: Graph, x: Node, levels: seq<Level>)
    requires IsTie(g) && InOrder(g) && Friend(x) && RowOrder(g, "a") == Firsts([x] + [Other(x)])
    requires Climbing(g, levels, 1.0) && levels != []
    ensures levels[0].comm == Joined(x)
  {
    hide ModularityOf, Settles, Named, Moved, Begins, LevelCollapses, Chooses, RowOrder, NamesOf;
    var l := levels[0];
    FirstBegins(g, levels, 1.0);
    assert LevelAt(g, levels, 0, 1.0) && RunAt(levels, 0, 1.0);
    StartEnumerates();
    EnumeratedUnique(TIE_NODES, START, l.idx);
    var run := JoinedRun(g, x);
    MovesAgree(g, g, START, run, Joined(x), l.run, l.comm, 1.0);
  }

  lemma RunMoves(l: Level, k: nat)
    requires LevelRuns(l, k, 1.0)
    ensures Moved(l.membership, l.graph, l.comm, NamesOf(l.comm, k), l.next)
  {
    hide ModularityOf, NamesOf, InOrder, Undirected, Settles, Named, Moved, Enumerated;
  }

  lemma FirstSplits(g: Graph, x: Node, levels: seq<Level>)
    requires IsTie(g) && Friend(x) && Climbing(g, levels, 1.0) && levels != [] && levels[0].comm == Joined(x)
    ensures Splits(levels[0].next, x)
  {
    hide SuperOf, NamesOf, Undirected, TieRow, TieLoop, Named, LevelRuns, Climbing;
    FirstBegins(g, levels, 1.0);
    RunsAt(g, levels, 0, 1.0);
    RunMoves(levels[0], 0);
    JoinedNamed(g, x);
    assert "a" in TIE_NODES && "b" in TIE_NODES && "c" in TIE_NODES;
    forall n ensures n in TIE_NODES <==> n in {"a", "b", "c"} {}
  }

  // ---- its second level -----------------------------------------------------------------------

  lemma StandIn(g: Graph, cls: Node -> Node, agg: Graph, b: Assignment) returns (a: Assignment)
    requires Undirected(g) && CollapsesTo(g, cls, agg) && Assigned(agg, b)
    ensures StandsFor(g, cls, agg, b, a) && SameScore(agg, b, g, a, 1.0)
  {
    hide ModularityOf, CoverageOf;
    ExpandedStandsFor(g, cls, agg, b);
    a := Expanded(g, cls, b);
    CollapseKeepsScores(g, cls, agg, b, a, 1.0);
  }

  lemma PlacesInside(g: Graph, cls: Node -> Node, agg: Graph, n: Node)
    requires CollapsesTo(g, cls, agg) && n in g.nodes
    ensures cls(n) in agg.nodes
  {
  }

  /** Partitions of the super-nodes score what they stand for. */
  lemma SupersScore(g: Graph, x: Node, agg: Graph, b: Assignment) returns (a: Assignment)
    requires IsTie(g) && Friend(x) && CollapsesTo(g, Places(x), agg) && Assigned(agg, b)
    ensures OnTie(a) && SameScore(agg, b, g, a, 1.0)
    ensures forall n :: n in TIE_NODES ==> n in a && Places(x)(n) in agg.nodes
    ensures forall n :: n in TIE_NODES ==> Places(x)(n) in b && a[n] == b[Places(x)(n)]
  {
    hide ModularityOf, Places, Undirected, CollapsesTo;
    a := StandIn(g, Places(x), agg, b);
    forall n | n in TIE_NODES ensures Places(x)(n) in agg.nodes { PlacesInside(g, Places(x), agg, n); }
    assert "a" in TIE_NODES && "b" in TIE_NODES && "c" in TIE_NODES;
  }

  lemma SupersAtMost(g: Graph, x: Node, agg: Graph, b: Assignment)
    requires IsTie(g) && Friend(x) && CollapsesTo(g, Places(x), agg) && Assigned(agg, b)
    ensures ModularityOf(agg, b, 1.0) <= BEST
    ensures Injective(agg.nodes, b) ==> ModularityOf(agg, b, 1.0) == BEST
  {
    hide ModularityOf, Places, Undirected, CollapsesTo, IsTie;
    var a := SupersScore(g, x, agg, b);
    JoinedNamed(g, x);
    assert "a" in TIE_NODES && "b" in TIE_NODES && "c" in TIE_NODES;
    TieAtMost(g, a);
  }

  /** Apart, they are best. */
  lemma SupersOptimal(g: Graph, x: Node, agg: Graph)
    requires IsTie(g) && Friend(x) && CollapsesTo(g, Places(x), agg)
    ensures LocallyOptimal(agg, Numbering(agg.nodes), 1.0)
  {
    hide ModularityOf, SuperOf, NamesOf;
    var idx := Numbering(agg.nodes);
    EnumeratedIsInjective(agg.nodes, idx);
    SupersAtMost(g, x, agg, idx);
    forall i, c | i in agg.nodes && Neighbouring(agg, idx, i, c) ensures !Improves(agg, idx, idx[i := c], 1.0) {
      assert Assigned(agg, idx[i := c]);
      SupersAtMost(g, x, agg, idx[i := c]);
    }
  }

  /** The second level, if there is one, moves nothing and is the last. */
  lemma SecondStays(g: Graph, x: Node, levels: seq<Level>)
    requires IsTie(g) && Friend(x) && Climbing(g, levels, 1.0) && |levels| > 1 && levels[0].comm == Joined(x)
    ensures LevelRuns(levels[1], 1, 1.0) && levels[1].comm == levels[1].idx && |levels| == 2
  {
    hide ModularityOf, LevelCollapses, LevelRuns, CollapsesTo, Places, LocallyOptimal, IsTie;
    GoneOn(g, levels, 0, 1.0);
    FirstBegins(g, levels, 1.0);
    assert LevelAt(g, levels, 1, 1.0);
    assert CollapsesTo(g, Places(x), levels[1].graph) by { FirstCollapses(levels[0], x); }
    SupersOptimal(g, x, levels[1].graph);
    StaysPutAt(levels[1], 1);
    if |levels| > 2 { MustGoOn(g, levels, 1); }
  }

  lemma MustGoOn(g: Graph, levels: seq<Level>, k: nat)
    requires Climbing(g, levels, 1.0) && k < |levels| - 1
    ensures GoesOnAt(levels, k)
  {
    hide LevelAt, RunAt;
    assert GoesOnAt(levels, k);
  }

  lemma FirstCollapses(l: Level, x: Node)
    requires LevelCollapses(l, 0) && l.comm == Joined(x)
    ensures CollapsesTo(l.graph, Places(x), l.after)
  {
  }

  lemma StaysPutAt(l: Level, k: nat)
    requires LevelRuns(l, k, 1.0) && Distinct(l.graph.nodes) && LocallyOptimal(l.graph, Numbering(l.graph.nodes), 1.0)
    ensures !l.improved && l.comm == l.idx
  {
    hide ModularityOf, LocallyOptimal, NamesOf, InOrder;
    EnumeratedUnique(l.graph.nodes, l.idx, Numbering(l.graph.nodes));
  }

  /** What was together stays together, and what was apart stays apart. */
  lemma SecondKeeps(base: Graph, l: Level, k: nat, u: Node, v: Node)
    requires LevelRuns(l, k, 1.0) && l.comm == l.idx && Routed(base, l.membership, l.graph)
    requires u in base.nodes && v in base.nodes
    ensures u in l.membership && v in l.membership && l.next.Keys == l.membership.Keys
    ensures l.next[u] == l.next[v] <==> l.membership[u] == l.membership[v]
  {
    hide ModularityOf, NamesOf, InOrder, LocallyOptimal;
    MovedGroups(base, l.membership, l.graph, l.comm, NamesOf(l.comm, k), l.next, u, v);
    EnumeratedIsInjective(l.graph.nodes, l.idx);
  }

  lemma SecondSplits(g: Graph, x: Node, levels: seq<Level>)
    requires IsTie(g) && Friend(x) && Climbing(g, levels, 1.0) && |levels| == 2
    requires LevelRuns(levels[1], 1, 1.0) && levels[1].comm == levels[1].idx && Splits(levels[0].next, x)
    ensures Splits(levels[1].next, x)
  {
    hide LevelRuns, LevelCollapses, ModularityOf, Faithful, Undirected, TieRow, TieLoop;
    GoneOn(g, levels, 0, 1.0);
    LevelsAreFaithful(g, levels, 1, 1.0);
    assert "a" in TIE_NODES && "b" in TIE_NODES && "c" in TIE_NODES;
    SecondKeeps(g, levels[1], 1, "a", x);
    SecondKeeps(g, levels[1], 1, "a", Other(x));
  }

  // ---- the outcomes -----------------------------------------------------------------------------

  lemma SplitIndex(m: map<Node, Node>, x: Node, a: Assignment)
    requires Splits(m, x) && Indexed(m, a)
    ensures a.Keys == {"a", "b", "c"} && a["a"] == a[x] && a[Other(x)] != a["a"]
  {
    var names :| IndexedBy(names, m, a);
    IndexedFacts(names, m, a);
  }

  lemma LastSplits(g: Graph, x: Node, levels: seq<Level>)
    requires Community.GraphOf(g, TIE_NODES, TieEdges(x)) && Friend(x) && Climbing(g, levels, 1.0) && levels != []
    ensures Splits(levels[|levels| - 1].next, x)
  {
    hide Climbing, IsTie, Splits, LevelRuns, RowOrder, Community.GraphOf;
    TieGraph(g, x);
    FirstComm(g, x, levels);
    FirstSplits(g, x, levels);
    if |levels| > 1 {
      SecondStays(g, x, levels);
      SecondSplits(g, x, levels);
    }
  }

  /** With the edge to x listed first, "a" is put together with x, at any number of levels. */
  lemma TieOutcome(g: Graph, x: Node, levels: seq<Level>, a: Assignment, maxLevels: int)
    requires Community.GraphOf(g, TIE_NODES, TieEdges(x)) && Friend(x) && maxLevels >= 1
    requires Detected(g, levels, a, maxLevels, 1.0)
    ensures a.Keys == {"a", "b", "c"} && a["a"] == a[x] && a[Other(x)] != a["a"]
  {
    hide Climbing, Splits, Indexed;
    assert g.nodes != [] by { assert TIE_NODES[0] in g.nodes; }
    LastSplits(g, x, levels);
    var m :| EndsAt(g, levels, m) && Indexed(m, a);
    SplitIndex(m, x, a);
  }

  lemma SameTie()
    ensures multiset(TieEdges("b")) == multiset(TieEdges("c"))
  {
  }

  /** The same nodes and edges, listed in two orders: two outcomes, at any number of levels. */
  method TwoOutcomes(maxLevels: int)
    returns (a: Assignment, b: Assignment, ghost g: Graph, ghost up: seq<Level>, ghost h: Graph, ghost down: seq<Level>)
    requires maxLevels >= 1
    ensures var e, f := [Edge("a", "b", 1.0), Edge("a", "c", 1.0), Edge("b", "b", 1.0), Edge("c", "c", 1.0)],
                        [Edge("a", "c", 1.0), Edge("a", "b", 1.0), Edge("b", "b", 1.0), Edge("c", "c", 1.0)];
      multiset(e) == multiset(f) &&
      Community.GraphOf(g, ["a", "b", "c"], e) && Detected(g, up, a, maxLevels, 1.0) &&
      Community.GraphOf(h, ["a", "b", "c"], f) && Detected(h, down, b, maxLevels, 1.0)
    ensures a.Keys == b.Keys == {"a", "b", "c"}
    ensures a["a"] == a["b"] != a["c"] && b["a"] == b["c"] != b["b"]
  {
    hide Detected, Community.GraphOf;
    SameTie();
    var count, q, cover;
    a, count, q, cover, g, up := Detect(TIE_NODES, TieEdges("b"), 1.0, maxLevels);
    TieOutcome(g, "b", up, a, maxLevels);
    b, count, q, cover, h, down := Detect(TIE_NODES, TieEdges("c"), 1.0, maxLevels);
    TieOutcome(h, "c", down, b, maxLevels);
  }
}
