/** How far the base detector is deterministic. One listing of a graph has one outcome. Another
    listing of the same graph leads the local moves to the same run, whatever the listing, exactly
    when no visit of that run meets a tie; and where the detection meets none the communities do not
    depend on the listing. */
module Choices {
  import opened Ordering
  import opened Refinement
  import opened Adjacency
  import opened Modularity
  import opened Sums
  import opened Mnemosyne
  import opened Aggregation
  import opened Levels
  import Community
  import M = Matrices

  // ---- ties ---------------------------------------------------------------------------------

  /** Two neighbouring communities, neither the node's own, with equal greatest gain above staying. */
  ghost predicate Rivals(g: Graph, comm: Assignment, i: Node, b: int, c: int, resolution: real)
    requires Assigned(g, comm) && i in g.nodes && TotalWeightOf(g) > 0.0
  {
    b != c && b != comm[i] && c != comm[i] && Neighbouring(g, comm, i, b) && Neighbouring(g, comm, i, c) &&
    MoveGain(g, comm, i, b, resolution) == MoveGain(g, comm, i, c, resolution) &&
    MoveGain(g, comm, i, b, resolution) > MoveGain(g, comm, i, comm[i], resolution) &&
    forall d :: Neighbouring(g, comm, i, d) ==>
      MoveGain(g, comm, i, d, resolution) <= MoveGain(g, comm, i, b, resolution)
  }

  /** The next visit meets a tie. */
  ghost predicate Tied(g: Graph, s: Sweep, resolution: real) {
    TotalWeightOf(g) > 0.0 && s.visited < |g.nodes| && Assigned(g, s.comm) &&
    exists b, c :: Rivals(g, s.comm, g.nodes[s.visited], b, c, resolution)
  }

  ghost predicate Untied(g: Graph, run: seq<Sweep>, resolution: real) {
    forall t :: 0 <= t < |run| ==> !Tied(g, run[t], resolution)
  }

  lemma WeightlessScores(g: Graph, a: Assignment, b: Assignment, resolution: real)
    requires TotalWeightOf(g) <= 0.0
    ensures !Improves(g, a, b, resolution)
  {
  }

  /** Only rivals can both be best. */
  lemma BothBestAreRivals(g: Graph, comm: Assignment, i: Node, b: int, c: int, resolution: real)
    requires Undirected(g) && Assigned(g, comm) && i in g.nodes && b != c
    requires Takes(g, comm, i, b, resolution) && Takes(g, comm, i, c, resolution)
    ensures TotalWeightOf(g) > 0.0 && Rivals(g, comm, i, b, c, resolution)
  {
    hide ModularityOf;
    assert comm[i := comm[i]] == comm;
    assert b != comm[i] && c != comm[i] && Improves(g, comm, comm[i := b], resolution);
    if TotalWeightOf(g) <= 0.0 { WeightlessScores(g, comm, comm[i := b], resolution); }
    GreaterGainWins(g, comm, i, b, c, resolution);
    GreaterGainWins(g, comm, i, c, b, resolution);
    GreaterGainWins(g, comm, i, comm[i], b, resolution);
    forall d | Neighbouring(g, comm, i, d)
      ensures MoveGain(g, comm, i, d, resolution) <= MoveGain(g, comm, i, b, resolution)
    {
      GreaterGainWins(g, comm, i, b, d, resolution);
    }
  }

  /** And rivals are. */
  lemma RivalsAreBest(g: Graph, comm: Assignment, i: Node, b: int, c: int, resolution: real)
    requires Undirected(g) && Assigned(g, comm) && i in g.nodes && TotalWeightOf(g) > 0.0
    requires Rivals(g, comm, i, b, c, resolution)
    ensures Takes(g, comm, i, b, resolution) && Takes(g, comm, i, c, resolution)
  {
    hide ModularityOf;
    assert comm[i := comm[i]] == comm;
    GreaterGainWins(g, comm, i, comm[i], b, resolution);
    GreaterGainWins(g, comm, i, comm[i], c, resolution);
    forall d | Neighbouring(g, comm, i, d)
      ensures !Improves(g, comm[i := b], comm[i := d], resolution)
      ensures !Improves(g, comm[i := c], comm[i := d], resolution)
    {
      GreaterGainWins(g, comm, i, b, d, resolution);
      GreaterGainWins(g, comm, i, c, d, resolution);
    }
  }

  // ---- the same run on the same graph -----------------------------------------------------------

  /** Graphs that differ in nothing but empty rows and the order of rows. */
  ghost predicate Comparable(g: Graph, h: Graph) {
    Undirected(g) && Undirected(h) && InOrder(g) && InOrder(h) && Alike(g, h)
  }

  /** And not in the order of rows. */
  ghost predicate Twins(g: Graph, h: Graph) {
    Alike(g, h) && forall n :: RowOrder(g, n) == RowOrder(h, n)
  }

  lemma AlikeImproves(g: Graph, h: Graph, a: Assignment, b: Assignment, resolution: real)
    requires Comparable(g, h) && Assigned(g, a) && Assigned(g, b)
    ensures Improves(g, a, b, resolution) <==> Improves(h, a, b, resolution)
  {
    AlikeScores(g, h, a, resolution);
    AlikeScores(g, h, b, resolution);
  }

  lemma AlikeTakes(g: Graph, h: Graph, comm: Assignment, i: Node, best: int, resolution: real)
    requires Comparable(g, h) && Assigned(g, comm) && Assigned(h, comm) && i in comm
    ensures Takes(g, comm, i, best, resolution) <==> Takes(h, comm, i, best, resolution)
  {
    hide Undirected, InOrder, ModularityOf;
    forall c ensures Neighbouring(h, comm, i, c) <==> Neighbouring(g, comm, i, c) { RowAssigned(g, comm, i); }
    AlikeImproves(g, h, comm, comm[i := best], resolution);
    forall c | Neighbouring(g, comm, i, c)
      ensures Improves(g, comm[i := best], comm[i := c], resolution) <==>
              Improves(h, comm[i := best], comm[i := c], resolution)
    {
      AlikeImproves(g, h, comm[i := best], comm[i := c], resolution);
    }
  }

  /** One is met before the other, and then it is the one chosen. */
  lemma TwinsChoose(g: Graph, h: Graph, comm: Assignment, i: Node, b: int, c: int, resolution: real)
    requires Comparable(g, h) && Twins(g, h) && Assigned(g, comm) && Assigned(h, comm) && i in comm
    requires Chooses(g, comm, i, b, resolution) && Chooses(h, comm, i, c, resolution)
    ensures b == c
  {
    hide ModularityOf, ClassOrder, Undirected, InOrder, Alike;
    AlikeTakes(g, h, comm, i, b, resolution);
    AlikeTakes(g, h, comm, i, c, resolution);
    assert comm[i := comm[i]] == comm;
    if b != c {
      OrderIsNeighbours(g, comm, i, b);
      OrderIsNeighbours(g, comm, i, c);
      SameClassOrder(g, h, comm, i);
      OnePrecedes(ClassOrder(g, comm, i), b, c);
      AlikeImproves(g, h, comm[i := b], comm[i := c], resolution);
      AlikeImproves(g, h, comm[i := c], comm[i := b], resolution);
    }
  }

  lemma SameClassOrder(g: Graph, h: Graph, comm: Assignment, i: Node)
    requires Twins(g, h)
    ensures ClassOrder(g, comm, i) == ClassOrder(h, comm, i)
  {
  }

  lemma UntiedChoose(g: Graph, h: Graph, s: Sweep, b: int, c: int, resolution: real)
    requires Comparable(g, h) && s.visited < |g.nodes| && Assigned(g, s.comm) && Assigned(h, s.comm)
    requires g.nodes[s.visited] in s.comm && !Tied(g, s, resolution)
    requires Chooses(g, s.comm, g.nodes[s.visited], b, resolution)
    requires Chooses(h, s.comm, g.nodes[s.visited], c, resolution)
    ensures b == c
  {
    hide Undirected, InOrder, ModularityOf, Improves, Neighbouring, Alike, Rivals;
    AlikeTakes(g, h, s.comm, g.nodes[s.visited], c, resolution);
    if b != c { BothBestAreRivals(g, s.comm, g.nodes[s.visited], b, c, resolution); }
  }

  /** On the same graph the next step is the same, unless it meets a tie and the rows are ordered
      otherwise. */
  lemma StepAgrees(g: Graph, h: Graph, s: Sweep, t: Sweep, u: Sweep, resolution: real)
    requires Comparable(g, h) && Steps(g, s, t, resolution) && Steps(h, s, u, resolution)
    requires Twins(g, h) || !Tied(g, s, resolution)
    ensures t == u
  {
    hide Undirected, InOrder, Chooses, Tied;
    if s.visited < |g.nodes| {
      var b :| Visits(g, s, b, t, resolution);
      var c :| Visits(h, s, c, u, resolution);
      if Twins(g, h) {
        TwinsChoose(g, h, s.comm, g.nodes[s.visited], b, c, resolution);
      } else {
        UntiedChoose(g, h, s, b, c, resolution);
      }
    }
  }

  lemma {:induction false} PrefixAgrees(g: Graph, h: Graph, run: seq<Sweep>, other: seq<Sweep>, resolution: real,
                                        k: nat)
    requires Comparable(g, h) && Running(g, run, resolution) && Running(h, other, resolution) && run[0] == other[0]
    requires Twins(g, h) || forall t :: 0 <= t < k && t < |run| ==> !Tied(g, run[t], resolution)
    requires k < |run| && k < |other|
    ensures run[k] == other[k]
  {
    hide Comparable, Twins, Tied, Steps;
    if k > 0 {
      PrefixAgrees(g, h, run, other, resolution, k - 1);
      assert StepAt(g, run, k - 1, resolution);
      assert StepAt(h, other, k - 1, resolution);
      StepAgrees(g, h, run[k - 1], run[k], other[k], resolution);
    }
  }

  lemma EndedStops(g: Graph, run: seq<Sweep>, k: nat, resolution: real)
    requires Running(g, run, resolution) && k < |run| - 1
    ensures !Ended(g, run[k])
  {
    assert StepAt(g, run, k, resolution);
  }

  lemma RunsAgree(g: Graph, h: Graph, s: Sweep, run: seq<Sweep>, other: seq<Sweep>, resolution: real)
    requires Comparable(g, h) && Finishes(g, s, run, resolution) && Finishes(h, s, other, resolution)
    requires Twins(g, h) || Untied(g, run, resolution)
    ensures other == run
  {
    hide Twins, Tied, Undirected, InOrder;
    var k := if |run| < |other| then |run| - 1 else |other| - 1;
    PrefixAgrees(g, h, run, other, resolution, k);
    if |run| < |other| { EndedStops(h, other, k, resolution); }
    if |other| < |run| { EndedStops(g, run, k, resolution); }
    forall j | 0 <= j < |run| ensures run[j] == other[j] { PrefixAgrees(g, h, run, other, resolution, j); }
  }

  lemma MovesAgree(g: Graph, h: Graph, comm0: Assignment, run: seq<Sweep>, a: Assignment, other: seq<Sweep>,
                   b: Assignment, resolution: real)
    requires Comparable(g, h) && (Twins(g, h) || Untied(g, run, resolution))
    requires MovesTo(g, comm0, run, a, resolution) && MovesTo(h, comm0, other, b, resolution)
    ensures run == other && a == b
  {
    RunsAgree(g, h, Sweep(comm0, 0, false), run, other, resolution);
  }

  // ---- there is a run ---------------------------------------------------------------------------

  /** The first of the best communities along the order. */
  lemma {:induction false} FirstAmong(g: Graph, comm: Assignment, i: Node, order: seq<int>, resolution: real)
    returns (best: int, p: nat)
    requires Assigned(g, comm) && i in comm && forall c :: c in order ==> Neighbouring(g, comm, i, c)
    ensures best == comm[i] || (p < |order| && order[p] == best && Improves(g, comm, comm[i := best], resolution))
    ensures best == comm[i] ||
      forall q :: 0 <= q < p ==> Improves(g, comm[i := order[q]], comm[i := best], resolution)
    ensures forall c :: c in order ==> !Improves(g, comm[i := best], comm[i := c], resolution)
  {
    hide ModularityOf, ValidGraph, Neighbouring;
    assert comm[i := comm[i]] == comm;
    best, p := comm[i], 0;
    if order != [] {
      var front, c := order[..|order| - 1], order[|order| - 1];
      assert order == front + [c] && c in order;
      best, p := FirstAmong(g, comm, i, front, resolution);
      if Improves(g, comm[i := best], comm[i := c], resolution) {
        forall d | d in front ensures Improves(g, comm[i := d], comm[i := c], resolution) {
          assert d in order && Assigned(g, comm[i := d]) by { MovedAssigned(g, comm, i, d); }
        }
        forall q | 0 <= q < |front| ensures Improves(g, comm[i := order[q]], comm[i := c], resolution) {
          assert front[q] in front;
        }
        best, p := c, |front|;
      }
    }
  }

  lemma MovedAssigned(g: Graph, comm: Assignment, i: Node, c: int)
    requires Assigned(g, comm)
    ensures Assigned(g, comm[i := c])
  {
  }

  lemma SomeChosen(g: Graph, comm: Assignment, i: Node, resolution: real) returns (best: int)
    requires InOrder(g) && Assigned(g, comm) && i in comm
    ensures Chooses(g, comm, i, best, resolution)
  {
    hide ModularityOf, ClassOrder, InOrder;
    var order := ClassOrder(g, comm, i);
    assert Distinct(order) by { ClassOrderDistinct(g, comm, i); }
    forall c ensures c in order <==> Neighbouring(g, comm, i, c) { OrderIsNeighbours(g, comm, i, c); }
    var p;
    best, p := FirstAmong(g, comm, i, order, resolution);
  }

  lemma ClassOrderDistinct(g: Graph, comm: Assignment, i: Node)
    ensures Distinct(ClassOrder(g, comm, i))
  {
  }

  lemma TakenIsLabel(g: Graph, labels: set<int>, comm: Assignment, i: Node, best: int, resolution: real)
    requires Assigned(g, comm) && Labelled(g.nodes, labels, comm) && i in g.nodes && Takes(g, comm, i, best, resolution)
    ensures Labelled(g.nodes, labels, comm[i := best])
  {
    if best != comm[i] { NeighbourIsNode(g, comm, i, best); }
  }

  /** The sweeps can be continued to their end from anywhere. */
  lemma Continues(g: Graph, labels: set<int>, s: Sweep, resolution: real) returns (run: seq<Sweep>)
    requires InOrder(g) && Assigned(g, s.comm) && Labelled(g.nodes, labels, s.comm) && s.visited <= |g.nodes|
    ensures Finishes(g, s, run, resolution)
    decreases |Above(Scores(g, labels, resolution), ModularityOf(g, s.comm, resolution))|, s.changed,
              |g.nodes| - s.visited
  {
    if s.visited < |g.nodes| {
      var i := g.nodes[s.visited];
      assert i in g.nodes;
      var best := SomeChosen(g, s.comm, i, resolution);
      TakenIsLabel(g, labels, s.comm, i, best, resolution);
      var t := Sweep(s.comm[i := best], s.visited + 1, s.changed || best != s.comm[i]);
      if best != s.comm[i] {
        ImprovementDescends(g, labels, s.comm, t.comm, resolution);
      } else {
        assert t.comm == s.comm;
      }
      var rest := Continues(g, labels, t, resolution);
      assert Visits(g, s, best, t, resolution);
      run := FirstStep(g, s, t, rest, resolution);
    } else if s.changed {
      var rest := Continues(g, labels, Sweep(s.comm, 0, false), resolution);
      run := FirstStep(g, s, Sweep(s.comm, 0, false), rest, resolution);
    } else {
      run := [s];
    }
  }

  lemma StepLabelled(g: Graph, labels: set<int>, s: Sweep, t: Sweep, resolution: real)
    requires Assigned(g, s.comm) && Labelled(g.nodes, labels, s.comm) && Steps(g, s, t, resolution)
    ensures Assigned(g, t.comm) && Labelled(g.nodes, labels, t.comm) && t.visited <= |g.nodes|
  {
    if s.visited < |g.nodes| {
      var best :| Visits(g, s, best, t, resolution);
      assert g.nodes[s.visited] in g.nodes;
      TakenIsLabel(g, labels, s.comm, g.nodes[s.visited], best, resolution);
    }
  }

  lemma {:induction false} RunLabelled(g: Graph, labels: set<int>, run: seq<Sweep>, resolution: real, k: nat)
    requires Running(g, run, resolution) && Assigned(g, run[0].comm) && Labelled(g.nodes, labels, run[0].comm)
    requires k < |run| && run[0].visited <= |g.nodes|
    ensures Assigned(g, run[k].comm) && Labelled(g.nodes, labels, run[k].comm) && run[k].visited <= |g.nodes|
  {
    if k > 0 {
      RunLabelled(g, labels, run, resolution, k - 1);
      assert StepAt(g, run, k - 1, resolution);
      StepLabelled(g, labels, run[k - 1], run[k], resolution);
    }
  }

  // ---- another listing ----------------------------------------------------------------------------

  lemma {:induction false} KeptJoined(a: seq<Edge>, b: seq<Edge>, present: set<Node>)
    ensures Community.Kept(a + b, present) == Community.Kept(a, present) + Community.Kept(b, present)
  {
    if b == [] {
      assert a + b == a;
    } else {
      assert (a + b)[..|a + b| - 1] == a + b[..|b| - 1];
      KeptJoined(a, b[..|b| - 1], present);
    }
  }

  lemma {:induction false} OtherEndsJoined(a: seq<Edge>, b: seq<Edge>, u: Node)
    ensures Community.OtherEnds(a + b, u) == Community.OtherEnds(a, u) + Community.OtherEnds(b, u)
  {
    if b == [] {
      assert a + b == a;
    } else {
      assert (a + b)[..|a + b| - 1] == a + b[..|b| - 1];
      OtherEndsJoined(a, b[..|b| - 1], u);
    }
  }

  lemma OneEdge(e: Edge, present: set<Node>, u: Node, v: Node)
    requires e.u in present && e.v in present && e.w > 0.0 && Joins(e, u, v)
    ensures Community.Kept([e], present) == [e] && Community.OtherEnds([e], u) == [v]
  {
    assert [e][..0] == [] && Community.Kept([], present) == [] && Community.OtherEnds([], u) == [];
  }

  /** The edge listed first leads the rows of its ends. */
  lemma FirstEdgeLeads(e: Edge, rest: seq<Edge>, present: set<Node>, u: Node, v: Node)
    requires e.u in present && e.v in present && e.w > 0.0 && Joins(e, u, v)
    ensures Community.OtherEnds(Community.Kept([e] + rest, present), u)
         == [v] + Community.OtherEnds(Community.Kept(rest, present), u)
  {
    hide Community.Kept, Community.OtherEnds;
    OneEdge(e, present, u, v);
    KeptJoined([e], rest, present);
    OtherEndsJoined([e], Community.Kept(rest, present), u);
  }

  lemma ArcHasEdge(nodes: seq<Node>, edges: seq<Edge>, g: Graph, u: Node, v: Node) returns (p: nat)
    requires Community.GraphOf(g, nodes, edges) && v in Row(g, u)
    ensures p < |edges| && edges[p].u in nodes && edges[p].v in nodes && edges[p].w > 0.0 && Joins(edges[p], u, v)
  {
    var present := set x | x in nodes;
    var kept := Community.Kept(edges, present);
    assert Has(g.adj, u, v) && Weight(kept, u, v) > 0.0;
    WeightSigns(kept, u, v);
    LinkedEitherWay(kept, u, v);
    var i :| 0 <= i < |kept| && kept[i].w > 0.0 &&
      ((kept[i].u == u && kept[i].v == v) || (kept[i].u == v && kept[i].v == u));
    Community.KeptEdges(edges, present, i);
    p :| 0 <= p < |edges| && edges[p] == kept[i];
  }

  ghost function Fronted(edges: seq<Edge>, p: nat): seq<Edge>
    requires p < |edges|
  {
    [edges[p]] + (edges[..p] + edges[p + 1..])
  }

  lemma FrontedShuffles(edges: seq<Edge>, p: nat)
    requires p < |edges|
    ensures multiset(Fronted(edges, p)) == multiset(edges)
  {
    assert edges == edges[..p] + [edges[p]] + edges[p + 1..];
  }

  lemma {:induction false} SomeRows(edges: seq<Edge>, present: set<Node>)
    returns (adj: Neighbours, order: Orders, loops: map<Node, real>)
    ensures Community.Built(adj, loops, Community.Kept(edges, present))
    ensures Community.ListedAs(order, Community.Kept(edges, present))
  {
    adj, order, loops := map[], map[], map[];
    if edges != [] {
      var front, e := edges[..|edges| - 1], edges[|edges| - 1];
      adj, order, loops := SomeRows(front, present);
      var kept := Community.Kept(front, present);
      assert kept + [] == kept;
      if e.u in present && e.v in present && e.w > 0.0 {
        Community.BuiltOneMore(adj, loops, kept, e);
        Community.ListedOneMore(order, kept, e);
        if e.u == e.v {
          loops := loops[e.u := (if e.u in loops then loops[e.u] else 0.0) + e.w];
        } else {
          adj := AddArc(AddArc(adj, e.u, e.v, e.w), e.v, e.u, e.w);
          order := AddKey(AddKey(order, e.u, e.v), e.v, e.u);
        }
      }
    }
  }

  /** Every listing has its graph. */
  lemma SomeGraph(nodes: seq<Node>, edges: seq<Edge>, names: seq<Node>) returns (g: Graph)
    requires (forall i, j :: 0 <= i < j < |names| ==> Before(names[i], names[j]))
    requires forall x :: x in names <==> x in nodes
    ensures Community.GraphOf(g, nodes, edges) && g.nodes == names
  {
    var present := set x | x in nodes;
    var adj, order, loops := SomeRows(edges, present);
    g := Graph(names, adj, order, loops);
    forall i, j | 0 <= i < j < |names| ensures names[i] != names[j] { BeforeTotal(names[i], names[j]); }
    Community.BuiltIsValid(g, edges, present);
  }

  // ---- listings of one graph ------------------------------------------------------------------------

  /** A graph is determined by its arcs and loops. */
  lemma SameArcsAlike(a: Graph, b: Graph)
    requires Undirected(a) && Undirected(b) && a.nodes == b.nodes
    requires forall l, k :: l in a.nodes && k in a.nodes ==> Get(a.adj, l, k) == Get(b.adj, l, k)
    requires forall l :: l in a.nodes ==> Loop(a, l) == Loop(b, l)
    ensures Alike(a, b)
  {
    forall n ensures Row(a, n) == Row(b, n) && Loop(a, n) == Loop(b, n) {
      forall v ensures (v in Row(a, n) <==> v in Row(b, n)) && (v in Row(a, n) ==> Row(a, n)[v] == Row(b, n)[v]) {
        ArcEnds(a, n, v);
        ArcEnds(b, n, v);
      }
    }
  }

  lemma ArcEnds(g: Graph, u: Node, v: Node)
    requires Undirected(g)
    ensures v in Row(g, u) <==> Get(g.adj, u, v) > 0.0
    ensures v in Row(g, u) ==> u in g.nodes && v in g.nodes && Row(g, u)[v] == Get(g.adj, u, v)
  {
    assert v in Row(g, u) <==> Has(g.adj, u, v);
    assert Get(g.adj, u, v) == Get(g.adj, v, u);
  }

  ghost function ArcPart(present: set<Node>, u: Node, v: Node): Edge -> real {
    (e: Edge) => if e.u in present && e.v in present && e.w > 0.0 && Joins(e, u, v) then e.w else 0.0
  }

  ghost function LoopPart(present: set<Node>, u: Node): Edge -> real {
    (e: Edge) => if e.u in present && e.v in present && e.w > 0.0 && e.u == e.v == u then e.w else 0.0
  }

  lemma {:induction false} KeptWeight(edges: seq<Edge>, present: set<Node>, u: Node, v: Node)
    ensures Weight(Community.Kept(edges, present), u, v) == Sigma(edges, ArcPart(present, u, v))
    ensures Community.LoopWeight(Community.Kept(edges, present), u) == Sigma(edges, LoopPart(present, u))
  {
    if edges != [] {
      var front, e := edges[..|edges| - 1], edges[|edges| - 1];
      KeptWeight(front, present, u, v);
      var kept := Community.Kept(front, present);
      assert (kept + [e])[..|kept|] == kept;
      if e.u in present && e.v in present && e.w > 0.0 {
        assert Community.Kept(edges, present) == kept + [e];
      } else {
        assert Community.Kept(edges, present) == kept;
      }
    }
  }

  ghost predicate SameWeight(edges: seq<Edge>, listed: seq<Edge>, present: set<Node>, u: Node, v: Node) {
    Weight(Community.Kept(edges, present), u, v) == Weight(Community.Kept(listed, present), u, v) &&
    Community.LoopWeight(Community.Kept(edges, present), u) == Community.LoopWeight(Community.Kept(listed, present), u)
  }

  /** The edges put the same weight between any two of these nodes, and on each. */
  ghost predicate SameWeights(edges: seq<Edge>, listed: seq<Edge>, present: set<Node>) {
    forall u, v :: SameWeight(edges, listed, present, u, v)
  }

  ghost function NodeSet(nodes: seq<Node>): set<Node> { set x | x in nodes }

  lemma ListingsComparable(nodes: seq<Node>, edges: seq<Edge>, names: seq<Node>, listed: seq<Edge>, g: Graph, h: Graph)
    requires (forall x :: x in nodes <==> x in names) && SameWeights(edges, listed, NodeSet(nodes))
    requires Community.GraphOf(g, nodes, edges) && Community.GraphOf(h, names, listed)
    ensures Comparable(g, h)
  {
    var present := NodeSet(nodes);
    assert present == NodeSet(names);
    var kept, other := Community.Kept(edges, present), Community.Kept(listed, present);
    BuiltIsUndirected(g, kept);
    BuiltIsUndirected(h, other);
    Community.GraphIsInOrder(g, edges, present);
    Community.GraphIsInOrder(h, listed, present);
    AscendingUnique(g.nodes, h.nodes);
    forall l ensures Loop(g, l) == Loop(h, l) {
      assert Loop(g, l) == Community.LoopWeight(kept, l) && Loop(h, l) == Community.LoopWeight(other, l);
      assert SameWeight(edges, listed, present, l, l);
    }
    forall l, k ensures Get(g.adj, l, k) == Get(h.adj, l, k) { assert SameWeight(edges, listed, present, l, k); }
    SameArcsAlike(g, h);
  }

  /** Reordered edges. */
  lemma ShuffledWeights(edges: seq<Edge>, shuffled: seq<Edge>, present: set<Node>)
    requires multiset(edges) == multiset(shuffled)
    ensures SameWeights(edges, shuffled, present)
  {
    forall u, v ensures SameWeight(edges, shuffled, present, u, v) {
      KeptWeight(edges, present, u, v);
      KeptWeight(shuffled, present, u, v);
      SigmaPermuted(edges, shuffled, ArcPart(present, u, v));
      SigmaPermuted(edges, shuffled, LoopPart(present, u));
    }
  }

  /** An edge split into two, one of them turned around. */
  lemma SplitWeights(before: seq<Edge>, u: Node, v: Node, w1: real, w2: real, after: seq<Edge>, present: set<Node>)
    requires w1 > 0.0 && w2 > 0.0
    ensures SameWeights(before + [Edge(u, v, w1 + w2)] + after, before + [Edge(u, v, w1), Edge(v, u, w2)] + after,
                        present)
  {
    var one, two := [Edge(u, v, w1 + w2)], [Edge(u, v, w1), Edge(v, u, w2)];
    forall x, y ensures SameWeight(before + one + after, before + two + after, present, x, y) {
      KeptWeight(before + one + after, present, x, y);
      KeptWeight(before + two + after, present, x, y);
      SigmaReplaced(before, u, v, w1, w2, after, ArcPart(present, x, y));
      SigmaReplaced(before, u, v, w1, w2, after, LoopPart(present, x));
    }
  }

  lemma SigmaReplaced(before: seq<Edge>, u: Node, v: Node, w1: real, w2: real, after: seq<Edge>, f: Edge -> real)
    requires f(Edge(u, v, w1 + w2)) == f(Edge(u, v, w1)) + f(Edge(v, u, w2))
    ensures Sigma(before + [Edge(u, v, w1 + w2)] + after, f)
         == Sigma(before + [Edge(u, v, w1), Edge(v, u, w2)] + after, f)
  {
    var one, two := [Edge(u, v, w1 + w2)], [Edge(u, v, w1), Edge(v, u, w2)];
    SigmaJoins(before + one, after, f);
    SigmaJoins(before + two, after, f);
    SigmaJoins(before, one, f);
    SigmaJoins(before, two, f);
    assert one[..0] == [] && two[..1] == [Edge(u, v, w1)] && two[..1][..0] == [];
    assert Sigma(two[..1], f) == f(Edge(u, v, w1));
  }

  // ---- the run of a listing ---------------------------------------------------------------------------

  /** A whole run of the local moves on the graph of a listing. */
  ghost predicate RunsOn(nodes: seq<Node>, edges: seq<Edge>, g: Graph, comm0: Assignment, run: seq<Sweep>,
                         resolution: real)
  {
    Community.GraphOf(g, nodes, edges) && Finishes(g, Sweep(comm0, 0, false), run, resolution)
  }

  lemma ListingFixesOrder(nodes: seq<Node>, edges: seq<Edge>, g: Graph, h: Graph)
    requires Community.GraphOf(g, nodes, edges) && Community.GraphOf(h, nodes, edges)
    ensures Comparable(g, h) && Twins(g, h)
  {
    ListingsComparable(nodes, edges, nodes, edges, g, h);
    var kept := Community.Kept(edges, NodeSet(nodes));
    forall n ensures RowOrder(g, n) == RowOrder(h, n) {
      assert OrderAt(g.order, n) == Firsts(Community.OtherEnds(kept, n)) == OrderAt(h.order, n);
    }
  }

  /** One listing, one run. */
  lemma ListingFixesRun(nodes: seq<Node>, edges: seq<Edge>, g: Graph, h: Graph, comm0: Assignment, run: seq<Sweep>,
                        other: seq<Sweep>, resolution: real)
    requires RunsOn(nodes, edges, g, comm0, run, resolution) && RunsOn(nodes, edges, h, comm0, other, resolution)
    ensures other == run
  {
    ListingFixesOrder(nodes, edges, g, h);
    RunsAgree(g, h, Sweep(comm0, 0, false), run, other, resolution);
  }

  lemma ShuffledRunsAgree(nodes: seq<Node>, edges: seq<Edge>, shuffled: seq<Edge>, g: Graph, h: Graph,
                          comm0: Assignment, run: seq<Sweep>, other: seq<Sweep>, resolution: real)
    requires multiset(shuffled) == multiset(edges) && Untied(g, run, resolution)
    requires RunsOn(nodes, edges, g, comm0, run, resolution) && RunsOn(nodes, shuffled, h, comm0, other, resolution)
    ensures other == run
  {
    ShuffledWeights(edges, shuffled, NodeSet(nodes));
    ListingsComparable(nodes, edges, nodes, shuffled, g, h);
    RunsAgree(g, h, Sweep(comm0, 0, false), run, other, resolution);
  }

  /** At a tie there is a neighbour in another best community than the one taken. */
  lemma RivalNeighbour(g: Graph, s: Sweep, next: Sweep, resolution: real) returns (i: Node, j: Node)
    requires Undirected(g) && Tied(g, s, resolution) && Steps(g, s, next, resolution)
    ensures i == g.nodes[s.visited] && j in Row(g, i) && j in s.comm
    ensures i in next.comm && next.comm[i] != s.comm[j] && s.comm[j] != s.comm[i]
    ensures Takes(g, s.comm, i, s.comm[j], resolution)
  {
    hide ModularityOf, Takes, Chooses;
    i := g.nodes[s.visited];
    var b, c :| Rivals(g, s.comm, i, b, c, resolution);
    assert Rivals(g, s.comm, i, c, b, resolution);
    var d :| Visits(g, s, d, next, resolution);
    var e := if b == d then c else b;
    RivalsAreBest(g, s.comm, i, b, c, resolution);
    RowAssigned(g, s.comm, i);
    assert Neighbouring(g, s.comm, i, e);
    j :| j in Row(g, i) && s.comm[j] == e;
  }

  /** Where a row is led by a node in a best community, that community is taken. */
  lemma LeaderIsChosen(g: Graph, comm: Assignment, i: Node, j: Node, rest: seq<Node>, resolution: real)
    requires Assigned(g, comm) && i in comm && j in comm && Takes(g, comm, i, comm[j], resolution)
    requires RowOrder(g, i) == Firsts([j] + rest)
    ensures Chooses(g, comm, i, comm[j], resolution)
  {
    FirstsHead([j] + rest);
    var labels := LabelsAlong(RowOrder(g, i), comm);
    assert labels != [] && labels[0] == comm[j];
    FirstsHead(labels);
    forall c ensures !Precedes(ClassOrder(g, comm, i), c, comm[j]) {}
  }

  /** So a run cannot be the run of a graph whose row at the tie is led by another best community. */
  lemma LedElsewhere(g: Graph, h: Graph, run: seq<Sweep>, k: nat, i: Node, j: Node, rest: seq<Node>, resolution: real)
    requires Comparable(g, h) && k < |run| - 1 && run[k].visited < |g.nodes| && i == g.nodes[run[k].visited]
    requires Assigned(g, run[k].comm) && i in run[k].comm && j in run[k].comm && i in run[k + 1].comm
    requires Takes(g, run[k].comm, i, run[k].comm[j], resolution) && run[k + 1].comm[i] != run[k].comm[j]
    requires RowOrder(h, i) == Firsts([j] + rest)
    ensures !Running(h, run, resolution)
  {
    hide ModularityOf, Takes, Chooses, ClassOrder, InOrder;
    var s := run[k];
    AlikeTakes(g, h, s.comm, i, s.comm[j], resolution);
    LeaderIsChosen(h, s.comm, i, j, rest, resolution);
    if Running(h, run, resolution) {
      assert StepAt(h, run, k, resolution);
      var d :| Visits(h, s, d, run[k + 1], resolution);
      TwinsChoose(h, h, s.comm, i, d, s.comm[j], resolution);
    }
  }

  lemma TiedGoesOn(g: Graph, s: Sweep, resolution: real)
    requires Tied(g, s, resolution)
    ensures !Ended(g, s) && s.visited < |g.nodes| && Assigned(g, s.comm)
  {
  }

  lemma FrontedLeads(nodes: seq<Node>, edges: seq<Edge>, p: nat, h: Graph, i: Node, j: Node) returns (rest: seq<Node>)
    requires p < |edges| && edges[p].u in nodes && edges[p].v in nodes && edges[p].w > 0.0 && Joins(edges[p], i, j)
    requires Community.GraphOf(h, nodes, Fronted(edges, p))
    ensures RowOrder(h, i) == Firsts([j] + rest)
  {
    var present, others := NodeSet(nodes), edges[..p] + edges[p + 1..];
    rest := Community.OtherEnds(Community.Kept(others, present), i);
    FirstEdgeLeads(edges[p], others, present, i, j);
    assert OrderAt(h.order, i) == Firsts(Community.OtherEnds(Community.Kept(Fronted(edges, p), present), i));
  }

  /** At a tie, listing first an edge to a community not taken leads to another run. */
  lemma AnotherRun(nodes: seq<Node>, edges: seq<Edge>, g: Graph, labels: set<int>, comm0: Assignment, run: seq<Sweep>,
                   k: nat, resolution: real)
    returns (shuffled: seq<Edge>, h: Graph, other: seq<Sweep>)
    requires RunsOn(nodes, edges, g, comm0, run, resolution) && Labelled(g.nodes, labels, comm0)
    requires k < |run| && Tied(g, run[k], resolution)
    ensures multiset(shuffled) == multiset(edges)
    ensures RunsOn(nodes, shuffled, h, comm0, other, resolution) && other != run
  {
    hide Tied, Steps, Takes, Community.GraphOf, SameWeights;
    ListingFixesOrder(nodes, edges, g, g);
    TiedGoesOn(g, run[k], resolution);
    assert StepAt(g, run, k, resolution);
    var i, j := RivalNeighbour(g, run[k], run[k + 1], resolution);
    var p := ArcHasEdge(nodes, edges, g, i, j);
    shuffled := Fronted(edges, p);
    FrontedShuffles(edges, p);
    h := GraphListed(nodes, edges, shuffled, g);
    var rest := FrontedLeads(nodes, edges, p, h, i, j);
    other := Continues(h, labels, Sweep(comm0, 0, false), resolution);
    LedElsewhere(g, h, run, k, i, j, rest, resolution);
  }

  lemma GraphListed(nodes: seq<Node>, edges: seq<Edge>, shuffled: seq<Edge>, g: Graph) returns (h: Graph)
    requires Community.GraphOf(g, nodes, edges) && multiset(shuffled) == multiset(edges)
    ensures Community.GraphOf(h, nodes, shuffled) && Comparable(g, h) && h.nodes == g.nodes
  {
    h := SomeGraph(nodes, shuffled, g.nodes);
    ShuffledWeights(edges, shuffled, NodeSet(nodes));
    ListingsComparable(nodes, edges, nodes, shuffled, g, h);
  }

  lemma LabelsUsed(nodes: seq<Node>, edges: seq<Edge>, g: Graph, comm0: Assignment, run: seq<Sweep>, resolution: real)
    returns (labels: set<int>)
    requires RunsOn(nodes, edges, g, comm0, run, resolution) && forall n :: n in comm0 <==> n in nodes
    ensures Labelled(g.nodes, labels, comm0)
  {
    labels := set n | n in comm0 :: comm0[n];
  }

  /** The graph's local moves run the same however its edges are ordered exactly when no visit of
      that run meets a tie. */
  lemma SameRunIffUntied(nodes: seq<Node>, edges: seq<Edge>, g: Graph, comm0: Assignment, run: seq<Sweep>,
                         resolution: real)
    requires RunsOn(nodes, edges, g, comm0, run, resolution) && forall n :: n in comm0 <==> n in nodes
    ensures Untied(g, run, resolution) <==>
      forall shuffled, h, other {:trigger RunsOn(nodes, shuffled, h, comm0, other, resolution)} ::
        multiset(shuffled) == multiset(edges) && RunsOn(nodes, shuffled, h, comm0, other, resolution) ==> other == run
  {
    hide Tied, Finishes, Community.GraphOf, RunsOn;
    if Untied(g, run, resolution) {
      forall shuffled, h, other |
        multiset(shuffled) == multiset(edges) && RunsOn(nodes, shuffled, h, comm0, other, resolution)
        ensures other == run
      {
        ShuffledRunsAgree(nodes, edges, shuffled, g, h, comm0, run, other, resolution);
      }
    } else {
      var k :| 0 <= k < |run| && Tied(g, run[k], resolution);
      var labels := LabelsUsed(nodes, edges, g, comm0, run, resolution);
      var shuffled, h, other := AnotherRun(nodes, edges, g, labels, comm0, run, k, resolution);
    }
  }

  // ---- the same graph at the next level -----------------------------------------------------------

  lemma AlikeBetween(g: Graph, h: Graph, cls: Node -> Node, l: Node, k: Node)
    requires Alike(g, h)
    ensures M.Between(g.nodes, cls, Arcs(g), l, k) == M.Between(h.nodes, cls, Arcs(h), l, k)
  {
    forall u ensures M.FromInto(g.nodes, cls, Arcs(g), l, k)(u) == M.FromInto(h.nodes, cls, Arcs(h), l, k)(u) {
      forall v ensures Get(g.adj, u, v) == Get(h.adj, u, v) { SameGet(g, h, u, v); }
      SigmaSame(g.nodes, M.Into(cls, Arcs(g), u, k), M.Into(cls, Arcs(h), u, k));
    }
    SigmaSame(g.nodes, M.FromInto(g.nodes, cls, Arcs(g), l, k), M.FromInto(h.nodes, cls, Arcs(h), l, k));
  }

  lemma SameGet(g: Graph, h: Graph, u: Node, v: Node)
    requires Row(g, u) == Row(h, u)
    ensures Get(g.adj, u, v) == Get(h.adj, u, v) && (Has(g.adj, u, v) <==> Has(h.adj, u, v))
  {
    assert Has(g.adj, u, v) <==> v in Row(g, u);
    assert Has(h.adj, u, v) <==> v in Row(h, u);
  }

  lemma AlikeLoops(g: Graph, h: Graph, cls: Node -> Node, l: Node)
    requires Alike(g, h)
    ensures SuperLoops(g, cls)(l) == SuperLoops(h, cls)(l)
  {
    SigmaSame(g.nodes, M.InClass(cls, Loops(g), l), M.InClass(cls, Loops(h), l));
    AlikeBetween(g, h, cls, l, l);
  }

  lemma SameSupers(g: Graph, h: Graph, cls: Node -> Node, a: Graph, b: Graph)
    requires Alike(g, h) && CollapsesTo(g, cls, a) && CollapsesTo(h, cls, b)
    ensures a.nodes == b.nodes
  {
    forall l ensures l in a.nodes <==> l in b.nodes {}
    AscendingUnique(a.nodes, b.nodes);
  }

  lemma CollapsedArc(g: Graph, h: Graph, cls: Node -> Node, a: Graph, b: Graph, l: Node, k: Node)
    requires Alike(g, h) && Collapsed(g, cls, a) && Collapsed(h, cls, b)
    requires l in a.nodes && k in a.nodes && l in b.nodes && k in b.nodes
    ensures Get(a.adj, l, k) == Get(b.adj, l, k)
  {
    hide Alike, Undirected;
    assert Arcs(a)(l, k) == SuperArcs(g, cls)(l, k) && Arcs(b)(l, k) == SuperArcs(h, cls)(l, k);
    AlikeBetween(g, h, cls, l, k);
  }

  lemma CollapsedLoop(g: Graph, h: Graph, cls: Node -> Node, a: Graph, b: Graph, l: Node)
    requires Alike(g, h) && Collapsed(g, cls, a) && Collapsed(h, cls, b) && l in a.nodes && l in b.nodes
    ensures Loop(a, l) == Loop(b, l)
  {
    hide Alike, Undirected;
    assert Loops(a)(l) == SuperLoops(g, cls)(l) && Loops(b)(l) == SuperLoops(h, cls)(l);
    AlikeLoops(g, h, cls, l);
  }

  /** Collapsing the same communities of the same graph gives the same graph. */
  lemma CollapsesAlike(g: Graph, h: Graph, cls: Node -> Node, a: Graph, b: Graph)
    requires Alike(g, h) && CollapsesTo(g, cls, a) && CollapsesTo(h, cls, b)
    ensures Alike(a, b)
  {
    hide Alike, Undirected;
    SameSupers(g, h, cls, a, b);
    forall l, k | l in a.nodes && k in a.nodes ensures Get(a.adj, l, k) == Get(b.adj, l, k) {
      CollapsedArc(g, h, cls, a, b, l, k);
    }
    forall l | l in a.nodes ensures Loop(a, l) == Loop(b, l) { CollapsedLoop(g, h, cls, a, b, l); }
    SameArcsAlike(a, b);
  }

  lemma {:induction false} SameCrossing(g: Graph, h: Graph, cls: Node -> Node, i: nat, l: Node)
    requires g.nodes == h.nodes && i <= |g.nodes| && forall n :: RowOrder(g, n) == RowOrder(h, n)
    ensures CrossingSoFar(g, cls, i, l) == CrossingSoFar(h, cls, i, l)
  {
    if i > 0 { SameCrossing(g, h, cls, i - 1, l); }
  }

  lemma CollapsesTwins(g: Graph, h: Graph, cls: Node -> Node, a: Graph, b: Graph)
    requires Twins(g, h) && CollapsesTo(g, cls, a) && CollapsesTo(h, cls, b)
    ensures Twins(a, b)
  {
    hide Collapsed, InOrder;
    CollapsesAlike(g, h, cls, a, b);
    forall l ensures RowOrder(a, l) == RowOrder(b, l) {
      assert RowOrder(a, l) == SuperOrder(g, cls, l) && RowOrder(b, l) == SuperOrder(h, cls, l);
      SameCrossing(g, h, cls, |g.nodes|, l);
    }
  }

  // ---- one outcome for a graph ------------------------------------------------------------------------

  ghost predicate UntiedLevels(levels: seq<Level>, resolution: real) {
    forall k :: 0 <= k < |levels| ==> Untied(levels[k].graph, levels[k].run, resolution)
  }

  /** The same level, on graphs that differ in nothing but empty rows. */
  ghost predicate SameLevel(l: Level, m: Level) {
    Alike(l.graph, m.graph) && l.membership == m.membership && l.idx == m.idx && l.run == m.run && l.comm == m.comm &&
    l.improved == m.improved && l.score == m.score && l.next == m.next
  }

  lemma AlikeLevel(l: Level, m: Level, k: nat, resolution: real)
    requires LevelRuns(l, k, resolution) && LevelRuns(m, k, resolution)
    requires MovesTo(l.graph, l.idx, l.run, l.comm, resolution) && MovesTo(m.graph, m.idx, m.run, m.comm, resolution)
    requires Alike(l.graph, m.graph) && l.membership == m.membership
    requires Twins(l.graph, m.graph) || Untied(l.graph, l.run, resolution)
    ensures SameLevel(l, m)
  {
    hide Moved, MovesTo, Untied, Twins, Settles, InOrder;
    EnumeratedUnique(l.graph.nodes, l.idx, m.idx);
    MovesAgree(l.graph, m.graph, l.idx, l.run, l.comm, m.run, m.comm, resolution);
    AlikeScores(l.graph, m.graph, l.comm, resolution);
    AlikeSettles(l, m, resolution);
    MovedUnique(l.membership, l.graph, m.graph, l.comm, NamesOf(l.comm, k), l.next, m.next);
  }

  lemma AlikeSettles(l: Level, m: Level, resolution: real)
    requires Undirected(l.graph) && Undirected(m.graph) && Alike(l.graph, m.graph) && l.idx == m.idx
    requires Settles(l.graph, l.idx, l.comm, l.improved, resolution)
    requires Settles(m.graph, m.idx, m.comm, m.improved, resolution)
    requires Enumerated(l.graph.nodes, l.idx)
    ensures l.improved == m.improved
  {
    if LocallyOptimal(l.graph, l.idx, resolution) { AlikeOptimal(l.graph, m.graph, l.idx, resolution); }
    if LocallyOptimal(m.graph, l.idx, resolution) { AlikeOptimal(m.graph, l.graph, l.idx, resolution); }
  }

  lemma MovedUnique(membership: map<Node, Node>, g: Graph, h: Graph, comm: Assignment, names: map<int, Node>,
                    next: map<Node, Node>, other: map<Node, Node>)
    requires Moved(membership, g, comm, names, next) && Moved(membership, h, comm, names, other)
    ensures next == other
  {
  }

  lemma {:induction false} LevelsAgree(g: Graph, h: Graph, levels: seq<Level>, others: seq<Level>, k: nat,
                                       resolution: real)
    requires Alike(g, h) && Climbing(g, levels, resolution) && Climbing(h, others, resolution)
    requires (Twins(g, h) || UntiedLevels(levels, resolution)) && k < |levels| && k < |others|
    ensures SameLevel(levels[k], others[k])
    ensures Twins(g, h) ==> Twins(levels[k].graph, others[k].graph)
  {
    hide LevelRuns, LevelCollapses, MovesTo, Alike, Twins, Untied;
    var l, m := levels[k], others[k];
    if k == 0 {
      FirstBegins(g, levels, resolution);
      FirstBegins(h, others, resolution);
      HomesAgree(g, h, l.membership, m.membership);
    } else {
      LevelsAgree(g, h, levels, others, k - 1, resolution);
      GoneOn(g, levels, k - 1, resolution);
      GoneOn(h, others, k - 1, resolution);
      LevelsCollapseAlike(levels[k - 1], others[k - 1], k - 1);
    }
    assert LevelAt(g, levels, k, resolution) && LevelAt(h, others, k, resolution);
    assert RunAt(levels, k, resolution) && RunAt(others, k, resolution);
    AlikeLevel(l, m, k, resolution);
  }

  lemma LevelsCollapseAlike(l: Level, m: Level, k: nat)
    requires SameLevel(l, m) && LevelCollapses(l, k) && LevelCollapses(m, k)
    ensures Alike(l.after, m.after) && (Twins(l.graph, m.graph) ==> Twins(l.after, m.after))
  {
    hide CollapsesTo, Twins, Alike;
    var cls := SuperOf(l.comm, NamesOf(l.comm, k));
    CollapsesAlike(l.graph, m.graph, cls, l.after, m.after);
    if Twins(l.graph, m.graph) { CollapsesTwins(l.graph, m.graph, cls, l.after, m.after); }
  }

  lemma HomesAgree(g: Graph, h: Graph, a: map<Node, Node>, b: map<Node, Node>)
    requires Alike(g, h) && AtHome(g, a) && AtHome(h, b)
    ensures a == b
  {
  }

  lemma GoesOnAgrees(g: Graph, h: Graph, levels: seq<Level>, others: seq<Level>, k: nat, resolution: real)
    requires Alike(g, h) && Climbing(g, levels, resolution) && Climbing(h, others, resolution)
    requires (Twins(g, h) || UntiedLevels(levels, resolution)) && k < |levels| && k < |others|
    ensures GoesOnAt(levels, k) <==> GoesOnAt(others, k)
  {
    LevelsAgree(g, h, levels, others, k, resolution);
    if k > 0 { LevelsAgree(g, h, levels, others, k - 1, resolution); }
  }

  lemma LevelCountsAgree(g: Graph, h: Graph, levels: seq<Level>, others: seq<Level>, maxLevels: int, resolution: real)
    requires Alike(g, h) && Climbed(g, levels, maxLevels, resolution) && Climbed(h, others, maxLevels, resolution)
    requires Twins(g, h) || UntiedLevels(levels, resolution)
    ensures |levels| == |others|
  {
    if |levels| < |others| && levels != [] {
      GoesOnAgrees(g, h, levels, others, |levels| - 1, resolution);
    }
    if |others| < |levels| && others != [] {
      GoesOnAgrees(g, h, levels, others, |others| - 1, resolution);
    }
  }

  lemma IndexedUnique(membership: map<Node, Node>, a: Assignment, b: Assignment)
    requires Indexed(membership, a) && Indexed(membership, b)
    ensures a == b
  {
    var names :| IndexedBy(names, membership, a);
    var others :| IndexedBy(others, membership, b);
    AscendingUnique(names, others);
    forall n | n in membership ensures a[n] == b[n] { AscendingIndex(names, a[n], b[n]); }
  }

  /** Two detections on one graph have the same outcome if the rows are in the same order, or no
      visit meets a tie. */
  lemma DetectionsAgree(g: Graph, h: Graph, levels: seq<Level>, others: seq<Level>, a: Assignment, b: Assignment,
                        maxLevels: int, resolution: real)
    requires Alike(g, h) && (Twins(g, h) || UntiedLevels(levels, resolution))
    requires Detected(g, levels, a, maxLevels, resolution) && Detected(h, others, b, maxLevels, resolution)
    ensures a == b
  {
    if g.nodes != [] {
      var m :| EndsAt(g, levels, m) && Indexed(m, a);
      var n :| EndsAt(h, others, n) && Indexed(n, b);
      LevelCountsAgree(g, h, levels, others, maxLevels, resolution);
      if levels == [] {
        HomesAgree(g, h, m, n);
      } else {
        LevelsAgree(g, h, levels, others, |levels| - 1, resolution);
      }
      IndexedUnique(m, a, b);
    }
  }

  /** `detect_communities` is deterministic: one listing of a graph has one outcome. */
  lemma ListingFixesCommunities(nodes: seq<Node>, edges: seq<Edge>, g: Graph, h: Graph, levels: seq<Level>,
                                others: seq<Level>, a: Assignment, b: Assignment, maxLevels: int, resolution: real)
    requires Community.GraphOf(g, nodes, edges) && Detected(g, levels, a, maxLevels, resolution)
    requires Community.GraphOf(h, nodes, edges) && Detected(h, others, b, maxLevels, resolution)
    ensures a == b
  {
    ListingFixesOrder(nodes, edges, g, h);
    DetectionsAgree(g, h, levels, others, a, b, maxLevels, resolution);
  }

  /** And where no visit meets a tie, any listing that gives the same weights has that outcome. */
  lemma SameGraphSameCommunities(nodes: seq<Node>, edges: seq<Edge>, names: seq<Node>, listed: seq<Edge>,
                                 g: Graph, h: Graph, levels: seq<Level>, others: seq<Level>, a: Assignment,
                                 b: Assignment, maxLevels: int, resolution: real)
    requires (forall x :: x in nodes <==> x in names) && SameWeights(edges, listed, NodeSet(nodes))
    requires Community.GraphOf(g, nodes, edges) && Detected(g, levels, a, maxLevels, resolution)
    requires Community.GraphOf(h, names, listed) && Detected(h, others, b, maxLevels, resolution)
    requires UntiedLevels(levels, resolution)
    ensures a == b
  {
    ListingsComparable(nodes, edges, names, listed, g, h);
    DetectionsAgree(g, h, levels, others, a, b, maxLevels, resolution);
  }
}
