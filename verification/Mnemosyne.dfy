/** The base detector's local moves: each move raises modularity by exactly its gain, so the
    sweeps end, and they end where no node gains by moving to a neighbouring community. */
module Mnemosyne {
  import opened Ordering
  import opened Refinement
  import opened Adjacency
  import opened Sums
  import opened Modularity
  import Community

  /** An undirected graph without self arcs, as `from_edges` and `_aggregate` build it. */
  ghost predicate Undirected(g: Graph) {
    ValidGraph(g) && (forall u, v :: Get(g.adj, u, v) == Get(g.adj, v, u)) && forall u :: !Has(g.adj, u, u)
  }

  /** What `from_edges` builds is undirected. */
  lemma BuiltIsUndirected(g: Graph, kept: seq<Edge>)
    requires ValidGraph(g) && Community.Built(g.adj, g.loops, kept)
    ensures Undirected(g)
  {
    forall u, v ensures Get(g.adj, u, v) == Get(g.adj, v, u) && !Has(g.adj, u, u) { WeightSigns(kept, u, v); }
  }

  // ---- weight towards a community --------------------------------------------------------

  ghost function RowTo(g: Graph, comm: Assignment, i: Node, c: int): map<Node, real>
    requires Assigned(g, comm)
  {
    RowAssigned(g, comm, i);
    map j | j in Row(g, i) && comm[j] == c :: Row(g, i)[j]
  }

  /** The weight of the arcs from i into community c. */
  ghost function WeightTo(g: Graph, comm: Assignment, i: Node, c: int): real
    requires Assigned(g, comm)
  {
    Total(RowTo(g, comm, i, c))
  }

  /** Arc by arc over all nodes: what each node of community c pulls at i. */
  ghost function Pull(g: Graph, comm: Assignment, i: Node, c: int): map<Node, real>
    requires Assigned(g, comm)
  {
    map n | n in g.nodes :: if comm[n] == c then Get(g.adj, i, n) else 0.0
  }

  lemma {:induction false} SumOverIsTotal(ns: seq<Node>, k: map<Node, real>)
    requires Distinct(ns) && forall n :: n in ns ==> n in k
    ensures SumOver(ns, k) == Total(Restrict(k, set n | n in ns))
  {
    var keys := set n | n in ns;
    if ns == [] {
      assert Restrict(k, keys) == map[];
    } else {
      var front, last := ns[..|ns| - 1], ns[|ns| - 1];
      assert ns == front + [last] && last !in front;
      SumOverIsTotal(front, k);
      RestrictTotal(k, keys, last);
      assert keys - {last} == set n | n in front;
    }
  }

  lemma {:induction false} TotalIgnoresZeros<K(!new)>(m: map<K, real>, s: map<K, real>)
    requires s.Keys <= m.Keys && forall k :: k in m ==> m[k] == if k in s then s[k] else 0.0
    ensures Total(m) == Total(s)
    decreases |m|
  {
    if m == map[] {
      assert s == map[];
    } else {
      var k :| k in m;
      TotalRemove(m, k);
      if k in s { TotalRemove(s, k); } else { assert s - {k} == s; }
      TotalIgnoresZeros(m - {k}, s - {k});
    }
  }

  lemma PullTotal(g: Graph, comm: Assignment, i: Node, c: int)
    requires Assigned(g, comm)
    ensures SumOver(g.nodes, Pull(g, comm, i, c)) == WeightTo(g, comm, i, c)
  {
    var k := Pull(g, comm, i, c);
    SumOverIsTotal(g.nodes, k);
    RestrictAll(k, set n | n in g.nodes);
    RowAssigned(g, comm, i);
    forall j | j in Row(g, i) ensures j in g.nodes { assert Has(g.adj, i, j); }
    TotalIgnoresZeros(k, RowTo(g, comm, i, c));
  }

  lemma {:induction false} TotalHalves<K(!new)>(h: map<K, real>, m: map<K, real>)
    requires h.Keys == m.Keys && forall k :: k in m ==> h[k] == m[k] / 2.0
    ensures Total(h) == Total(m) / 2.0
    decreases |m|
  {
    if m == map[] {
      assert h == map[];
    } else {
      var k :| k in m;
      TotalRemove(m, k);
      TotalRemove(h, k);
      TotalHalves(h - {k}, m - {k});
    }
  }

  /** A node's inside weight is its loop and half its weight to its own community. */
  lemma InsideIsHalf(g: Graph, comm: Assignment, n: Node)
    requires Assigned(g, comm) && n in comm
    ensures InsideOf(g, comm, n) == Loop(g, n) + WeightTo(g, comm, n, comm[n]) / 2.0
  {
    RowAssigned(g, comm, n);
    TotalHalves(HalvesInside(g, comm, n), RowTo(g, comm, n, comm[n]));
  }

  // ---- inside weight after a move ------------------------------------------------------------

  /** A real move: node i of the graph, to another community. */
  ghost predicate Moves(g: Graph, comm: Assignment, i: Node, c: int) {
    Undirected(g) && Assigned(g, comm) && i in g.nodes && c != comm[i]
  }

  lemma RowToKeeps(g: Graph, comm: Assignment, i: Node, c: int, x: int)
    requires Moves(g, comm, i, c)
    ensures Assigned(g, comm[i := c]) && WeightTo(g, comm[i := c], i, x) == WeightTo(g, comm, i, x)
  {
    assert !Has(g.adj, i, i);
    assert RowTo(g, comm[i := c], i, x) == RowTo(g, comm, i, x);
  }

  /** Another node's weight to its community changes by its arc to i, when i joins or leaves it. */
  lemma WeightToOther(g: Graph, comm: Assignment, i: Node, c: int, n: Node)
    requires Moves(g, comm, i, c) && n in g.nodes && n != i
    ensures Assigned(g, comm[i := c])
    ensures WeightTo(g, comm[i := c], n, comm[n]) ==
            WeightTo(g, comm, n, comm[n]) + Pull(g, comm, i, c)[n] - Pull(g, comm, i, comm[i])[n]
  {
    var before, after := RowTo(g, comm, n, comm[n]), RowTo(g, comm[i := c], n, comm[n]);
    assert Get(g.adj, i, n) == Get(g.adj, n, i);
    if Has(g.adj, n, i) && comm[n] == c {
      assert after == before[i := Row(g, n)[i]];
      TotalUpdate(before, i, Row(g, n)[i]);
    } else if Has(g.adj, n, i) && comm[n] == comm[i] {
      assert before == after[i := Row(g, n)[i]];
      TotalUpdate(after, i, Row(g, n)[i]);
    } else {
      assert after == before;
    }
  }

  /** What a move adds to each node's inside weight. */
  ghost function Shift(g: Graph, comm: Assignment, i: Node, c: int): map<Node, real>
    requires Moves(g, comm, i, c)
  {
    map n | n in g.nodes ::
      (Pull(g, comm, i, c)[n] - Pull(g, comm, i, comm[i])[n]) / 2.0 +
      (if n == i then (WeightTo(g, comm, i, c) - WeightTo(g, comm, i, comm[i])) / 2.0 else 0.0)
  }

  lemma InsideShifts(g: Graph, comm: Assignment, i: Node, c: int, n: Node)
    requires Moves(g, comm, i, c) && n in g.nodes
    ensures Assigned(g, comm[i := c])
    ensures InsideOf(g, comm[i := c], n) == InsideOf(g, comm, n) + Shift(g, comm, i, c)[n]
  {
    assert Assigned(g, comm[i := c]);
    InsideIsHalf(g, comm, n);
    InsideIsHalf(g, comm[i := c], n);
    if n == i {
      assert !Has(g.adj, i, i);
      RowToKeeps(g, comm, i, c, c);
    } else {
      WeightToOther(g, comm, i, c, n);
    }
  }

  lemma {:induction false} SumOverAdds(ns: seq<Node>, x: map<Node, real>, y: map<Node, real>, z: map<Node, real>)
    requires forall n :: n in ns ==> n in x && n in y && n in z && z[n] == x[n] + y[n]
    ensures SumOver(ns, z) == SumOver(ns, x) + SumOver(ns, y)
  {
    if ns != [] {
      assert ns == ns[..|ns| - 1] + [ns[|ns| - 1]];
      SumOverAdds(ns[..|ns| - 1], x, y, z);
    }
  }

  lemma {:induction false} ShiftTotal(g: Graph, comm: Assignment, i: Node, c: int, ns: seq<Node>)
    requires Moves(g, comm, i, c) && Distinct(ns) && forall n :: n in ns ==> n in g.nodes
    ensures SumOver(ns, Shift(g, comm, i, c)) ==
      (SumOver(ns, Pull(g, comm, i, c)) - SumOver(ns, Pull(g, comm, i, comm[i]))) / 2.0 +
      (if i in ns then (WeightTo(g, comm, i, c) - WeightTo(g, comm, i, comm[i])) / 2.0 else 0.0)
  {
    if ns != [] {
      var front, last := ns[..|ns| - 1], ns[|ns| - 1];
      assert ns == front + [last] && last !in front;
      ShiftTotal(g, comm, i, c, front);
    }
  }

  /** A move changes the weight inside communities by what i gains and loses in neighbours. */
  lemma InsideAfterMove(g: Graph, comm: Assignment, i: Node, c: int)
    requires Moves(g, comm, i, c)
    ensures Assigned(g, comm[i := c])
    ensures SumOver(g.nodes, Insides(g, comm[i := c])) ==
            SumOver(g.nodes, Insides(g, comm)) + WeightTo(g, comm, i, c) - WeightTo(g, comm, i, comm[i])
  {
    assert Assigned(g, comm[i := c]);
    forall n | n in g.nodes ensures InsideOf(g, comm[i := c], n) == InsideOf(g, comm, n) + Shift(g, comm, i, c)[n] {
      InsideShifts(g, comm, i, c, n);
    }
    SumOverAdds(g.nodes, Insides(g, comm), Shift(g, comm, i, c), Insides(g, comm[i := c]));
    ShiftTotal(g, comm, i, c, g.nodes);
    PullTotal(g, comm, i, c);
    PullTotal(g, comm, i, comm[i]);
  }

  // ---- degree pairs after a move -----------------------------------------------------------------

  lemma {:induction false} ClassSumAfterMove(ns: seq<Node>, comm: Assignment, i: Node, c: int, k: map<Node, real>,
                                             x: int)
    requires Distinct(ns) && Defined(ns, comm, k) && i in comm && i in k && c != comm[i]
    ensures Defined(ns, comm[i := c], k)
    ensures ClassSum(ns, comm[i := c], x, k) ==
      ClassSum(ns, comm, x, k) +
      (if i !in ns then 0.0 else if x == c then k[i] else if x == comm[i] then -k[i] else 0.0)
  {
    if ns != [] {
      var front, last := ns[..|ns| - 1], ns[|ns| - 1];
      assert ns == front + [last] && last !in front;
      ClassSumAfterMove(front, comm, i, c, k, x);
    }
  }

  /** Twice k times how much larger the new class is than the old one without i. */
  ghost function PairShift(k: real, to: real, from: real): real { 2.0 * (k * (to - (from - k))) }

  lemma GainShift(k: real, t: real, d: real)
    ensures Gain(k, t + d) == Gain(k, t) + 2.0 * (k * d)
  {
    assert k * (t + d) == k * t + k * d;
  }

  lemma ShiftAdds(k: real, to: real, from: real, d: real)
    ensures PairShift(k, to + d, from) == PairShift(k, to, from) + 2.0 * (k * d)
    ensures PairShift(k, to, from + d) == PairShift(k, to, from) - 2.0 * (k * d)
  {
    assert k * (to + d - (from - k)) == k * (to - (from - k)) + k * d;
    assert k * (to - (from + d - k)) == k * (to - (from - k)) - k * d;
  }

  lemma ShiftFresh(k: real, to: real, from: real)
    ensures PairShift(k, to, from + k) == Gain(k, to) - Gain(k, from)
  {
    assert k * (to - (from + k - k)) == k * to - k * from;
  }

  /** A move changes the degree pairs by the degrees it joins and leaves. */
  lemma {:induction false} PairsAfterMove(ns: seq<Node>, comm: Assignment, i: Node, c: int, k: map<Node, real>)
    requires Distinct(ns) && Defined(ns, comm, k) && i in comm && i in k && c != comm[i]
    ensures Defined(ns, comm[i := c], k)
    ensures PairSum(ns, comm[i := c], k) == PairSum(ns, comm, k) +
      (if i in ns then PairShift(k[i], ClassSum(ns, comm, c, k), ClassSum(ns, comm, comm[i], k)) else 0.0)
  {
    if ns != [] {
      var front, last := ns[..|ns| - 1], ns[|ns| - 1];
      assert ns == front + [last] && last !in front;
      PairsAfterMove(front, comm, i, c, k);
      PairsOneMore(front, last, comm, i, c, k);
    }
  }

  lemma PairsOneMore(front: seq<Node>, last: Node, comm: Assignment, i: Node, c: int, k: map<Node, real>)
    requires Distinct(front) && last !in front && Defined(front + [last], comm, k)
    requires i in comm && i in k && c != comm[i]
    requires Defined(front, comm, k) && Defined(front, comm[i := c], k)
    ensures var to, from := ClassSum(front, comm, c, k), ClassSum(front, comm, comm[i], k);
      Gain(k[last], ClassSum(front, comm[i := c], comm[i := c][last], k)) ==
      Gain(k[last], ClassSum(front, comm, comm[last], k)) +
      (if i in front then
         PairShift(k[i], to + (if comm[last] == c then k[last] else 0.0),
                   from + (if comm[last] == comm[i] then k[last] else 0.0))
           - PairShift(k[i], to, from)
       else if i == last then PairShift(k[i], to, from + k[i])
       else 0.0)
  {
    hide ClassSum, Gain, PairShift;
    var to, from := ClassSum(front, comm, c, k), ClassSum(front, comm, comm[i], k);
    ClassSumAfterMove(front, comm, i, c, k, comm[i := c][last]);
    assert last in front + [last];
    if i == last {
      ShiftFresh(k[i], to, from);
    } else if i in front {
      ShiftAdds(k[i], to, from, k[last]);
      GainShift(k[last], ClassSum(front, comm, comm[last], k), k[i]);
      GainShift(k[last], ClassSum(front, comm, comm[last], k), -k[i]);
      assert k[last] * -k[i] == -(k[i] * k[last]);
    }
  }

  // ---- what a move gains ----------------------------------------------------------------------------

  /** The gain the sweep compares: weight into the class less the share of its degrees. */
  function GainOf(w: real, sigma: real, k: real, m: real, resolution: real): real
    requires m > 0.0
  {
    w - resolution * sigma * k / (2.0 * m)
  }

  /** The degrees of class c apart from i, as `sigma_tot` holds them while i is out. */
  ghost function SigmaWithout(g: Graph, comm: Assignment, i: Node, c: int): real
    requires Assigned(g, comm) && i in g.nodes
  {
    ClassSum(g.nodes, comm, c, Degrees(g)) - (if comm[i] == c then DegreeOf(g, i) else 0.0)
  }

  ghost function MoveGain(g: Graph, comm: Assignment, i: Node, c: int, resolution: real): real
    requires Assigned(g, comm) && i in g.nodes && TotalWeightOf(g) > 0.0
  {
    GainOf(WeightTo(g, comm, i, c), SigmaWithout(g, comm, i, c), DegreeOf(g, i), TotalWeightOf(g), resolution)
  }

  lemma PenaltyOfShift(k: real, to: real, from: real, m: real, resolution: real)
    requires m > 0.0
    ensures m * (Penalty(m, resolution) * PairShift(k, to, from + k)) ==
            resolution * to * k / (2.0 * m) - resolution * from * k / (2.0 * m)
  {
    var pen, d := Penalty(m, resolution), k * (to - from);
    SquarePositive(2.0 * m);
    assert pen * Square(2.0 * m) == resolution;
    PenaltyTimes(pen, m, d, resolution);
    var x := resolution * d / (2.0 * m);
    assert resolution * to * k - resolution * from * k == resolution * d by { SplitProduct(resolution, k, to, from); }
    DivideDifference(resolution * to * k, resolution * from * k, 2.0 * m);
  }

  lemma SplitProduct(r: real, k: real, to: real, from: real)
    ensures r * to * k - r * from * k == r * (k * (to - from))
  {
    assert k * (to - from) == k * to - k * from;
    assert r * (k * to - k * from) == r * (k * to) - r * (k * from);
    assert r * to * k == r * (k * to) && r * from * k == r * (k * from);
  }

  lemma DivideDifference(x: real, y: real, d: real)
    requires d > 0.0
    ensures x / d - y / d == (x - y) / d
  {
  }

  lemma PenaltyTimes(pen: real, m: real, d: real, resolution: real)
    requires m > 0.0 && pen * Square(2.0 * m) == resolution
    ensures m * (pen * (2.0 * d)) == resolution * d / (2.0 * m)
  {
    var e := 2.0 * m;
    var x := m * (pen * (2.0 * d));
    assert x == e * (pen * d);
    assert x * e == (pen * Square(e)) * d by { assert e * (pen * d) * e == (pen * (e * e)) * d; }
    assert x == resolution * d / e by { QuotientIs(x, resolution * d, e); }
  }

  lemma QuotientIs(x: real, y: real, e: real)
    requires e > 0.0 && x * e == y
    ensures x == y / e
  {
  }

  /** A change from q to q2, m times over, is a change from y to y2. */
  ghost predicate Lifts(m: real, q: real, q2: real, y: real, y2: real) {
    m * (q2 - q) == y2 - y
  }

  lemma SignOfLift(m: real, q: real, q2: real, y: real, y2: real)
    requires m > 0.0 && Lifts(m, q, q2, y, y2)
    ensures q2 > q <==> y2 > y
  {
    SignOfProduct(m, q2 - q, y2 - y);
  }

  lemma SignOfProduct(m: real, x: real, y: real)
    requires m > 0.0 && m * x == y
    ensures x > 0.0 <==> y > 0.0
  {
  }

  lemma CombineDifference(q1: real, q2: real, f1: real, f2: real, s1: real, s2: real, m: real, pen: real)
    requires m > 0.0 && Combines(q1, f1, s1, 1.0 / m, pen) && Combines(q2, f2, s2, 1.0 / m, pen)
    ensures m * (q2 - q1) == (f2 - f1) - m * (pen * (s2 - s1))
  {
    var p := 1.0 / m;
    assert p * m == 1.0;
    assert q2 - q1 == p * (f2 - f1) - pen * (s2 - s1) by {
      assert p * (f2 - f1) == p * f2 - p * f1;
      assert pen * (s2 - s1) == pen * s2 - pen * s1;
    }
    assert m * (p * (f2 - f1)) == (p * m) * (f2 - f1);
    assert m * (p * (f2 - f1) - pen * (s2 - s1)) == m * (p * (f2 - f1)) - m * (pen * (s2 - s1));
  }

  ghost predicate ShiftsPairs(s1: real, s2: real, k: real, to: real, from: real) {
    s2 == s1 + PairShift(k, to, from + k)
  }

  lemma GainDifference(q1: real, q2: real, f1: real, f2: real, s1: real, s2: real, m: real, resolution: real,
                       k: real, to: real, from: real, w: real, w0: real)
    requires m > 0.0 && Combines(q1, f1, s1, 1.0 / m, Penalty(m, resolution))
    requires Combines(q2, f2, s2, 1.0 / m, Penalty(m, resolution))
    requires f2 == f1 + w - w0 && ShiftsPairs(s1, s2, k, to, from)
    ensures Lifts(m, q1, q2, GainOf(w0, from, k, m, resolution), GainOf(w, to, k, m, resolution))
  {
    CombineDifference(q1, q2, f1, f2, s1, s2, m, Penalty(m, resolution));
    PenaltyOfShift(k, to, from, m, resolution);
    assert s2 - s1 == PairShift(k, to, from + k);
  }

  lemma PairsOfMove(g: Graph, comm: Assignment, i: Node, c: int)
    requires Moves(g, comm, i, c)
    ensures Assigned(g, comm[i := c])
    ensures ShiftsPairs(PairSum(g.nodes, comm, Degrees(g)), PairSum(g.nodes, comm[i := c], Degrees(g)),
                        DegreeOf(g, i), SigmaWithout(g, comm, i, c), SigmaWithout(g, comm, i, comm[i]))
  {
    PairsAfterMove(g.nodes, comm, i, c, Degrees(g));
  }

  /** Moving i from its community to another changes modularity, times m, by exactly the
      difference of the gains the sweep compares. */
  lemma GainIsModularity(g: Graph, comm: Assignment, i: Node, c: int, resolution: real)
    requires Moves(g, comm, i, c) && TotalWeightOf(g) > 0.0
    ensures Assigned(g, comm[i := c])
    ensures Lifts(TotalWeightOf(g), ModularityOf(g, comm, resolution), ModularityOf(g, comm[i := c], resolution),
                  MoveGain(g, comm, i, comm[i], resolution), MoveGain(g, comm, i, c, resolution))
  {
    InsideAfterMove(g, comm, i, c);
    PairsOfMove(g, comm, i, c);
    ModularityClosedForm(g, comm, resolution);
    ModularityClosedForm(g, comm[i := c], resolution);
    GainDifference(ModularityOf(g, comm, resolution), ModularityOf(g, comm[i := c], resolution),
                   SumOver(g.nodes, Insides(g, comm)), SumOver(g.nodes, Insides(g, comm[i := c])),
                   PairSum(g.nodes, comm, Degrees(g)), PairSum(g.nodes, comm[i := c], Degrees(g)),
                   TotalWeightOf(g), resolution, DegreeOf(g, i),
                   SigmaWithout(g, comm, i, c), SigmaWithout(g, comm, i, comm[i]),
                   WeightTo(g, comm, i, c), WeightTo(g, comm, i, comm[i]));
  }

  /** So a move is an improvement exactly when its gain is greater. */
  lemma GreaterGainImproves(g: Graph, comm: Assignment, i: Node, c: int, resolution: real)
    requires Moves(g, comm, i, c) && TotalWeightOf(g) > 0.0
    ensures Assigned(g, comm[i := c])
    ensures ModularityOf(g, comm[i := c], resolution) > ModularityOf(g, comm, resolution) <==>
            MoveGain(g, comm, i, c, resolution) > MoveGain(g, comm, i, comm[i], resolution)
  {
    GainIsModularity(g, comm, i, c, resolution);
    SignOfLift(TotalWeightOf(g), ModularityOf(g, comm, resolution), ModularityOf(g, comm[i := c], resolution),
               MoveGain(g, comm, i, comm[i], resolution), MoveGain(g, comm, i, c, resolution));
  }

  // ---- better assignments ------------------------------------------------------------------------

  ghost predicate Improves(g: Graph, a: Assignment, b: Assignment, resolution: real) {
    Assigned(g, a) && Assigned(g, b) && ModularityOf(g, b, resolution) > ModularityOf(g, a, resolution)
  }

  lemma ImprovesTransitive(g: Graph, a: Assignment, b: Assignment, c: Assignment, resolution: real)
    requires Improves(g, a, b, resolution) && Improves(g, b, c, resolution)
    ensures Improves(g, a, c, resolution)
  {
  }

  /** Every assignment of the nodes to the labels. */
  ghost function AllAssignments(ns: seq<Node>, labels: set<int>): set<Assignment> {
    if ns == [] then {map[]}
    else
      var front := AllAssignments(ns[..|ns| - 1], labels);
      set a, c | a in front && c in labels :: a[ns[|ns| - 1] := c]
  }

  ghost predicate Labelled(ns: seq<Node>, labels: set<int>, a: Assignment) {
    (forall n :: n in a <==> n in ns) && forall n :: n in a ==> a[n] in labels
  }

  lemma {:induction false} AssignmentIsListed(ns: seq<Node>, labels: set<int>, a: Assignment)
    requires Distinct(ns) && Labelled(ns, labels, a)
    ensures a in AllAssignments(ns, labels)
  {
    if ns == [] {
      assert a == map[];
    } else {
      var front, last := ns[..|ns| - 1], ns[|ns| - 1];
      assert ns == front + [last] && last !in front;
      assert last in a;
      AssignmentIsListed(front, labels, a - {last});
      var b, c := a - {last}, a[last];
      assert b in AllAssignments(front, labels) && c in labels && b[last := c] == a;
    }
  }

  /** The modularity of each assignment of the nodes to the labels. */
  ghost function Scores(g: Graph, labels: set<int>, resolution: real): map<Assignment, real> {
    map a | a in AllAssignments(g.nodes, labels) && Assigned(g, a) :: ModularityOf(g, a, resolution)
  }

  ghost function Above<K>(scores: map<K, real>, q: real): set<K> {
    set a | a in scores && scores[a] > q
  }

  /** There are finitely many assignments, so there are fewer and fewer left to improve to. */
  lemma FewerAbove<K>(scores: map<K, real>, b: K, q: real)
    requires b in scores && scores[b] > q
    ensures |Above(scores, scores[b])| < |Above(scores, q)|
  {
    var above, below := Above(scores, scores[b]), Above(scores, q);
    assert above <= below - {b};
    SubsetSize(above, below - {b});
  }

  lemma ImprovementDescends(g: Graph, labels: set<int>, a: Assignment, b: Assignment, resolution: real)
    requires Labelled(g.nodes, labels, b) && Improves(g, a, b, resolution)
    ensures |Above(Scores(g, labels, resolution), ModularityOf(g, b, resolution))| <
            |Above(Scores(g, labels, resolution), ModularityOf(g, a, resolution))|
  {
    AssignmentIsListed(g.nodes, labels, b);
    FewerAbove(Scores(g, labels, resolution), b, ModularityOf(g, a, resolution));
  }

  // ---- one node ------------------------------------------------------------------------------------

  /** `sigma_tot` holds every community's degrees. */
  ghost predicate SigmaIs(g: Graph, comm: Assignment, sigma: map<int, real>)
    requires Assigned(g, comm)
  {
    forall c :: At(sigma, c) == ClassSum(g.nodes, comm, c, Degrees(g))
  }

  /** And apart from i, while i is taken out. */
  ghost predicate SigmaIsWithout(g: Graph, comm: Assignment, i: Node, sigma: map<int, real>)
    requires Assigned(g, comm) && i in g.nodes
  {
    forall c :: At(sigma, c) == SigmaWithout(g, comm, i, c)
  }

  ghost predicate Neighbouring(g: Graph, comm: Assignment, i: Node, c: int)
    requires Assigned(g, comm)
  {
    RowAssigned(g, comm, i);
    exists j :: j in Row(g, i) && comm[j] == c
  }

  /** The weights into part of the row. */
  ghost predicate Weighs(g: Graph, comm: Assignment, i: Node, keys: set<Node>, weightTo: map<int, real>)
    requires Assigned(g, comm)
  {
    RowAssigned(g, comm, i);
    forall c :: At(weightTo, c) == Total(Restrict(RowTo(g, comm, i, c), keys)) &&
      (c in weightTo <==> exists j :: j in Row(g, i) && j in keys && comm[j] == c)
  }

  lemma WeighOneMore(g: Graph, comm: Assignment, i: Node, keys: set<Node>, weightTo: map<int, real>, j: Node)
    requires Assigned(g, comm) && Weighs(g, comm, i, keys, weightTo) && j in Row(g, i) && j !in keys && j in comm
    ensures Weighs(g, comm, i, keys + {j}, weightTo[comm[j] := At(weightTo, comm[j]) + Row(g, i)[j]])
  {
    RowAssigned(g, comm, i);
    var next := weightTo[comm[j] := At(weightTo, comm[j]) + Row(g, i)[j]];
    forall c ensures At(next, c) == Total(Restrict(RowTo(g, comm, i, c), keys + {j})) {
      RestrictTotal(RowTo(g, comm, i, c), keys + {j}, j);
      assert keys + {j} - {j} == keys;
    }
  }

  lemma WeighsNothing(g: Graph, comm: Assignment, i: Node)
    requires Assigned(g, comm)
    ensures Weighs(g, comm, i, {}, map[])
  {
    forall c ensures Restrict(RowTo(g, comm, i, c), {}) == map[] {}
  }

  lemma WeighsAll(g: Graph, comm: Assignment, i: Node, weightTo: map<int, real>)
    requires Assigned(g, comm) && Weighs(g, comm, i, Row(g, i).Keys, weightTo)
    ensures WeightsAre(g, comm, i, weightTo)
  {
    forall c ensures Restrict(RowTo(g, comm, i, c), Row(g, i).Keys) == RowTo(g, comm, i, c) {}
  }

  ghost predicate WeightsAre(g: Graph, comm: Assignment, i: Node, weightTo: map<int, real>)
    requires Assigned(g, comm)
  {
    forall c :: At(weightTo, c) == WeightTo(g, comm, i, c) && (c in weightTo <==> Neighbouring(g, comm, i, c))
  }

  function LabelsAlong(js: seq<Node>, comm: Assignment): seq<int> {
    seq(|js|, k requires 0 <= k < |js| => if js[k] in comm then comm[js[k]] else 0)
  }

  /** The neighbouring communities in the order in which the row of i first meets them. */
  function ClassOrder(g: Graph, comm: Assignment, i: Node): seq<int> {
    Firsts(LabelsAlong(RowOrder(g, i), comm))
  }

  lemma OrderIsNeighbours(g: Graph, comm: Assignment, i: Node, c: int)
    requires Assigned(g, comm) && InOrder(g)
    ensures c in ClassOrder(g, comm, i) <==> Neighbouring(g, comm, i, c)
  {
    RowAssigned(g, comm, i);
    var js := RowOrder(g, i);
    if c in ClassOrder(g, comm, i) {
      var k :| 0 <= k < |js| && LabelsAlong(js, comm)[k] == c;
      assert js[k] in Row(g, i);
    }
    if Neighbouring(g, comm, i, c) {
      var j :| j in Row(g, i) && comm[j] == c;
      var k :| 0 <= k < |js| && js[k] == j;
      assert LabelsAlong(js, comm)[k] == c;
    }
  }

  lemma LabelsOneMore(js: seq<Node>, comm: Assignment, k: nat)
    requires k < |js| && js[k] in comm
    ensures LabelsAlong(js[..k + 1], comm) == LabelsAlong(js[..k], comm) + [comm[js[k]]]
  {
  }

  /** `weight_to`: the weight from i into each neighbouring community, and the order of its keys. */
  method WeightsTo(g: Graph, comm: Assignment, i: Node) returns (weightTo: map<int, real>, order: seq<int>)
    requires Assigned(g, comm) && InOrder(g)
    ensures WeightsAre(g, comm, i, weightTo) && order == ClassOrder(g, comm, i)
  {
    weightTo, order := map[], [];
    var js := RowOrder(g, i);
    RowAssigned(g, comm, i);
    WeighsNothing(g, comm, i);
    assert Seen(js[..0]) == {} && LabelsAlong(js[..0], comm) == [];
    for k := 0 to |js|
      invariant Weighs(g, comm, i, Seen(js[..k]), weightTo) && order == Firsts(LabelsAlong(js[..k], comm))
    {
      var j := js[k];
      assert j in Row(g, i);
      SeenOneMore(js, k);
      WeighOneMore(g, comm, i, Seen(js[..k]), weightTo, j);
      LabelsOneMore(js, comm, k);
      FirstsOneMore(LabelsAlong(js[..k], comm), comm[j]);
      weightTo, order := weightTo[comm[j] := At(weightTo, comm[j]) + Row(g, i)[j]], Inserted(order, comm[j]);
    }
    assert js[..|js|] == js && Seen(js) == Row(g, i).Keys;
    WeighsAll(g, comm, i, weightTo);
  }

  ghost function Seen(js: seq<Node>): set<Node> { set j | j in js }

  lemma SeenOneMore(js: seq<Node>, k: nat)
    requires Distinct(js) && k < |js|
    ensures js[k] !in Seen(js[..k]) && Seen(js[..k + 1]) == Seen(js[..k]) + {js[k]}
  {
    assert js[..k + 1] == js[..k] + [js[k]];
  }

  function ClassGain(weightTo: map<int, real>, sigma: map<int, real>, c: int, k: real, m: real, resolution: real): real
    requires m > 0.0
  {
    GainOf(At(weightTo, c), At(sigma, c), k, m, resolution)
  }

  /** The comparison loop: the first community of greatest gain in the order of the keys, or the
      current one unless some other gains strictly more. */
  method BestClass(weightTo: map<int, real>, order: seq<int>, sigma: map<int, real>, current: int, k: real, m: real,
                   resolution: real)
    returns (best: int)
    requires m > 0.0 && forall c :: c in order <==> c in weightTo
    ensures best == current || (best in weightTo &&
      ClassGain(weightTo, sigma, best, k, m, resolution) > ClassGain(weightTo, sigma, current, k, m, resolution))
    ensures forall c :: c in weightTo ==>
      ClassGain(weightTo, sigma, c, k, m, resolution) <= ClassGain(weightTo, sigma, best, k, m, resolution)
    ensures best == current || exists p :: 0 <= p < |order| && order[p] == best && forall q :: 0 <= q < p ==>
      ClassGain(weightTo, sigma, order[q], k, m, resolution) < ClassGain(weightTo, sigma, best, k, m, resolution)
  {
    best := current;
    var bestGain := ClassGain(weightTo, sigma, current, k, m, resolution);
    ghost var stay, p := bestGain, 0;
    for n := 0 to |order|
      invariant bestGain == ClassGain(weightTo, sigma, best, k, m, resolution) && stay <= bestGain
      invariant best == current || (0 <= p < n && order[p] == best && bestGain > stay &&
        forall q :: 0 <= q < p ==> ClassGain(weightTo, sigma, order[q], k, m, resolution) < bestGain)
      invariant forall q :: 0 <= q < n ==> ClassGain(weightTo, sigma, order[q], k, m, resolution) <= bestGain
    {
      var c := order[n];
      if c == current { continue; }
      var gain := ClassGain(weightTo, sigma, c, k, m, resolution);
      if gain > bestGain {
        best, bestGain, p := c, gain, n;
      }
    }
    forall c | c in weightTo ensures ClassGain(weightTo, sigma, c, k, m, resolution) <= bestGain {
      var q :| 0 <= q < |order| && order[q] == c;
    }
  }

  /** No neighbouring community is worth a move of i. */
  ghost predicate StaysPut(g: Graph, comm: Assignment, i: Node, resolution: real)
    requires Assigned(g, comm)
  {
    forall c :: Neighbouring(g, comm, i, c) ==> !Improves(g, comm, comm[i := c], resolution)
  }

  /** Every node stays put: no node gains by moving to a neighbouring community. */
  ghost predicate LocallyOptimal(g: Graph, comm: Assignment, resolution: real) {
    Assigned(g, comm) && forall i :: i in g.nodes ==> StaysPut(g, comm, i, resolution)
  }

  /** The visit's outcome: i goes to the neighbouring community that most increases modularity, and
      stays where it is unless some move increases it. */
  ghost predicate Takes(g: Graph, comm: Assignment, i: Node, best: int, resolution: real)
    requires Assigned(g, comm) && i in comm
  {
    (best == comm[i] || (Neighbouring(g, comm, i, best) && Improves(g, comm, comm[i := best], resolution))) &&
    forall c :: Neighbouring(g, comm, i, c) ==> !Improves(g, comm[i := best], comm[i := c], resolution)
  }

  /** The visit's outcome in full: of equally good communities the one the row meets first. */
  ghost predicate Chooses(g: Graph, comm: Assignment, i: Node, best: int, resolution: real)
    requires Assigned(g, comm) && i in comm
  {
    Takes(g, comm, i, best, resolution) &&
    (best != comm[i] ==> forall c :: Precedes(ClassOrder(g, comm, i), c, best) ==>
      Improves(g, comm[i := c], comm[i := best], resolution))
  }

  /** Of the neighbours, as the row lists them, one of the community chosen is met before any whose
      community would be as good. */
  ghost predicate MetFirst(g: Graph, comm: Assignment, i: Node, best: int, resolution: real) {
    exists p :: 0 <= p < |RowOrder(g, i)| && RowOrder(g, i)[p] in comm && comm[RowOrder(g, i)[p]] == best &&
      forall q :: 0 <= q < p ==> WorseAt(g, comm, i, best, q, resolution)
  }

  ghost predicate WorseAt(g: Graph, comm: Assignment, i: Node, best: int, q: nat, resolution: real) {
    q < |RowOrder(g, i)| && RowOrder(g, i)[q] in comm &&
    Improves(g, comm[i := comm[RowOrder(g, i)[q]]], comm[i := best], resolution)
  }

  lemma ChosenIsMetFirst(g: Graph, comm: Assignment, i: Node, best: int, resolution: real)
    requires Assigned(g, comm) && InOrder(g) && i in comm && best != comm[i] && Chooses(g, comm, i, best, resolution)
    ensures MetFirst(g, comm, i, best, resolution)
  {
    hide Improves;
    var js := RowOrder(g, i);
    var labels := LabelsAlong(js, comm);
    RowAssigned(g, comm, i);
    OrderIsNeighbours(g, comm, i, best);
    var p := IndexOf(labels, best);
    assert js[p] in Row(g, i);
    forall q | 0 <= q < p ensures WorseAt(g, comm, i, best, q, resolution) {
      EarlierIsListedFirst(labels, best, q);
      assert js[q] in Row(g, i);
    }
  }

  lemma TakenOut(g: Graph, comm: Assignment, i: Node, sigma: map<int, real>)
    requires Assigned(g, comm) && i in g.nodes && SigmaIs(g, comm, sigma)
    ensures SigmaIsWithout(g, comm, i, sigma[comm[i] := At(sigma, comm[i]) - DegreeOf(g, i)])
  {
  }

  lemma PutBack(g: Graph, comm: Assignment, i: Node, sigma: map<int, real>, c: int)
    requires Assigned(g, comm) && i in g.nodes && SigmaIsWithout(g, comm, i, sigma)
    ensures Assigned(g, comm[i := c]) && SigmaIs(g, comm[i := c], sigma[c := At(sigma, c) + DegreeOf(g, i)])
  {
    var after, k := sigma[c := At(sigma, c) + DegreeOf(g, i)], Degrees(g);
    forall x ensures At(after, x) == ClassSum(g.nodes, comm[i := c], x, k) {
      assert At(sigma, x) == SigmaWithout(g, comm, i, x);
      if c == comm[i] { assert comm[i := c] == comm; } else { ClassSumAfterMove(g.nodes, comm, i, c, k, x); }
    }
  }

  /** The gains compared are the gains of the moves. */
  lemma GainsAre(g: Graph, comm: Assignment, i: Node, weightTo: map<int, real>, sigma: map<int, real>, resolution: real,
                 c: int)
    requires Assigned(g, comm) && i in g.nodes && TotalWeightOf(g) > 0.0
    requires WeightsAre(g, comm, i, weightTo) && SigmaIsWithout(g, comm, i, sigma)
    ensures ClassGain(weightTo, sigma, c, DegreeOf(g, i), TotalWeightOf(g), resolution) ==
      MoveGain(g, comm, i, c, resolution)
  {
  }

  /** The same of the gains compared. */
  ghost predicate BestFor(g: Graph, comm: Assignment, i: Node, best: int, resolution: real)
    requires Assigned(g, comm) && i in g.nodes && TotalWeightOf(g) > 0.0
  {
    (best == comm[i] || (Neighbouring(g, comm, i, best) &&
       MoveGain(g, comm, i, best, resolution) > MoveGain(g, comm, i, comm[i], resolution))) &&
    (forall c :: Neighbouring(g, comm, i, c) ==>
      MoveGain(g, comm, i, c, resolution) <= MoveGain(g, comm, i, best, resolution)) &&
    (best != comm[i] ==> forall c :: Precedes(ClassOrder(g, comm, i), c, best) ==>
      MoveGain(g, comm, i, c, resolution) < MoveGain(g, comm, i, best, resolution))
  }

  lemma LiftsCompare(m: real, q: real, q1: real, q2: real, y: real, y1: real, y2: real)
    requires m > 0.0 && Lifts(m, q, q1, y, y1) && Lifts(m, q, q2, y, y2)
    ensures Lifts(m, q1, q2, y1, y2)
  {
  }

  /** Of two moves the one with the greater gain leads to the greater modularity. */
  lemma GreaterGainWins(g: Graph, comm: Assignment, i: Node, b: int, c: int, resolution: real)
    requires Undirected(g) && Assigned(g, comm) && i in g.nodes && TotalWeightOf(g) > 0.0
    ensures Improves(g, comm[i := b], comm[i := c], resolution) <==>
            MoveGain(g, comm, i, c, resolution) > MoveGain(g, comm, i, b, resolution)
  {
    LiftOfMove(g, comm, i, b, resolution);
    LiftOfMove(g, comm, i, c, resolution);
    var m, q := TotalWeightOf(g), ModularityOf(g, comm, resolution);
    var qb, qc := ModularityOf(g, comm[i := b], resolution), ModularityOf(g, comm[i := c], resolution);
    var y, yb := MoveGain(g, comm, i, comm[i], resolution), MoveGain(g, comm, i, b, resolution);
    var yc := MoveGain(g, comm, i, c, resolution);
    LiftsCompare(m, q, qb, qc, y, yb, yc);
    SignOfLift(m, qb, qc, yb, yc);
  }

  /** Also of staying. */
  lemma LiftOfMove(g: Graph, comm: Assignment, i: Node, c: int, resolution: real)
    requires Undirected(g) && Assigned(g, comm) && i in g.nodes && TotalWeightOf(g) > 0.0
    ensures Assigned(g, comm[i := c])
    ensures Lifts(TotalWeightOf(g), ModularityOf(g, comm, resolution), ModularityOf(g, comm[i := c], resolution),
                  MoveGain(g, comm, i, comm[i], resolution), MoveGain(g, comm, i, c, resolution))
  {
    if c != comm[i] { GainIsModularity(g, comm, i, c, resolution); } else { assert comm[i := c] == comm; }
  }

  /** The greatest gain is the greatest modularity, and the first of the greatest is the first. */
  lemma BestIsChosen(g: Graph, comm: Assignment, i: Node, best: int, resolution: real)
    requires Undirected(g) && Assigned(g, comm) && i in g.nodes && TotalWeightOf(g) > 0.0
    requires BestFor(g, comm, i, best, resolution)
    ensures Chooses(g, comm, i, best, resolution)
  {
    if best != comm[i] { GreaterGainImproves(g, comm, i, best, resolution); }
    forall c | Neighbouring(g, comm, i, c) ensures !Improves(g, comm[i := best], comm[i := c], resolution) {
      GreaterGainWins(g, comm, i, best, c, resolution);
    }
    if best != comm[i] {
      forall c | Precedes(ClassOrder(g, comm, i), c, best)
        ensures Improves(g, comm[i := c], comm[i := best], resolution)
      {
        GreaterGainWins(g, comm, i, c, best, resolution);
      }
    }
  }

  /** The best move of i, while `sigma` leaves i out. */
  method FindBest(g: Graph, comm: Assignment, i: Node, sigma: map<int, real>, k: real, m: real, resolution: real)
    returns (best: int)
    requires Undirected(g) && InOrder(g) && Assigned(g, comm) && i in g.nodes && SigmaIsWithout(g, comm, i, sigma)
    requires m == TotalWeightOf(g) && m > 0.0 && k == DegreeOf(g, i)
    ensures BestFor(g, comm, i, best, resolution)
    ensures best == comm[i] || exists n :: n in g.nodes && comm[n] == best
  {
    var weightTo, order := WeightsTo(g, comm, i);
    forall c ensures c in order <==> c in weightTo { OrderIsNeighbours(g, comm, i, c); }
    best := BestClass(weightTo, order, sigma, comm[i], k, m, resolution);
    if best != comm[i] { FirstIsFirst(weightTo, order, sigma, best, k, m, resolution); }
    FoundIsBest(g, comm, i, weightTo, sigma, best, resolution);
    if best != comm[i] { NeighbourIsNode(g, comm, i, best); }
  }

  lemma FirstIsFirst(weightTo: map<int, real>, order: seq<int>, sigma: map<int, real>, best: int, k: real, m: real,
                     resolution: real)
    requires m > 0.0 && Distinct(order)
    requires exists p :: 0 <= p < |order| && order[p] == best && forall q :: 0 <= q < p ==>
      ClassGain(weightTo, sigma, order[q], k, m, resolution) < ClassGain(weightTo, sigma, best, k, m, resolution)
    ensures forall c :: Precedes(order, c, best) ==>
      ClassGain(weightTo, sigma, c, k, m, resolution) < ClassGain(weightTo, sigma, best, k, m, resolution)
  {
  }

  /** One visit of the sweep: i moves where that improves modularity most, to the community met
      first if there are several, or stays where no neighbouring community is better; `sigma_tot`
      stays true. */
  method MoveNode(g: Graph, comm: Assignment, i: Node, sigma: map<int, real>, m: real, resolution: real)
    returns (best: int, sigmaAfter: map<int, real>)
    requires Undirected(g) && InOrder(g) && Assigned(g, comm) && i in g.nodes
    requires m == TotalWeightOf(g) && m > 0.0 && SigmaIs(g, comm, sigma)
    ensures Assigned(g, comm[i := best]) && SigmaIs(g, comm[i := best], sigmaAfter)
    ensures Chooses(g, comm, i, best, resolution)
    ensures best != comm[i] ==> MetFirst(g, comm, i, best, resolution)
    ensures best == comm[i] || exists n :: n in g.nodes && comm[n] == best
  {
    hide MetFirst, Chooses, BestFor, InOrder, SigmaIsWithout;
    var k := Community.Degree(g, i);
    var out := sigma[comm[i] := At(sigma, comm[i]) - k];
    TakenOut(g, comm, i, sigma);
    best := FindBest(g, comm, i, out, k, m, resolution);
    BestIsChosen(g, comm, i, best, resolution);
    if best != comm[i] { ChosenIsMetFirst(g, comm, i, best, resolution); }
    PutBack(g, comm, i, out, best);
    sigmaAfter := out[best := At(out, best) + k];
  }

  lemma NeighbourIsNode(g: Graph, comm: Assignment, i: Node, c: int)
    requires Assigned(g, comm) && Neighbouring(g, comm, i, c)
    ensures exists n :: n in g.nodes && comm[n] == c
  {
    RowAssigned(g, comm, i);
    var j :| j in Row(g, i) && comm[j] == c;
    assert Has(g.adj, i, j);
  }

  lemma FoundIsBest(g: Graph, comm: Assignment, i: Node, weightTo: map<int, real>, sigma: map<int, real>, best: int,
                    resolution: real)
    requires Assigned(g, comm) && i in g.nodes && TotalWeightOf(g) > 0.0
    requires WeightsAre(g, comm, i, weightTo) && SigmaIsWithout(g, comm, i, sigma)
    requires best == comm[i] || (best in weightTo &&
      ClassGain(weightTo, sigma, best, DegreeOf(g, i), TotalWeightOf(g), resolution) >
      ClassGain(weightTo, sigma, comm[i], DegreeOf(g, i), TotalWeightOf(g), resolution))
    requires forall c :: c in weightTo ==>
      ClassGain(weightTo, sigma, c, DegreeOf(g, i), TotalWeightOf(g), resolution) <=
      ClassGain(weightTo, sigma, best, DegreeOf(g, i), TotalWeightOf(g), resolution)
    requires best != comm[i] ==> forall c :: Precedes(ClassOrder(g, comm, i), c, best) ==>
      ClassGain(weightTo, sigma, c, DegreeOf(g, i), TotalWeightOf(g), resolution) <
      ClassGain(weightTo, sigma, best, DegreeOf(g, i), TotalWeightOf(g), resolution)
    ensures BestFor(g, comm, i, best, resolution)
    ensures best == comm[i] || Neighbouring(g, comm, i, best)
  {
    forall c
      ensures ClassGain(weightTo, sigma, c, DegreeOf(g, i), TotalWeightOf(g), resolution) ==
        MoveGain(g, comm, i, c, resolution)
    {
      GainsAre(g, comm, i, weightTo, sigma, resolution, c);
    }
  }

  // ---- sweeps --------------------------------------------------------------------------------------

  /** Where the sweeps stand: the assignment, how many nodes this pass has visited, and whether it
      has moved one. */
  datatype Sweep = Sweep(comm: Assignment, visited: nat, changed: bool)

  /** One visit, in the order of the nodes. */
  ghost predicate Visits(g: Graph, s: Sweep, best: int, t: Sweep, resolution: real) {
    s.visited < |g.nodes| && Assigned(g, s.comm) && g.nodes[s.visited] in s.comm &&
    Chooses(g, s.comm, g.nodes[s.visited], best, resolution) &&
    t == Sweep(s.comm[g.nodes[s.visited] := best], s.visited + 1, s.changed || best != s.comm[g.nodes[s.visited]])
  }

  /** A visit, or another pass after one that has moved a node. */
  ghost predicate Steps(g: Graph, s: Sweep, t: Sweep, resolution: real) {
    (exists best :: Visits(g, s, best, t, resolution)) ||
    (s.visited == |g.nodes| && s.changed && t == Sweep(s.comm, 0, false))
  }

  ghost predicate Ended(g: Graph, s: Sweep) {
    s.visited == |g.nodes| && !s.changed
  }

  ghost predicate StepAt(g: Graph, run: seq<Sweep>, t: nat, resolution: real)
    requires t < |run| - 1
  {
    Steps(g, run[t], run[t + 1], resolution)
  }

  ghost predicate Running(g: Graph, run: seq<Sweep>, resolution: real) {
    run != [] && forall t :: 0 <= t < |run| - 1 ==> StepAt(g, run, t, resolution)
  }

  /** All the steps from a standing to the end of the sweeps. */
  ghost predicate Finishes(g: Graph, s: Sweep, run: seq<Sweep>, resolution: real) {
    Running(g, run, resolution) && run[0] == s && Ended(g, run[|run| - 1])
  }

  /** A whole run of the local moves from one assignment to another. */
  ghost predicate MovesTo(g: Graph, comm0: Assignment, run: seq<Sweep>, comm: Assignment, resolution: real) {
    Finishes(g, Sweep(comm0, 0, false), run, resolution) && run[|run| - 1].comm == comm
  }

  /** So far. */
  ghost predicate MovedTo(g: Graph, comm0: Assignment, run: seq<Sweep>, s: Sweep, resolution: real) {
    Running(g, run, resolution) && run[0] == Sweep(comm0, 0, false) && run[|run| - 1] == s
  }

  lemma OneMoreStep(g: Graph, comm0: Assignment, run: seq<Sweep>, s: Sweep, t: Sweep, resolution: real)
    requires MovedTo(g, comm0, run, s, resolution) && Steps(g, s, t, resolution)
    ensures MovedTo(g, comm0, run + [t], t, resolution)
  {
    forall k | 0 <= k < |run| ensures StepAt(g, run + [t], k, resolution) {
      if k < |run| - 1 { assert StepAt(g, run, k, resolution); }
    }
  }

  lemma OneMoreVisit(g: Graph, comm0: Assignment, run: seq<Sweep>, s: Sweep, best: int, t: Sweep, resolution: real)
    requires MovedTo(g, comm0, run, s, resolution) && Visits(g, s, best, t, resolution)
    ensures MovedTo(g, comm0, run + [t], t, resolution)
  {
    OneMoreStep(g, comm0, run, s, t, resolution);
  }

  lemma FirstStep(g: Graph, s: Sweep, t: Sweep, rest: seq<Sweep>, resolution: real) returns (run: seq<Sweep>)
    requires Steps(g, s, t, resolution) && Finishes(g, t, rest, resolution)
    ensures Finishes(g, s, run, resolution) && run == [s] + rest
  {
    run := [s] + rest;
    forall k | 0 <= k < |run| - 1 ensures StepAt(g, run, k, resolution) {
      if k > 0 { assert StepAt(g, rest, k - 1, resolution); }
    }
  }

  /** At a local optimum the sweeps end without a move. */
  lemma OptimumFinishes(g: Graph, s: Sweep, resolution: real) returns (run: seq<Sweep>)
    requires LocallyOptimal(g, s.comm, resolution) && s.visited <= |g.nodes|
    ensures Finishes(g, s, run, resolution) && run[|run| - 1].comm == s.comm
    decreases s.changed, |g.nodes| - s.visited
  {
    if s.visited < |g.nodes| {
      var i := g.nodes[s.visited];
      assert i in g.nodes && i in s.comm;
      assert StaysPut(g, s.comm, i, resolution) && s.comm[i := s.comm[i]] == s.comm;
      var t := s.(visited := s.visited + 1);
      assert Visits(g, s, s.comm[i], t, resolution);
      var rest := OptimumFinishes(g, t, resolution);
      run := FirstStep(g, s, t, rest, resolution);
    } else if s.changed {
      var rest := OptimumFinishes(g, Sweep(s.comm, 0, false), resolution);
      run := FirstStep(g, s, Sweep(s.comm, 0, false), rest, resolution);
    } else {
      run := [s];
    }
  }

  /** Where a pass stands: every node visited stays put, unless something has improved. */
  ghost predicate PassState(g: Graph, labels: set<int>, start: Assignment, comm: Assignment, changed: bool, n: nat,
                            resolution: real)
    requires n <= |g.nodes|
  {
    Assigned(g, start) && Assigned(g, comm) && Labelled(g.nodes, labels, comm) &&
    (if changed then Improves(g, start, comm, resolution) && !LocallyOptimal(g, start, resolution)
     else comm == start && forall j :: 0 <= j < n ==> StaysPut(g, comm, g.nodes[j], resolution))
  }

  lemma LabelledAfter(ns: seq<Node>, labels: set<int>, comm: Assignment, i: Node, best: int)
    requires Labelled(ns, labels, comm) && i in comm && best in labels
    ensures Labelled(ns, labels, comm[i := best])
  {
  }

  lemma MoveKeepsPass(g: Graph, labels: set<int>, start: Assignment, comm: Assignment, changed: bool, n: nat,
                      next: Assignment, resolution: real)
    requires n < |g.nodes| && PassState(g, labels, start, comm, changed, n, resolution)
    requires Improves(g, comm, next, resolution) && Labelled(g.nodes, labels, next)
    requires !changed ==> !StaysPut(g, comm, g.nodes[n], resolution)
    ensures PassState(g, labels, start, next, true, n + 1, resolution)
  {
    if changed {
      ImprovesTransitive(g, start, comm, next, resolution);
    } else {
      assert g.nodes[n] in g.nodes;
    }
  }

  lemma VisitKeepsPass(g: Graph, labels: set<int>, start: Assignment, comm: Assignment, changed: bool, n: nat,
                       best: int, resolution: real)
    requires n < |g.nodes| && PassState(g, labels, start, comm, changed, n, resolution) && best in labels
    requires g.nodes[n] in comm && Assigned(g, comm[g.nodes[n] := best])
    requires Takes(g, comm, g.nodes[n], best, resolution)
    ensures PassState(g, labels, start, comm[g.nodes[n] := best], changed || best != comm[g.nodes[n]], n + 1,
                      resolution)
  {
    var i := g.nodes[n];
    if best == comm[i] {
      assert comm[i := best] == comm;
    } else {
      LabelledAfter(g.nodes, labels, comm, i, best);
      MoveKeepsPass(g, labels, start, comm, changed, n, comm[i := best], resolution);
    }
  }

  /** One pass over the nodes, as one part of a run. */
  method Pass(g: Graph, comm0: Assignment, sigma0: map<int, real>, m: real, resolution: real, ghost labels: set<int>,
              ghost first: Assignment, ghost before: seq<Sweep>)
    returns (comm: Assignment, sigma: map<int, real>, changed: bool, ghost run: seq<Sweep>)
    requires Undirected(g) && InOrder(g) && Assigned(g, comm0) && Labelled(g.nodes, labels, comm0)
    requires m == TotalWeightOf(g) && m > 0.0 && SigmaIs(g, comm0, sigma0)
    requires MovedTo(g, first, before, Sweep(comm0, 0, false), resolution)
    ensures PassState(g, labels, comm0, comm, changed, |g.nodes|, resolution) && SigmaIs(g, comm, sigma)
    ensures MovedTo(g, first, run, Sweep(comm, |g.nodes|, changed), resolution)
  {
    comm, sigma, changed, run := comm0, sigma0, false, before;
    for n := 0 to |g.nodes|
      invariant PassState(g, labels, comm0, comm, changed, n, resolution) && SigmaIs(g, comm, sigma)
      invariant MovedTo(g, first, run, Sweep(comm, n, changed), resolution)
    {
      var i := g.nodes[n];
      assert i in g.nodes && i in comm;
      var best, after := MoveNode(g, comm, i, sigma, m, resolution);
      assert best in labels;
      VisitKeepsPass(g, labels, comm0, comm, changed, n, best, resolution);
      ghost var s, t := Sweep(comm, n, changed), Sweep(comm[i := best], n + 1, changed || best != comm[i]);
      OneMoreVisit(g, first, run, s, best, t, resolution);
      changed := changed || best != comm[i];
      comm, sigma, run := comm[i := best], after, run + [t];
    }
  }

  lemma QuietPassIsOptimal(g: Graph, labels: set<int>, start: Assignment, comm: Assignment, resolution: real)
    requires PassState(g, labels, start, comm, false, |g.nodes|, resolution)
    ensures LocallyOptimal(g, comm, resolution)
  {
  }

  method SigmaTotals(g: Graph, comm: Assignment) returns (sigma: map<int, real>)
    requires Assigned(g, comm)
    ensures SigmaIs(g, comm, sigma)
  {
    sigma := map[];
    for n := 0 to |g.nodes|
      invariant Community.PartSums(g.nodes, n, comm, Degrees(g), sigma)
    {
      var i := g.nodes[n];
      assert i in g.nodes;
      var k := Community.Degree(g, i);
      var after := sigma[comm[i] := At(sigma, comm[i]) + k];
      Community.PartSumsStep(g.nodes, n, comm, Degrees(g), sigma, after);
      sigma := after;
    }
    assert g.nodes[..|g.nodes|] == g.nodes;
    forall c
      ensures At(sigma, c) == ClassSum(g.nodes, comm, c, Degrees(g))
    {
      ClassSumsAre(g.nodes, comm, Degrees(g), c);
    }
  }

  /** Without weight every assignment scores zero. */
  lemma WeightlessIsOptimal(g: Graph, comm: Assignment, resolution: real)
    requires Assigned(g, comm) && TotalWeightOf(g) <= 0.0
    ensures LocallyOptimal(g, comm, resolution)
  {
    forall i | i in g.nodes ensures StaysPut(g, comm, i, resolution) {}
  }

  /** `_local_move`: the passes end. What they return is locally optimal and uses no new labels;
      it improves on the start exactly when the start was not locally optimal, which is what is
      reported, and otherwise it is the start. */
  method LocalMove(g: Graph, comm0: Assignment, m: real, resolution: real, ghost labels: set<int>)
    returns (comm: Assignment, improvedAny: bool, ghost run: seq<Sweep>)
    requires Undirected(g) && InOrder(g) && Assigned(g, comm0) && Labelled(g.nodes, labels, comm0)
    requires m == TotalWeightOf(g)
    ensures MovesTo(g, comm0, run, comm, resolution)
    ensures LocallyOptimal(g, comm, resolution) && (improvedAny <==> !LocallyOptimal(g, comm0, resolution))
    ensures Assigned(g, comm) && Labelled(g.nodes, labels, comm)
    ensures if improvedAny then Improves(g, comm0, comm, resolution) else comm == comm0
  {
    comm, improvedAny := comm0, false;
    if m <= 0.0 {
      WeightlessIsOptimal(g, comm0, resolution);
      run := OptimumFinishes(g, Sweep(comm0, 0, false), resolution);
      return;
    }
    var sigma := SigmaTotals(g, comm);
    var changed := true;
    run := [Sweep(comm0, 0, false)];
    while changed
      invariant MovedTo(g, comm0, run, Sweep(comm, if changed then 0 else |g.nodes|, false), resolution)
      invariant Assigned(g, comm) && Labelled(g.nodes, labels, comm) && SigmaIs(g, comm, sigma)
      invariant if improvedAny then Improves(g, comm0, comm, resolution) else comm == comm0
      invariant improvedAny ==> !LocallyOptimal(g, comm0, resolution)
      invariant !changed ==> LocallyOptimal(g, comm, resolution)
      decreases changed, |Above(Scores(g, labels, resolution), ModularityOf(g, comm, resolution))|
    {
      ghost var before := comm;
      comm, sigma, changed, run := Pass(g, comm, sigma, m, resolution, labels, comm0, run);
      if changed {
        OneMoreStep(g, comm0, run, Sweep(comm, |g.nodes|, true), Sweep(comm, 0, false), resolution);
        run := run + [Sweep(comm, 0, false)];
        ImprovementDescends(g, labels, before, comm, resolution);
        if improvedAny { ImprovesTransitive(g, comm0, before, comm, resolution); }
        improvedAny := true;
      } else {
        QuietPassIsOptimal(g, labels, before, comm, resolution);
      }
    }
  }
}
