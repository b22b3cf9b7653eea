/** The base detector, level by level: what each level finds is never worse than what it
    started from, so the communities reported never score below one node per community. */
module Levels {
  import opened Ordering
  import opened Refinement
  import opened Adjacency
  import opened Modularity
  import opened Sums
  import opened Mnemosyne
  import opened Aggregation
  import opened Numerals
  import Community
  import M = Matrices

  // ---- names of super-nodes -----------------------------------------------------------------

  /** `f"L{level}:{c}"`. */
  function SuperName(level: nat, c: nat): string {
    "L" + Decimal(level) + ":" + Decimal(c)
  }

  lemma SuperNameInjective(level: nat, c: nat, d: nat)
    requires SuperName(level, c) == SuperName(level, d)
    ensures c == d
  {
    var prefix := "L" + Decimal(level) + ":";
    assert SuperName(level, c)[|prefix|..] == Decimal(c) && SuperName(level, d)[|prefix|..] == Decimal(d);
    DecimalInjective(c, d);
  }

  /** Names of one level come in the order of the numerals in them. */
  lemma SuperNameOrder(level: nat, c: nat, d: nat)
    ensures SuperName(level, c) == "L" + Decimal(level) + ":" + Decimal(c)
    ensures Before(SuperName(level, c), SuperName(level, d)) <==> Before(Decimal(c), Decimal(d))
  {
    var prefix := "L" + Decimal(level) + ":";
    var x, y := SuperName(level, c), SuperName(level, d);
    assert x[..|prefix|] == prefix == y[..|prefix|];
    assert x[|prefix|..] == Decimal(c) && y[|prefix|..] == Decimal(d);
    BeforeSkips(x, y, |prefix|);
  }

  // ---- relabelling ------------------------------------------------------------------------------

  ghost predicate SamePartition(ns: seq<Node>, a: Assignment, b: Assignment) {
    (forall x :: x in ns ==> x in a && x in b) &&
    forall x, y :: x in ns && y in ns ==> (a[x] == a[y] <==> b[x] == b[y])
  }

  lemma {:induction false} RelabelledClass(ns: seq<Node>, a: Assignment, b: Assignment, k: map<Node, real>, x: Node)
    requires SamePartition(ns + [x], a, b) && forall n :: n in ns + [x] ==> n in k
    ensures x in ns + [x] && Defined(ns, a, k) && Defined(ns, b, k) && x in a && x in b
    ensures ClassSum(ns, a, a[x], k) == ClassSum(ns, b, b[x], k)
  {
    assert x in ns + [x] && forall n :: n in ns ==> n in ns + [x];
    if ns != [] {
      var front, last := ns[..|ns| - 1], ns[|ns| - 1];
      assert ns == front + [last] && last in ns + [x] && forall n :: n in front + [x] ==> n in ns + [x];
      RelabelledClass(front, a, b, k, x);
    }
  }

  lemma {:induction false} RelabelledPairs(ns: seq<Node>, a: Assignment, b: Assignment, k: map<Node, real>)
    requires SamePartition(ns, a, b) && forall n :: n in ns ==> n in k
    ensures Defined(ns, a, k) && Defined(ns, b, k) && PairSum(ns, a, k) == PairSum(ns, b, k)
  {
    if ns != [] {
      var front, last := ns[..|ns| - 1], ns[|ns| - 1];
      assert ns == front + [last];
      RelabelledPairs(front, a, b, k);
      RelabelledClass(front, a, b, k, last);
    }
  }

  lemma RelabelledInside(g: Graph, a: Assignment, b: Assignment, n: Node)
    requires Assigned(g, a) && Assigned(g, b) && SamePartition(g.nodes, a, b) && n in g.nodes
    ensures InsideOf(g, a, n) == InsideOf(g, b, n)
  {
    RowInside(g, n);
    RowAssigned(g, a, n);
    RowAssigned(g, b, n);
    assert HalvesInside(g, a, n) == HalvesInside(g, b, n);
  }

  /** Modularity is about the partition, not its labels. */
  lemma RelabellingKeepsScore(g: Graph, a: Assignment, b: Assignment, resolution: real)
    requires Assigned(g, a) && Assigned(g, b) && SamePartition(g.nodes, a, b)
    ensures SameScore(g, a, g, b, resolution)
  {
    forall n | n in g.nodes ensures InsideOf(g, a, n) == InsideOf(g, b, n) { RelabelledInside(g, a, b, n); }
    assert Insides(g, a) == Insides(g, b);
    RelabelledPairs(g.nodes, a, b, Degrees(g));
    var m := TotalWeightOf(g);
    if m > 0.0 {
      ModularityClosedForm(g, a, resolution);
      ModularityClosedForm(g, b, resolution);
      CombinesUnique(ModularityOf(g, a, resolution), ModularityOf(g, b, resolution), SumOver(g.nodes, Insides(g, a)),
                     PairSum(g.nodes, a, Degrees(g)), 1.0 / m, Penalty(m, resolution));
    }
  }

  // ---- from the nodes to the super-nodes -----------------------------------------------------------

  /** Which super-node of the current level each original node has reached. */
  ghost predicate Routed(base: Graph, membership: map<Node, Node>, current: Graph) {
    (forall n :: n in membership <==> n in base.nodes) && forall n :: n in membership ==> membership[n] in current.nodes
  }

  ghost function Pulled(membership: map<Node, Node>, b: Assignment): Assignment {
    map n | n in membership && membership[n] in b :: b[membership[n]]
  }

  /** Every partition of the current level scores there what it means for the original graph. */
  ghost predicate Faithful(base: Graph, membership: map<Node, Node>, current: Graph, resolution: real) {
    forall b {:trigger Pulled(membership, b)} :: Assigned(current, b) ==>
      SameScore(base, Pulled(membership, b), current, b, resolution)
  }

  lemma StartIsFaithful(base: Graph, membership: map<Node, Node>, resolution: real)
    requires ValidGraph(base) && Routed(base, membership, base) && forall n :: n in membership ==> membership[n] == n
    ensures Faithful(base, membership, base, resolution)
  {
    forall b | Assigned(base, b) ensures SameScore(base, Pulled(membership, b), base, b, resolution) {
      RelabellingKeepsScore(base, Pulled(membership, b), b, resolution);
    }
  }

  ghost predicate Moved(membership: map<Node, Node>, current: Graph, comm: Assignment, names: map<int, Node>,
                        next: map<Node, Node>)
  {
    next.Keys == membership.Keys && forall n :: n in membership ==> next[n] == SuperOf(comm, names)(membership[n])
  }

  /** The partition of this level that a partition of the next one stands for. */
  ghost function Expanded(current: Graph, cls: Node -> Node, b: Assignment): Assignment
    requires forall l :: l in current.nodes ==> cls(l) in b
  {
    map l | l in current.nodes :: b[cls(l)]
  }

  lemma ExpandedStandsFor(current: Graph, cls: Node -> Node, agg: Graph, b: Assignment)
    requires ValidGraph(current) && M.Classes(current.nodes, agg.nodes, cls) && Assigned(agg, b)
    ensures forall l :: l in current.nodes ==> cls(l) in b
    ensures StandsFor(current, cls, agg, b, Expanded(current, cls, b))
  {
  }

  lemma ExpandedPulled(base: Graph, membership: map<Node, Node>, current: Graph, cls: Node -> Node,
                       next: map<Node, Node>, b: Assignment)
    requires Routed(base, membership, current) && next.Keys == membership.Keys
    requires forall n :: n in membership ==> next[n] == cls(membership[n])
    requires forall l :: l in current.nodes ==> cls(l) in b
    ensures Pulled(next, b) == Pulled(membership, Expanded(current, cls, b))
  {
  }

  lemma SameScoreTransitive(g: Graph, a: Assignment, h: Graph, b: Assignment, i: Graph, c: Assignment, resolution: real)
    requires SameScore(g, a, h, b, resolution) && SameScore(i, c, h, b, resolution)
    ensures SameScore(g, a, i, c, resolution)
  {
  }

  lemma OneLevel(base: Graph, membership: map<Node, Node>, current: Graph, comm: Assignment, names: map<int, Node>,
                 agg: Graph, next: map<Node, Node>, b: Assignment, resolution: real)
    requires Undirected(current) && Collapsed(current, SuperOf(comm, names), agg)
    requires Onto(current, SuperOf(comm, names), agg)
    requires Routed(base, membership, current) && Faithful(base, membership, current, resolution)
    requires Moved(membership, current, comm, names, next) && Assigned(agg, b)
    ensures SameScore(base, Pulled(next, b), agg, b, resolution)
  {
    var cls := SuperOf(comm, names);
    ExpandedStandsFor(current, cls, agg, b);
    var a := Expanded(current, cls, b);
    CollapseKeepsScores(current, cls, agg, b, a, resolution);
    ExpandedPulled(base, membership, current, cls, next, b);
    assert SameScore(base, Pulled(membership, a), current, a, resolution);
    SameScoreTransitive(base, Pulled(next, b), current, a, agg, b, resolution);
  }

  lemma LevelIsFaithful(base: Graph, membership: map<Node, Node>, current: Graph, comm: Assignment,
                        names: map<int, Node>, agg: Graph, next: map<Node, Node>, resolution: real)
    requires Undirected(current) && Collapsed(current, SuperOf(comm, names), agg)
    requires Onto(current, SuperOf(comm, names), agg)
    requires Routed(base, membership, current) && Faithful(base, membership, current, resolution)
    requires Moved(membership, current, comm, names, next)
    ensures Routed(base, next, agg) && Faithful(base, next, agg, resolution)
  {
    forall b | Assigned(agg, b) ensures SameScore(base, Pulled(next, b), agg, b, resolution) {
      OneLevel(base, membership, current, comm, names, agg, next, b, resolution);
    }
  }

  /** The assignment groups the nodes as the super-nodes they have reached do. */
  ghost predicate Groups(base: Graph, membership: map<Node, Node>, a: Assignment)
    requires forall n :: n in base.nodes ==> n in membership
  {
    Assigned(base, a) &&
    forall x, y :: x in base.nodes && y in base.nodes ==> (membership[x] == membership[y] <==> a[x] == a[y])
  }

  /** The nodes grouped by where they have got to score at least `low`, however labelled. */
  ghost predicate Reached(base: Graph, membership: map<Node, Node>, resolution: real, low: real) {
    (forall n :: n in membership <==> n in base.nodes) &&
    forall a :: Groups(base, membership, a) ==> ScoresAtLeast(base, a, resolution, low)
  }

  ghost predicate ScoresAtLeast(g: Graph, a: Assignment, resolution: real, low: real) {
    Assigned(g, a) && ModularityOf(g, a, resolution) >= low
  }

  /** The local moves took the numbered super-nodes to comm: better exactly when there was anything
      better next to the numbering, and otherwise nowhere. */
  ghost predicate Settles(g: Graph, idx: Assignment, comm: Assignment, improved: bool, resolution: real) {
    (improved <==> !LocallyOptimal(g, idx, resolution)) && LocallyOptimal(g, comm, resolution) &&
    if improved then Improves(g, idx, comm, resolution) else comm == idx
  }

  ghost predicate Injective(nodes: seq<Node>, idx: Assignment) {
    (forall n :: n in nodes ==> n in idx) && forall x, y :: x in nodes && y in nodes && idx[x] == idx[y] ==> x == y
  }

  /** Numbering the super-nodes is such a grouping. */
  lemma NumberingScores(base: Graph, membership: map<Node, Node>, current: Graph, idx: Assignment, resolution: real,
                        low: real)
    requires Routed(base, membership, current) && Faithful(base, membership, current, resolution)
    requires Reached(base, membership, resolution, low) && Assigned(current, idx) && Injective(current.nodes, idx)
    ensures ScoresAtLeast(current, idx, resolution, low)
  {
    var p := Pulled(membership, idx);
    assert SameScore(base, p, current, idx, resolution);
    assert Groups(base, membership, p);
    assert ScoresAtLeast(base, p, resolution, low);
  }

  lemma MovedGroups(base: Graph, membership: map<Node, Node>, current: Graph, comm: Assignment, names: map<int, Node>,
                    next: map<Node, Node>, x: Node, y: Node)
    requires Routed(base, membership, current) && Named(current, comm, names)
    requires Moved(membership, current, comm, names, next)
    requires x in base.nodes && y in base.nodes
    ensures next[x] == next[y] <==> Pulled(membership, comm)[x] == Pulled(membership, comm)[y]
  {
    assert membership[x] in current.nodes && membership[y] in current.nodes;
  }

  /** So is what the local moves make of it. */
  lemma MovesReach(base: Graph, membership: map<Node, Node>, current: Graph, comm: Assignment, names: map<int, Node>,
                   next: map<Node, Node>, resolution: real, low: real)
    requires Routed(base, membership, current) && Faithful(base, membership, current, resolution)
    requires Named(current, comm, names) && Moved(membership, current, comm, names, next)
    requires ScoresAtLeast(current, comm, resolution, low)
    ensures Reached(base, next, resolution, low)
  {
    var p := Pulled(membership, comm);
    assert SameScore(base, p, current, comm, resolution);
    forall x, y | x in base.nodes && y in base.nodes ensures next[x] == next[y] <==> p[x] == p[y] {
      MovedGroups(base, membership, current, comm, names, next, x, y);
    }
    forall a | Groups(base, next, a) ensures ScoresAtLeast(base, a, resolution, low) {
      RelabellingKeepsScore(base, p, a, resolution);
    }
  }

  datatype Option<T> = None | Some(value: T)

  // ---- the detector -----------------------------------------------------------------------------------

  /** Each node has its position. */
  ghost predicate Enumerated(nodes: seq<Node>, idx: Assignment) {
    (forall n :: n in idx <==> n in nodes) && forall i :: 0 <= i < |nodes| ==> nodes[i] in idx && idx[nodes[i]] == i
  }

  lemma EnumeratedIsInjective(nodes: seq<Node>, idx: Assignment)
    requires Enumerated(nodes, idx)
    ensures Injective(nodes, idx) && forall n :: n in nodes ==> 0 <= idx[n] < |nodes| && nodes[idx[n]] == n
  {
    forall x | x in nodes ensures 0 <= idx[x] < |nodes| && nodes[idx[x]] == x {
      var i :| 0 <= i < |nodes| && nodes[i] == x;
    }
  }

  /** `{n: idx for idx, n in enumerate(nodes)}`. */
  method Enumerate(nodes: seq<Node>) returns (idx: Assignment)
    requires Distinct(nodes)
    ensures Enumerated(nodes, idx)
  {
    idx := map[];
    for i := 0 to |nodes|
      invariant forall n :: n in idx <==> n in nodes[..i]
      invariant forall k :: 0 <= k < i ==> nodes[k] in idx && idx[nodes[k]] == k
    {
      assert nodes[..i + 1] == nodes[..i] + [nodes[i]];
      idx := idx[nodes[i] := i];
    }
    assert nodes[..|nodes|] == nodes;
  }

  ghost function Below(n: nat): (r: set<int>)
    ensures forall i :: i in r <==> 0 <= i < n
  {
    if n == 0 then {} else Below(n - 1) + {n - 1}
  }

  /** `label`: a name for every community in use. */
  function NamesOf(comm: Assignment, level: nat): map<int, Node> {
    var used := set n | n in comm :: comm[n];
    map c | c in used && 0 <= c :: SuperName(level, c)
  }

  lemma NamesAreNamed(g: Graph, comm: Assignment, level: nat)
    requires Assigned(g, comm) && Labelled(g.nodes, Below(|g.nodes|), comm)
    ensures Named(g, comm, NamesOf(comm, level))
  {
    var names := NamesOf(comm, level);
    forall n | n in g.nodes ensures comm[n] in names {
      assert n in comm && comm[n] in Below(|g.nodes|);
    }
    forall c, d | c in names && d in names && names[c] == names[d] ensures c == d { SuperNameInjective(level, c, d); }
  }

  /** The moves of one level, from one community per super-node. */
  method MoveFrom(current: Graph, idx: Assignment, resolution: real)
    returns (comm: Assignment, improved: bool, ghost run: seq<Sweep>)
    requires Undirected(current) && InOrder(current) && Enumerated(current.nodes, idx)
    ensures Assigned(current, comm) && Labelled(current.nodes, Below(|current.nodes|), comm)
    ensures Settles(current, idx, comm, improved, resolution) && MovesTo(current, idx, run, comm, resolution)
  {
    EnumeratedIsInjective(current.nodes, idx);
    var m := Community.TotalWeight(current);
    comm, improved, run := LocalMove(current, idx, m, resolution, Below(|current.nodes|));
  }

  /** `{orig: label[comm[cur]] for orig, cur in membership.items()}`. */
  method Relocate(ghost base: Graph, membership: map<Node, Node>, ghost current: Graph, comm: Assignment,
                  names: map<int, Node>)
    returns (next: map<Node, Node>)
    requires Routed(base, membership, current) && Named(current, comm, names)
    ensures Moved(membership, current, comm, names, next)
  {
    forall n | n in membership ensures membership[n] in comm && comm[membership[n]] in names {
      assert membership[n] in current.nodes;
    }
    next := map n | n in membership :: names[comm[membership[n]]];
  }

  /** What the moves reach is no worse than what they started from. */
  lemma SettledScores(g: Graph, idx: Assignment, comm: Assignment, improved: bool, resolution: real, low: real)
    requires Settles(g, idx, comm, improved, resolution) && ScoresAtLeast(g, idx, resolution, low)
    ensures ScoresAtLeast(g, comm, resolution, low)
  {
  }

  // ---- the levels climbed -----------------------------------------------------------------------

  /** One level: its graph and where the nodes had got to, the run of its moves from the numbered
      super-nodes to their communities, whether they changed anything and what they score, where
      they take the nodes, and the graph collapsed for the next level if there is one. */
  datatype Level = Level(graph: Graph, membership: map<Node, Node>, idx: Assignment, run: seq<Sweep>, comm: Assignment,
                         improved: bool, score: real, next: map<Node, Node>, after: Graph)

  ghost predicate LevelRuns(l: Level, k: nat, resolution: real) {
    Undirected(l.graph) && InOrder(l.graph) && Enumerated(l.graph.nodes, l.idx) &&
    Settles(l.graph, l.idx, l.comm, l.improved, resolution) &&
    (forall n :: n in l.comm ==> 0 <= l.comm[n] < |l.graph.nodes|) &&
    Named(l.graph, l.comm, NamesOf(l.comm, k)) && l.score == ModularityOf(l.graph, l.comm, resolution) &&
    Moved(l.membership, l.graph, l.comm, NamesOf(l.comm, k), l.next)
  }

  ghost predicate CollapsesTo(g: Graph, cls: Node -> Node, agg: Graph) {
    Collapsed(g, cls, agg) && Onto(g, cls, agg) && InOrder(agg) &&
    (forall l :: RowOrder(agg, l) == SuperOrder(g, cls, l)) &&
    forall i, j :: 0 <= i < j < |agg.nodes| ==> Before(agg.nodes[i], agg.nodes[j])
  }

  ghost predicate LevelCollapses(l: Level, k: nat) {
    CollapsesTo(l.graph, SuperOf(l.comm, NamesOf(l.comm, k)), l.after)
  }

  /** The level has moved something and scores more than the one before. */
  ghost predicate GoesOn(l: Level, before: Option<Level>) {
    l.improved && (before.Some? ==> l.score > before.value.score + 0.000000000001)
  }

  ghost predicate AtHome(base: Graph, membership: map<Node, Node>) {
    (forall n :: n in membership <==> n in base.nodes) && forall n :: n in membership ==> membership[n] == n
  }

  /** The first level begins on the graph itself, the others where the one before has led. */
  ghost predicate Begins(base: Graph, l: Level, before: Option<Level>) {
    if before.None? then l.graph == base && AtHome(base, l.membership)
    else l.graph == before.value.after && l.membership == before.value.next
  }

  ghost predicate Fits(base: Graph, l: Level, before: Option<Level>, k: nat, resolution: real) {
    LevelRuns(l, k, resolution) && Begins(base, l, before) && (GoesOn(l, before) ==> LevelCollapses(l, k))
  }

  ghost function BeforeAt(levels: seq<Level>, k: nat): Option<Level>
    requires k <= |levels|
  {
    if k == 0 then None else Some(levels[k - 1])
  }

  ghost predicate LevelAt(base: Graph, levels: seq<Level>, k: nat, resolution: real) {
    k < |levels| && Fits(base, levels[k], BeforeAt(levels, k), k, resolution)
  }

  ghost predicate RunAt(levels: seq<Level>, k: nat, resolution: real) {
    k < |levels| && MovesTo(levels[k].graph, levels[k].idx, levels[k].run, levels[k].comm, resolution)
  }

  ghost predicate GoesOnAt(levels: seq<Level>, k: nat) {
    k < |levels| && GoesOn(levels[k], BeforeAt(levels, k))
  }

  /** Levels one after another; all but the last go on. */
  ghost predicate Climbing(base: Graph, levels: seq<Level>, resolution: real) {
    (forall k {:trigger LevelAt(base, levels, k, resolution)} :: 0 <= k < |levels| ==>
      LevelAt(base, levels, k, resolution)) &&
    (forall k {:trigger RunAt(levels, k, resolution)} :: 0 <= k < |levels| ==> RunAt(levels, k, resolution)) &&
    forall k {:trigger GoesOnAt(levels, k)} :: 0 <= k < |levels| - 1 ==> GoesOnAt(levels, k)
  }

  /** To the end: the last level does not go on, or there may be no more. */
  ghost predicate Climbed(base: Graph, levels: seq<Level>, maxLevels: int, resolution: real) {
    Climbing(base, levels, resolution) && (levels != [] ==> |levels| <= maxLevels) &&
    (|levels| < maxLevels ==> levels != [] && !GoesOnAt(levels, |levels| - 1))
  }

  /** Where the levels have taken the nodes. */
  ghost predicate EndsAt(base: Graph, levels: seq<Level>, membership: map<Node, Node>) {
    if levels == [] then AtHome(base, membership) else membership == levels[|levels| - 1].next
  }

  /** Between two levels. */
  ghost predicate Between(base: Graph, levels: seq<Level>, current: Graph, membership: map<Node, Node>,
                          previous: Option<real>, resolution: real)
  {
    Climbing(base, levels, resolution) && EndsAt(base, levels, membership) &&
    if levels == [] then current == base && previous.None?
    else GoesOnAt(levels, |levels| - 1) && current == levels[|levels| - 1].after &&
         previous == Some(levels[|levels| - 1].score)
  }

  lemma FitsOneMore(base: Graph, levels: seq<Level>, l: Level, k: nat, resolution: real)
    requires if k < |levels| then LevelAt(base, levels, k, resolution)
             else k == |levels| && Fits(base, l, BeforeAt(levels, k), k, resolution)
    ensures LevelAt(base, levels + [l], k, resolution)
  {
    assert BeforeAt(levels + [l], k) == BeforeAt(levels, k);
    assert (levels + [l])[k] == if k < |levels| then levels[k] else l;
  }

  lemma RunsOneMore(levels: seq<Level>, l: Level, k: nat, resolution: real)
    requires if k < |levels| then RunAt(levels, k, resolution)
             else k == |levels| && MovesTo(l.graph, l.idx, l.run, l.comm, resolution)
    ensures RunAt(levels + [l], k, resolution)
  {
    assert (levels + [l])[k] == if k < |levels| then levels[k] else l;
  }

  lemma GoesOnOneMore(levels: seq<Level>, l: Level, k: nat)
    requires k <= |levels|
    ensures GoesOnAt(levels + [l], k) <==>
      if k < |levels| then GoesOnAt(levels, k) else GoesOn(l, BeforeAt(levels, k))
  {
    assert BeforeAt(levels + [l], k) == BeforeAt(levels, k);
  }

  lemma OneLevelMore(base: Graph, levels: seq<Level>, l: Level, resolution: real)
    requires Climbing(base, levels, resolution) && (levels != [] ==> GoesOnAt(levels, |levels| - 1))
    requires Fits(base, l, BeforeAt(levels, |levels|), |levels|, resolution)
    requires MovesTo(l.graph, l.idx, l.run, l.comm, resolution)
    ensures Climbing(base, levels + [l], resolution)
    ensures GoesOnAt(levels + [l], |levels|) <==> GoesOn(l, BeforeAt(levels, |levels|))
  {
    hide LevelAt, Fits, RunAt, GoesOnAt, GoesOn, MovesTo;
    var more := levels + [l];
    forall k | 0 <= k < |more| ensures LevelAt(base, more, k, resolution) {
      FitsOneMore(base, levels, l, k, resolution);
    }
    forall k | 0 <= k < |more| ensures RunAt(more, k, resolution) { RunsOneMore(levels, l, k, resolution); }
    forall k | 0 <= k < |more| - 1 ensures GoesOnAt(more, k) { GoesOnOneMore(levels, l, k); }
    GoesOnOneMore(levels, l, |levels|);
  }

  /** One level more, from where the levels stand. */
  lemma NextLevel(base: Graph, levels: seq<Level>, current: Graph, membership: map<Node, Node>,
                  previous: Option<real>, l: Level, goesOn: bool, resolution: real)
    requires Between(base, levels, current, membership, previous, resolution)
    requires l.graph == current && l.membership == membership && LevelRuns(l, |levels|, resolution)
    requires MovesTo(l.graph, l.idx, l.run, l.comm, resolution)
    requires goesOn <==> l.improved && (previous.Some? ==> l.score > previous.value + 0.000000000001)
    requires goesOn ==> LevelCollapses(l, |levels|)
    ensures if goesOn then Between(base, levels + [l], l.after, l.next, Some(l.score), resolution)
            else Climbing(base, levels + [l], resolution) && !GoesOnAt(levels + [l], |levels|)
  {
    hide LevelRuns, LevelCollapses, MovesTo;
    assert GoesOn(l, BeforeAt(levels, |levels|)) <==> goesOn;
    OneLevelMore(base, levels, l, resolution);
  }

  /** Different nodes are in different places. */
  ghost predicate Apart(base: Graph, membership: map<Node, Node>) {
    forall x, y :: x in base.nodes && y in base.nodes && x in membership && y in membership ==>
      (membership[x] == membership[y] ==> x == y)
  }

  /** What the levels make of the numbered nodes: `low` is a score they reach. With a level to run
      it is above the numbering's exactly when the numbering is not locally optimal, and when it is
      no two nodes are put together. */
  ghost predicate Climbs(base: Graph, first: Assignment, membership: map<Node, Node>, maxLevels: int, resolution: real,
                         low: real)
  {
    Reached(base, membership, resolution, low) && Enumerated(base.nodes, first) && Assigned(base, first) &&
    ModularityOf(base, first, resolution) <= low &&
    (maxLevels >= 1 ==> (LocallyOptimal(base, first, resolution) <==> low == ModularityOf(base, first, resolution))) &&
    (maxLevels < 1 || LocallyOptimal(base, first, resolution) ==> Apart(base, membership))
  }

  /** After a level that goes on: something has improved. */
  ghost predicate Improved(base: Graph, first: Assignment, resolution: real, low: real) {
    Assigned(base, first) && !LocallyOptimal(base, first, resolution) && low > ModularityOf(base, first, resolution)
  }

  /** The first level reaches the score of its moves. */
  lemma FirstLevel(base: Graph, first: Assignment, membership: map<Node, Node>, moved: Assignment, improved: bool,
                   names: map<int, Node>, next: map<Node, Node>, resolution: real)
    requires Undirected(base) && AtHome(base, membership) && Enumerated(base.nodes, first)
    requires Named(base, moved, names) && Moved(membership, base, moved, names, next)
    requires Settles(base, first, moved, improved, resolution)
    ensures Reached(base, next, resolution, ModularityOf(base, moved, resolution))
    ensures improved ==> Improved(base, first, resolution, ModularityOf(base, moved, resolution))
    ensures !improved ==> LocallyOptimal(base, first, resolution) && moved == first && Apart(base, next)
  {
    StartIsFaithful(base, membership, resolution);
    MovesReach(base, membership, base, moved, names, next, resolution, ModularityOf(base, moved, resolution));
    if !improved {
      EnumeratedIsInjective(base.nodes, first);
      forall x, y | x in base.nodes && y in base.nodes && x in next && y in next && next[x] == next[y] ensures x == y {
        MovedGroups(base, membership, base, moved, names, next, x, y);
      }
    }
  }

  lemma StartIsReached(base: Graph, membership: map<Node, Node>, first: Assignment, resolution: real)
    requires ValidGraph(base) && AtHome(base, membership) && Enumerated(base.nodes, first)
    ensures Assigned(base, first) && Reached(base, membership, resolution, ModularityOf(base, first, resolution))
    ensures Apart(base, membership)
  {
    EnumeratedIsInjective(base.nodes, first);
    forall a | Groups(base, membership, a)
      ensures ScoresAtLeast(base, a, resolution, ModularityOf(base, first, resolution))
    {
      RelabellingKeepsScore(base, first, a, resolution);
    }
  }

  ghost function Numbering(nodes: seq<Node>): (idx: Assignment)
    requires Distinct(nodes)
    ensures Enumerated(nodes, idx)
  {
    if nodes == [] then map[]
    else
      var front, last := nodes[..|nodes| - 1], nodes[|nodes| - 1];
      Numbering(front)[last := |front|]
  }

  lemma EnumeratedUnique(nodes: seq<Node>, a: Assignment, b: Assignment)
    requires Enumerated(nodes, a) && Enumerated(nodes, b)
    ensures a == b
  {
    forall n | n in a ensures n in b && a[n] == b[n] {
      var i :| 0 <= i < |nodes| && nodes[i] == n;
    }
  }

  lemma GoneOn(base: Graph, levels: seq<Level>, k: nat, resolution: real)
    requires Climbing(base, levels, resolution) && k < |levels| - 1
    ensures LevelRuns(levels[k], k, resolution) && LevelCollapses(levels[k], k)
    ensures levels[k + 1].graph == levels[k].after && levels[k + 1].membership == levels[k].next
  {
    hide LevelRuns, LevelCollapses;
    assert LevelAt(base, levels, k, resolution) && GoesOnAt(levels, k);
    assert LevelAt(base, levels, k + 1, resolution);
  }

  lemma FirstBegins(base: Graph, levels: seq<Level>, resolution: real)
    requires Climbing(base, levels, resolution) && levels != []
    ensures levels[0].graph == base && AtHome(base, levels[0].membership)
  {
    hide LevelRuns, LevelCollapses;
    assert LevelAt(base, levels, 0, resolution);
  }

  lemma LevelKeepsFaith(base: Graph, l: Level, k: nat, resolution: real)
    requires LevelRuns(l, k, resolution) && LevelCollapses(l, k)
    requires Routed(base, l.membership, l.graph) && Faithful(base, l.membership, l.graph, resolution)
    ensures Undirected(l.after) && Routed(base, l.next, l.after) && Faithful(base, l.next, l.after, resolution)
  {
    LevelIsFaithful(base, l.membership, l.graph, l.comm, NamesOf(l.comm, k), l.after, l.next, resolution);
  }

  /** At every level, partitions score what they mean for the original graph. */
  lemma {:induction false} LevelsAreFaithful(base: Graph, levels: seq<Level>, k: nat, resolution: real)
    requires Undirected(base) && Climbing(base, levels, resolution) && k < |levels|
    ensures Undirected(levels[k].graph) && Routed(base, levels[k].membership, levels[k].graph)
    ensures Faithful(base, levels[k].membership, levels[k].graph, resolution)
  {
    hide LevelRuns, LevelCollapses, Faithful, LevelAt;
    if k == 0 {
      FirstBegins(base, levels, resolution);
      StartIsFaithful(base, levels[0].membership, resolution);
    } else {
      LevelsAreFaithful(base, levels, k - 1, resolution);
      GoneOn(base, levels, k - 1, resolution);
      LevelKeepsFaith(base, levels[k - 1], k - 1, resolution);
    }
  }

  /** Unless the first level has changed nothing, something has improved for good. */
  ghost predicate Raised(base: Graph, l: Level, k: nat, improved: bool, first: Assignment, resolution: real, low: real)
  {
    if k > 0 || improved then Improved(base, first, resolution, low)
    else Assigned(base, first) && LocallyOptimal(base, first, resolution) && Apart(base, l.next) &&
         low == ModularityOf(base, first, resolution)
  }

  /** Wherever the levels stop, the grouping reached scores at least the first level's moves. */
  lemma {:induction false} LevelsReach(base: Graph, levels: seq<Level>, k: nat, first: Assignment, resolution: real)
    returns (low: real)
    requires Undirected(base) && Enumerated(base.nodes, first) && Climbing(base, levels, resolution) && k < |levels|
    ensures Reached(base, levels[k].next, resolution, low)
    ensures Raised(base, levels[k], k, levels[0].improved, first, resolution, low)
  {
    hide LevelRuns, LevelCollapses, Faithful, Routed, Reached, Improved, Apart, LocallyOptimal;
    assert LevelAt(base, levels, k, resolution);
    var l := levels[k];
    if k == 0 {
      FirstBegins(base, levels, resolution);
      low := FirstRaises(base, l, first, resolution);
    } else {
      low := LevelsReach(base, levels, k - 1, first, resolution);
      assert GoesOnAt(levels, 0);
      LevelsAreFaithful(base, levels, k, resolution);
      LaterLevel(base, l, k, resolution, low);
    }
  }

  lemma FirstRaises(base: Graph, l: Level, first: Assignment, resolution: real) returns (low: real)
    requires Undirected(base) && Enumerated(base.nodes, first)
    requires LevelRuns(l, 0, resolution) && l.graph == base && AtHome(base, l.membership)
    ensures Reached(base, l.next, resolution, low) && Raised(base, l, 0, l.improved, first, resolution, low)
  {
    EnumeratedUnique(base.nodes, first, l.idx);
    FirstLevel(base, first, l.membership, l.comm, l.improved, NamesOf(l.comm, 0), l.next, resolution);
    low := l.score;
  }

  /** A later level keeps what has been reached. */
  lemma LaterLevel(base: Graph, l: Level, k: nat, resolution: real, low: real)
    requires Routed(base, l.membership, l.graph) && Faithful(base, l.membership, l.graph, resolution)
    requires LevelRuns(l, k, resolution) && Reached(base, l.membership, resolution, low)
    ensures Reached(base, l.next, resolution, low)
  {
    EnumeratedIsInjective(l.graph.nodes, l.idx);
    NumberingScores(base, l.membership, l.graph, l.idx, resolution, low);
    SettledScores(l.graph, l.idx, l.comm, l.improved, resolution, low);
    MovesReach(base, l.membership, l.graph, l.comm, NamesOf(l.comm, k), l.next, resolution, low);
  }

  // ---- the score of a level ---------------------------------------------------------------------------

  /** A partition that groups the nodes as a level's super-nodes are assigned scores what that scores. */
  lemma GroupedScores(base: Graph, l: Level, k: nat, a: Assignment, resolution: real)
    requires LevelRuns(l, k, resolution)
    requires Routed(base, l.membership, l.graph) && Faithful(base, l.membership, l.graph, resolution)
    requires (forall n :: n in base.nodes ==> n in l.next) && Groups(base, l.next, a)
    ensures ModularityOf(base, a, resolution) == l.score
  {
    hide ModularityOf, NamesOf, InOrder, LocallyOptimal, Enumerated;
    var p := Pulled(l.membership, l.comm);
    assert SameScore(base, p, l.graph, l.comm, resolution);
    forall x, y | x in base.nodes && y in base.nodes ensures a[x] == a[y] <==> p[x] == p[y] {
      MovedGroups(base, l.membership, l.graph, l.comm, NamesOf(l.comm, k), l.next, x, y);
    }
    RelabellingKeepsScore(base, p, a, resolution);
  }

  lemma NextIsTotal(base: Graph, l: Level, k: nat, resolution: real)
    requires LevelRuns(l, k, resolution) && Routed(base, l.membership, l.graph)
    ensures forall n :: n in base.nodes ==> n in l.next
  {
  }

  /** What a level is said to score is what the nodes grouped by where it takes them score. */
  lemma LevelScores(base: Graph, levels: seq<Level>, k: nat, a: Assignment, resolution: real)
    requires Undirected(base) && Climbing(base, levels, resolution) && k < |levels|
    requires (forall n :: n in base.nodes ==> n in levels[k].next) && Groups(base, levels[k].next, a)
    ensures ModularityOf(base, a, resolution) == levels[k].score
  {
    hide LevelRuns, LevelCollapses, Faithful, Routed, Groups, ModularityOf;
    LevelsAreFaithful(base, levels, k, resolution);
    assert LevelAt(base, levels, k, resolution);
    GroupedScores(base, levels[k], k, a, resolution);
  }

  /** One community per super-node scores what the level before reached. */
  lemma StartsWhereLeft(base: Graph, levels: seq<Level>, k: nat, resolution: real)
    requires Undirected(base) && Climbing(base, levels, resolution) && k < |levels| - 1
    requires LevelRuns(levels[k + 1], k + 1, resolution)
    ensures Assigned(levels[k + 1].graph, levels[k + 1].idx)
    ensures ModularityOf(levels[k + 1].graph, levels[k + 1].idx, resolution) == levels[k].score
  {
    hide LevelCollapses, MovesTo, ModularityOf, Settles, Named, Moved, InOrder;
    var l := levels[k + 1];
    GoneOn(base, levels, k, resolution);
    LevelsAreFaithful(base, levels, k, resolution);
    LevelsAreFaithful(base, levels, k + 1, resolution);
    NextIsTotal(base, levels[k], k, resolution);
    EnumeratedIsInjective(l.graph.nodes, l.idx);
    var p := Pulled(l.membership, l.idx);
    assert SameScore(base, p, l.graph, l.idx, resolution);
    assert Groups(base, levels[k].next, p);
    LevelScores(base, levels, k, p, resolution);
  }

  /** From level to level the score never falls, and it rises exactly where something moved. */
  lemma LevelsRise(base: Graph, levels: seq<Level>, k: nat, resolution: real)
    requires Undirected(base) && Climbing(base, levels, resolution) && k < |levels| - 1
    ensures if levels[k + 1].improved then levels[k + 1].score > levels[k].score
            else levels[k + 1].score == levels[k].score
  {
    hide LevelCollapses, MovesTo, ModularityOf, Named, Moved, InOrder, Enumerated, LocallyOptimal;
    assert LevelAt(base, levels, k + 1, resolution);
    StartsWhereLeft(base, levels, k, resolution);
  }

  lemma ClimbedClimbs(base: Graph, levels: seq<Level>, first: Assignment, membership: map<Node, Node>, maxLevels: int,
                      resolution: real)
    returns (low: real)
    requires Undirected(base) && Enumerated(base.nodes, first)
    requires Climbed(base, levels, maxLevels, resolution) && EndsAt(base, levels, membership)
    ensures Climbs(base, first, membership, maxLevels, resolution, low)
  {
    if levels == [] {
      StartIsReached(base, membership, first, resolution);
      low := ModularityOf(base, first, resolution);
    } else {
      low := LevelsReach(base, levels, |levels| - 1, first, resolution);
      assert levels[0].improved || |levels| == 1 by {
        if |levels| > 1 { assert GoesOnAt(levels, 0); }
      }
    }
  }

  /** From a level to the next. */
  lemma CollapsedIsRouted(base: Graph, membership: map<Node, Node>, current: Graph, comm: Assignment,
                          names: map<int, Node>, agg: Graph, next: map<Node, Node>)
    requires Collapsed(current, SuperOf(comm, names), agg) && Routed(base, membership, current)
    requires Moved(membership, current, comm, names, next)
    ensures Undirected(agg) && Routed(base, next, agg)
  {
  }

  /** One level before it is collapsed: the moves, what they score and where they take the nodes. */
  method Move(ghost base: Graph, membership: map<Node, Node>, current: Graph, idx: Assignment, level: nat,
              resolution: real)
    returns (comm: Assignment, improved: bool, names: map<int, Node>, next: map<Node, Node>, q: real,
             ghost run: seq<Sweep>)
    requires Undirected(current) && InOrder(current)
    requires Routed(base, membership, current) && Enumerated(current.nodes, idx)
    ensures Named(current, comm, names) && names == NamesOf(comm, level)
    ensures Moved(membership, current, comm, names, next) && next.Keys == membership.Keys
    ensures MovesTo(current, idx, run, comm, resolution)
    ensures forall after ::
      LevelRuns(Level(current, membership, idx, run, comm, improved, q, next, after), level, resolution)
  {
    comm, improved, run := MoveFrom(current, idx, resolution);
    q := Community.ModularityScore(current, comm, resolution);
    names := NamesOf(comm, level);
    NamesAreNamed(current, comm, level);
    forall n | n in comm ensures 0 <= comm[n] < |current.nodes| { assert comm[n] in Below(|current.nodes|); }
    next := Relocate(base, membership, current, comm, names);
  }

  /** The body of the loop: the level, whether to go on, and what to go on with. */
  method ClimbLevel(ghost base: Graph, membership: map<Node, Node>, current: Graph, idx: Assignment, level: nat,
                    previous: Option<real>, resolution: real, ghost before: seq<Level>)
    returns (next: map<Node, Node>, q: real, goesOn: bool, agg: Graph, ghost levels: seq<Level>)
    requires Undirected(current) && InOrder(current)
    requires Routed(base, membership, current) && Enumerated(current.nodes, idx)
    requires Between(base, before, current, membership, previous, resolution) && |before| == level
    ensures |levels| == level + 1 && levels[level].next == next && next.Keys == membership.Keys
    ensures goesOn ==> Undirected(agg) && InOrder(agg) && Routed(base, next, agg)
    ensures if goesOn then Between(base, levels, agg, next, Some(q), resolution)
            else Climbing(base, levels, resolution) && !GoesOnAt(levels, level)
  {
    hide LevelRuns, Collapsed, Onto, Named, MovesTo, Moved, Between, Routed, Undirected, Enumerated, Climbing;
    hide SuperOf, NamesOf, InOrder, SuperOrder, RowOrder;
    var moved, improved, names;
    ghost var run;
    moved, improved, names, next, q, run := Move(base, membership, current, idx, level, resolution);
    goesOn := !(!improved || (previous.Some? && q <= previous.value + 0.000000000001));
    agg := current;
    if goesOn {
      agg := Aggregate(current, moved, names);
      CollapsedIsRouted(base, membership, current, moved, names, agg, next);
    }
    ghost var l := Level(current, membership, idx, run, moved, improved, q, next, agg);
    NextLevel(base, before, current, membership, previous, l, goesOn, resolution);
    levels := before + [l];
  }

  /** The levels. */
  method Climb(base: Graph, maxLevels: int, resolution: real)
    returns (membership: map<Node, Node>, ghost levels: seq<Level>)
    requires Undirected(base) && InOrder(base)
    ensures forall n :: n in membership <==> n in base.nodes
    ensures Climbed(base, levels, maxLevels, resolution) && EndsAt(base, levels, membership)
  {
    var current := base;
    membership := map n | n in base.nodes :: n;
    var comm := Enumerate(current.nodes);
    var previous: Option<real> := None;
    levels := [];
    for level := 0 to if maxLevels < 0 then 0 else maxLevels
      invariant Undirected(current) && InOrder(current)
      invariant Routed(base, membership, current) && Enumerated(current.nodes, comm)
      invariant Between(base, levels, current, membership, previous, resolution) && |levels| == level
    {
      var q, goesOn, agg;
      membership, q, goesOn, agg, levels :=
        ClimbLevel(base, membership, current, comm, level, previous, resolution, levels);
      if !goesOn { break; }
      previous := Some(q);
      current := agg;
      comm := Enumerate(current.nodes);
    }
  }

  // ---- one community per node ---------------------------------------------------------------

  /** However labelled, it scores the same. */
  lemma SinglesScore(base: Graph, one: Assignment, s: Assignment, resolution: real)
    requires Assigned(base, one) && Injective(base.nodes, one) && Assigned(base, s) && Injective(base.nodes, s)
    ensures ModularityOf(base, s, resolution) == ModularityOf(base, one, resolution)
  {
    RelabellingKeepsScore(base, one, s, resolution);
  }

  lemma RelabelledMove(g: Graph, a: Assignment, b: Assignment, i: Node, j: Node, resolution: real)
    requires Assigned(g, a) && Assigned(g, b) && SamePartition(g.nodes, a, b) && i in g.nodes && j in g.nodes
    ensures Improves(g, a, a[i := a[j]], resolution) <==> Improves(g, b, b[i := b[j]], resolution)
  {
    var c, d := a[i := a[j]], b[i := b[j]];
    assert SamePartition(g.nodes, c, d);
    assert Assigned(g, c) && Assigned(g, d);
    RelabellingKeepsScore(g, a, b, resolution);
    RelabellingKeepsScore(g, c, d, resolution);
  }

  /** Being locally optimal is about the partition, too. */
  lemma RelabelledOptimal(g: Graph, a: Assignment, b: Assignment, resolution: real)
    requires Assigned(g, b) && SamePartition(g.nodes, a, b) && LocallyOptimal(g, a, resolution)
    ensures LocallyOptimal(g, b, resolution)
  {
    forall i, c | i in g.nodes && Neighbouring(g, b, i, c) ensures !Improves(g, b, b[i := c], resolution) {
      RowAssigned(g, b, i);
      RowInside(g, i);
      var j :| j in Row(g, i) && b[j] == c;
      RowAssigned(g, a, i);
      assert Neighbouring(g, a, i, a[j]);
      assert StaysPut(g, a, i, resolution);
      RelabelledMove(g, a, b, i, j, resolution);
    }
  }

  lemma EmptyScores(base: Graph, a: Assignment, resolution: real)
    requires Undirected(base) && base.nodes == []
    ensures ModularityOf(base, a, resolution) == 0.0 && CoverageOf(base, a) == 0.0
  {
    TotalIsHalfDegrees(base);
  }

  ghost predicate InUse(a: Assignment, c: int) {
    exists n :: n in a && a[n] == c
  }

  /** The communities are numbered from zero without gaps. */
  ghost predicate Consecutive(a: Assignment, count: nat) {
    (forall n :: n in a ==> 0 <= a[n] < count) && forall c {:trigger InUse(a, c)} :: 0 <= c < count ==> InUse(a, c)
  }

  /** The names of the places reached, in order, and each node's index in that list. */
  ghost predicate IndexedBy(names: seq<Node>, membership: map<Node, Node>, assignment: Assignment) {
    (forall i, j :: 0 <= i < j < |names| ==> Before(names[i], names[j])) &&
    (forall y :: y in names <==> exists n :: n in membership && membership[n] == y) &&
    assignment.Keys == membership.Keys &&
    forall n :: n in membership ==> 0 <= assignment[n] < |names| && names[assignment[n]] == membership[n]
  }

  ghost predicate Indexed(membership: map<Node, Node>, assignment: Assignment) {
    exists names :: IndexedBy(names, membership, assignment)
  }

  /** What the levels climbed determine: the assignment is the numbering of where they end. */
  ghost predicate Detected(base: Graph, levels: seq<Level>, assignment: Assignment, maxLevels: int, resolution: real) {
    if base.nodes == [] then assignment == map[]
    else
      Climbed(base, levels, maxLevels, resolution) &&
      exists membership :: EndsAt(base, levels, membership) && Indexed(membership, assignment)
  }

  /** The number that a level gives the community it puts a node in. */
  ghost function Number(l: Level, x: Node): int {
    if x in l.membership && l.membership[x] in l.comm then l.comm[l.membership[x]] else -1
  }

  /** Two nodes are numbered in the order of the numerals of their communities' numbers. */
  ghost predicate ByNumeral(l: Level, a: Assignment, x: Node, y: Node) {
    x in a && y in a && Number(l, x) >= 0 && Number(l, y) >= 0 &&
    (a[x] < a[y] <==> Before(Decimal(Number(l, x)), Decimal(Number(l, y))))
  }

  /** At most ten super-nodes, or at most ten communities and each a single super-node. */
  ghost predicate FewNumbers(l: Level) {
    |l.graph.nodes| <= 10 || (!l.improved && |l.comm.Values| <= 10)
  }

  lemma {:induction false} BelowSize(n: nat)
    ensures |Below(n)| == n
  {
    if n > 0 { BelowSize(n - 1); }
  }

  lemma EnumeratedValues(nodes: seq<Node>, idx: Assignment)
    requires Enumerated(nodes, idx)
    ensures |idx.Values| == |nodes|
  {
    EnumeratedIsInjective(nodes, idx);
    BelowSize(|nodes|);
    forall c ensures c in idx.Values <==> c in Below(|nodes|) {
      if c in Below(|nodes|) { assert nodes[c] in idx && idx[nodes[c]] == c; }
    }
    assert idx.Values == Below(|nodes|);
  }

  lemma FewIsOneDigit(l: Level, k: nat, resolution: real)
    requires LevelRuns(l, k, resolution) && FewNumbers(l)
    ensures |l.graph.nodes| <= 10
  {
    hide ModularityOf, LocallyOptimal, Undirected, InOrder, Moved, Named, Enumerated;
    if !l.improved { EnumeratedValues(l.graph.nodes, l.idx); }
  }

  lemma PlacedInLevel(base: Graph, l: Level, k: nat, x: Node, resolution: real)
    requires LevelRuns(l, k, resolution) && Routed(base, l.membership, l.graph) && x in base.nodes
    ensures 0 <= Number(l, x) < |l.graph.nodes| && x in l.next
    ensures l.next[x] == "L" + Decimal(k) + ":" + Decimal(Number(l, x))
  {
    hide ModularityOf, LocallyOptimal, Undirected, InOrder, Settles, Enumerated, SuperName;
    assert l.membership[x] in l.graph.nodes;
    SuperNameOrder(k, Number(l, x), 0);
  }

  lemma IndexOrder(membership: map<Node, Node>, a: Assignment, x: Node, y: Node)
    requires Indexed(membership, a) && x in membership && y in membership
    ensures x in a && y in a && (a[x] < a[y] <==> Before(membership[x], membership[y]))
  {
    var names :| IndexedBy(names, membership, a);
    IndexedFacts(names, membership, a);
    BeforeTotal(membership[x], membership[y]);
  }

  /** Final ids come in the order of the names "L<level>:<number>" of the last level's communities,
      which is that of the numerals: that of the numbers where these have equally many digits, as
      they do at a level of at most ten super-nodes, or of at most ten communities if it has moved
      nothing. */
  lemma IdsFollowNumerals(base: Graph, levels: seq<Level>, a: Assignment, maxLevels: int, resolution: real,
                          x: Node, y: Node)
    requires Undirected(base) && Detected(base, levels, a, maxLevels, resolution) && levels != []
    requires x in base.nodes && y in base.nodes
    ensures var l := levels[|levels| - 1];
      ByNumeral(l, a, x, y) && 0 <= Number(l, x) < |l.graph.nodes| && 0 <= Number(l, y) < |l.graph.nodes| &&
      (|Decimal(Number(l, x))| == |Decimal(Number(l, y))| ==> (a[x] < a[y] <==> Number(l, x) < Number(l, y))) &&
      (FewNumbers(l) ==> (a[x] < a[y] <==> Number(l, x) < Number(l, y)))
  {
    hide LevelRuns, LevelCollapses, Faithful, Indexed, Number, MovesTo, Undirected, Climbing;
    var k := |levels| - 1;
    var l := levels[k];
    LevelsAreFaithful(base, levels, k, resolution);
    RunsAt(base, levels, k, resolution);
    PlacedInLevel(base, l, k, x, resolution);
    PlacedInLevel(base, l, k, y, resolution);
    var c, d := Number(l, x), Number(l, y);
    SuperNameOrder(k, c, d);
    var membership :| EndsAt(base, levels, membership) && Indexed(membership, a);
    IndexOrder(membership, a, x, y);
    if |Decimal(c)| == |Decimal(d)| { SameLengthOrder(Decimal(c), Decimal(d)); }
    if FewNumbers(l) { FewIsOneDigit(l, k, resolution); }
  }

  /** As IdsFollowNumerals says of two nodes, for all of them. */
  ghost predicate NumberedInOrder(l: Level, a: Assignment) {
    (forall x, y :: x in a && y in a ==> ByNumeral(l, a, x, y)) &&
    (FewNumbers(l) ==>
      forall x, y :: x in a && y in a ==> (a[x] < a[y] <==> Number(l, x) < Number(l, y)))
  }

  lemma AllFollowNumerals(base: Graph, levels: seq<Level>, a: Assignment, maxLevels: int, resolution: real)
    requires Undirected(base) && Detected(base, levels, a, maxLevels, resolution) && levels != []
    requires forall n :: n in a ==> n in base.nodes
    ensures NumberedInOrder(levels[|levels| - 1], a)
  {
    hide Detected, Number, ByNumeral, Undirected;
    var l := levels[|levels| - 1];
    forall x, y | x in a && y in a
      ensures ByNumeral(l, a, x, y)
      ensures FewNumbers(l) ==> (a[x] < a[y] <==> Number(l, x) < Number(l, y))
    {
      IdsFollowNumerals(base, levels, a, maxLevels, resolution, x, y);
    }
  }

  lemma RunsAt(base: Graph, levels: seq<Level>, k: nat, resolution: real)
    requires Climbing(base, levels, resolution) && k < |levels|
    ensures LevelRuns(levels[k], k, resolution)
  {
    hide LevelRuns, LevelCollapses;
    assert LevelAt(base, levels, k, resolution);
  }

  lemma IndexedFacts(names: seq<Node>, membership: map<Node, Node>, assignment: Assignment)
    requires IndexedBy(names, membership, assignment)
    ensures Indexed(membership, assignment) && Consecutive(assignment, |names|)
    ensures forall x, y :: x in membership && y in membership ==>
      (assignment[x] == assignment[y] <==> membership[x] == membership[y])
    ensures forall x, y :: x in membership && y in membership && assignment[x] < assignment[y] ==>
      Before(membership[x], membership[y])
  {
    forall x, y | x in membership && y in membership
      ensures assignment[x] == assignment[y] <==> membership[x] == membership[y]
      ensures assignment[x] < assignment[y] ==> Before(membership[x], membership[y])
    {
      assert names[assignment[x]] == membership[x] && names[assignment[y]] == membership[y];
      if membership[x] == membership[y] { AscendingIndex(names, assignment[x], assignment[y]); }
    }
    forall c {:trigger InUse(assignment, c)} | 0 <= c < |names| ensures InUse(assignment, c) {
      assert names[c] in names;
      var n :| n in membership && membership[n] == names[c];
      AscendingIndex(names, assignment[n], c);
    }
  }

  lemma AscendingIndex(names: seq<Node>, i: nat, j: nat)
    requires forall i, j :: 0 <= i < j < |names| ==> Before(names[i], names[j])
    requires i < |names| && j < |names| && names[i] == names[j]
    ensures i == j
  {
    BeforeTotal(names[i], names[j]);
  }

  /** The communities numbered in the order of their names. */
  method Compact(membership: map<Node, Node>) returns (assignment: Assignment, count: nat)
    ensures assignment.Keys == membership.Keys && Consecutive(assignment, count) && Indexed(membership, assignment)
    ensures forall x, y :: x in membership && y in membership ==>
      (assignment[x] == assignment[y] <==> membership[x] == membership[y])
    ensures forall x, y :: x in membership && y in membership && assignment[x] < assignment[y] ==>
      Before(membership[x], membership[y])
  {
    var reached := set n | n in membership :: membership[n];
    var names := Community.SortedSet(reached);
    var indexOf := Enumerate(names);
    EnumeratedIsInjective(names, indexOf);
    forall n | n in membership ensures membership[n] in names { assert membership[n] in reached; }
    assignment := map n | n in membership :: indexOf[membership[n]];
    count := |names|;
    IndexedFacts(names, membership, assignment);
  }

  /** The partition scores at least what one community per node scores, however labelled. */
  ghost predicate NoWorseThanSingles(base: Graph, assignment: Assignment, resolution: real) {
    Assigned(base, assignment) &&
    forall s :: Assigned(base, s) && Injective(base.nodes, s) ==>
      ModularityOf(base, assignment, resolution) >= ModularityOf(base, s, resolution)
  }

  /** And more, exactly where a single move can improve on one community per node. */
  ghost predicate BetterWherePossible(base: Graph, assignment: Assignment, resolution: real) {
    forall s :: Assigned(base, s) && Injective(base.nodes, s) ==>
      (Improves(base, s, assignment, resolution) <==> !LocallyOptimal(base, s, resolution))
  }

  lemma ClimbedIsNoWorse(base: Graph, one: Assignment, assignment: Assignment, resolution: real)
    requires Assigned(base, one) && Injective(base.nodes, one) && Assigned(base, assignment)
    requires ModularityOf(base, assignment, resolution) >= ModularityOf(base, one, resolution)
    ensures NoWorseThanSingles(base, assignment, resolution)
  {
    forall s | Assigned(base, s) && Injective(base.nodes, s)
      ensures ModularityOf(base, assignment, resolution) >= ModularityOf(base, s, resolution)
    {
      SinglesScore(base, one, s, resolution);
    }
  }

  lemma ClimbedIsBetter(base: Graph, one: Assignment, assignment: Assignment, resolution: real)
    requires Assigned(base, one) && Injective(base.nodes, one) && Assigned(base, assignment)
    requires Improves(base, one, assignment, resolution) <==> !LocallyOptimal(base, one, resolution)
    ensures BetterWherePossible(base, assignment, resolution)
  {
    forall s | Assigned(base, s) && Injective(base.nodes, s)
      ensures Improves(base, s, assignment, resolution) <==> !LocallyOptimal(base, s, resolution)
    {
      SinglesScore(base, one, s, resolution);
      if LocallyOptimal(base, one, resolution) { RelabelledOptimal(base, one, s, resolution); }
      if LocallyOptimal(base, s, resolution) { RelabelledOptimal(base, s, one, resolution); }
    }
  }

  /** What has climbed stands above the numbering where the numbering was not locally optimal. */
  lemma ClimbImproves(base: Graph, first: Assignment, membership: map<Node, Node>, assignment: Assignment,
                      maxLevels: int, resolution: real, low: real)
    requires Climbs(base, first, membership, maxLevels, resolution, low) && maxLevels >= 1
    requires Groups(base, membership, assignment)
    ensures Improves(base, first, assignment, resolution) <==> !LocallyOptimal(base, first, resolution)
  {
    assert ScoresAtLeast(base, assignment, resolution, low);
    EnumeratedIsInjective(base.nodes, first);
    if LocallyOptimal(base, first, resolution) {
      assert Injective(base.nodes, assignment);
      SinglesScore(base, first, assignment, resolution);
    }
  }

  lemma LastScores(base: Graph, levels: seq<Level>, membership: map<Node, Node>, a: Assignment, maxLevels: int,
                   resolution: real)
    requires Undirected(base) && Climbed(base, levels, maxLevels, resolution) && EndsAt(base, levels, membership)
    requires (forall n :: n in base.nodes ==> n in membership) && Groups(base, membership, a) && levels != []
    ensures ModularityOf(base, a, resolution) == levels[|levels| - 1].score
  {
    hide ModularityOf, Undirected, Climbing, GoesOnAt;
    LevelScores(base, levels, |levels| - 1, a, resolution);
  }

  /** The nodes grouped by where the levels have taken them: better than one community per node, and
      scoring what the last level scored. */
  lemma GroupsScore(base: Graph, levels: seq<Level>, membership: map<Node, Node>, a: Assignment, maxLevels: int,
                    resolution: real)
    requires Undirected(base) && Climbed(base, levels, maxLevels, resolution) && EndsAt(base, levels, membership)
    requires (forall n :: n in base.nodes ==> n in membership) && Groups(base, membership, a)
    ensures NoWorseThanSingles(base, a, resolution)
    ensures levels != [] ==> ModularityOf(base, a, resolution) == levels[|levels| - 1].score
    ensures maxLevels >= 1 ==> BetterWherePossible(base, a, resolution)
  {
    var first := Numbering(base.nodes);
    var low := ClimbedClimbs(base, levels, first, membership, maxLevels, resolution);
    hide ModularityOf, LocallyOptimal, Undirected, Climbing, GoesOnAt, Improves, Enumerated, Numbering;
    hide NoWorseThanSingles, BetterWherePossible, Climbed, EndsAt;
    EnumeratedIsInjective(base.nodes, first);
    assert ScoresAtLeast(base, a, resolution, low);
    ClimbedIsNoWorse(base, first, a, resolution);
    if levels != [] { LastScores(base, levels, membership, a, maxLevels, resolution); }
    if maxLevels >= 1 {
      ClimbImproves(base, first, membership, a, maxLevels, resolution, low);
      ClimbedIsBetter(base, first, a, resolution);
    }
  }

  /** The levels and the numbering. */
  method Communities(base: Graph, maxLevels: int, resolution: real)
    returns (assignment: Assignment, count: nat, ghost levels: seq<Level>)
    requires Undirected(base) && InOrder(base) && base.nodes != []
    ensures Detected(base, levels, assignment, maxLevels, resolution)
    ensures (forall n :: n in assignment <==> n in base.nodes) && Consecutive(assignment, count)
    ensures NoWorseThanSingles(base, assignment, resolution)
    ensures levels != [] ==> ModularityOf(base, assignment, resolution) == levels[|levels| - 1].score
    ensures maxLevels >= 1 ==> BetterWherePossible(base, assignment, resolution)
  {
    hide ModularityOf, InOrder, Climbed, EndsAt, Consecutive, Indexed, NoWorseThanSingles, BetterWherePossible;
    var membership;
    membership, levels := Climb(base, maxLevels, resolution);
    assignment, count := Compact(membership);
    GroupsScore(base, levels, membership, assignment, maxLevels, resolution);
  }

  lemma EmptyIsNoWorse(base: Graph, resolution: real)
    requires Undirected(base) && base.nodes == []
    ensures NoWorseThanSingles(base, map[], resolution) && BetterWherePossible(base, map[], resolution)
    ensures ModularityOf(base, map[], resolution) == 0.0 && CoverageOf(base, map[]) == 0.0
  {
    forall s | Assigned(base, s)
      ensures ModularityOf(base, s, resolution) == 0.0 && LocallyOptimal(base, s, resolution)
    {
      EmptyScores(base, s, resolution);
    }
    EmptyScores(base, map[], resolution);
  }

  /** `detect_communities`: every node gets a community, communities are numbered from zero
      without gaps, and the partition scores at least what one community per node scores; given
      a level to run it scores more exactly when some move improves on one community per node. */
  method Detect(nodes: seq<Node>, edges: seq<Edge>, resolution: real, maxLevels: int)
    returns (assignment: Assignment, count: nat, q: real, cover: real, ghost base: Graph, ghost levels: seq<Level>)
    ensures Community.GraphOf(base, nodes, edges)
    ensures Detected(base, levels, assignment, maxLevels, resolution)
    ensures (forall n :: n in assignment <==> n in nodes) && Consecutive(assignment, count)
    ensures NoWorseThanSingles(base, assignment, resolution)
    ensures maxLevels >= 1 ==> BetterWherePossible(base, assignment, resolution)
    ensures q == ModularityOf(base, assignment, resolution) && cover == CoverageOf(base, assignment)
    ensures levels != [] ==> q == levels[|levels| - 1].score
    ensures levels != [] ==> NumberedInOrder(levels[|levels| - 1], assignment)
  {
    var graph := Community.FromEdges(nodes, edges);
    base := graph;
    BuiltIsUndirected(graph, Community.Kept(edges, set x | x in nodes));
    if graph.nodes == [] {
      EmptyIsNoWorse(base, resolution);
      return map[], 0, 0.0, 0.0, base, [];
    }
    assignment, count, levels := Communities(graph, maxLevels, resolution);
    if levels != [] { AllFollowNumerals(base, levels, assignment, maxLevels, resolution); }
    q := Community.ModularityScore(graph, assignment, resolution);
    cover := Community.CoverageScore(graph, assignment);
  }

  // ---- graphs of the same edges ----------------------------------------------------------------

  lemma {:induction false} AscendingUnique(s: seq<Node>, t: seq<Node>)
    requires forall i, j :: 0 <= i < j < |s| ==> Before(s[i], s[j])
    requires forall i, j :: 0 <= i < j < |t| ==> Before(t[i], t[j])
    requires forall x :: x in s <==> x in t
    ensures s == t
  {
    hide Before;
    SomeMemberUnlessEmpty(t);
    if s != [] {
      assert s[|s| - 1] in t;
      BeforeIsStrictWeak();
      var front, last := s[..|s| - 1], s[|s| - 1];
      assert s == front + [last];
      assert t != [] && t == t[..|t| - 1] + [t[|t| - 1]];
      assert t[|t| - 1] in s;
      LastIsLast(s, t);
      forall x ensures x in front <==> x in t[..|t| - 1] {
        NotInFront(s);
        NotInFront(t);
        assert x in s <==> x in front || x == last;
        assert x in t <==> x in t[..|t| - 1] || x == last;
      }
      AscendingUnique(front, t[..|t| - 1]);
    }
  }

  lemma SomeMemberUnlessEmpty(t: seq<Node>)
    ensures t == [] || exists x :: x in t
  {
    if t != [] { assert t[0] in t; }
  }

  lemma LastIsLast(s: seq<Node>, t: seq<Node>)
    requires forall i, j :: 0 <= i < j < |s| ==> Before(s[i], s[j])
    requires forall i, j :: 0 <= i < j < |t| ==> Before(t[i], t[j])
    requires s != [] && t != [] && s[|s| - 1] in t && t[|t| - 1] in s
    ensures s[|s| - 1] == t[|t| - 1]
  {
    BeforeIsStrictWeak();
    var i :| 0 <= i < |t| && t[i] == s[|s| - 1];
    var j :| 0 <= j < |s| && s[j] == t[|t| - 1];
    BeforeTotal(s[|s| - 1], t[|t| - 1]);
  }

  lemma NotInFront(s: seq<Node>)
    requires s != [] && forall i, j :: 0 <= i < j < |s| ==> Before(s[i], s[j])
    ensures s[|s| - 1] !in s[..|s| - 1]
  {
    forall i | 0 <= i < |s| - 1 ensures s[i] != s[|s| - 1] { BeforeTotal(s[i], s[|s| - 1]); }
  }

  /** Two graphs that differ in nothing but empty rows and the order of rows. */
  ghost predicate Alike(g: Graph, h: Graph) {
    g.nodes == h.nodes && forall n :: Row(g, n) == Row(h, n) && Loop(g, n) == Loop(h, n)
  }

  lemma SameEdgesAlike(g: Graph, h: Graph, nodes: seq<Node>, edges: seq<Edge>)
    requires Community.GraphOf(g, nodes, edges) && Community.GraphOf(h, nodes, edges)
    ensures Undirected(g) && Undirected(h) && Alike(g, h)
  {
    var kept := Community.Kept(edges, set x | x in nodes);
    BuiltIsUndirected(g, kept);
    BuiltIsUndirected(h, kept);
    AscendingUnique(g.nodes, h.nodes);
    forall n ensures Row(g, n) == Row(h, n) && Loop(g, n) == Loop(h, n) { SameRow(g, h, kept, n); }
  }

  lemma SameRow(g: Graph, h: Graph, kept: seq<Edge>, n: Node)
    requires Community.Built(g.adj, g.loops, kept) && Community.Built(h.adj, h.loops, kept)
    ensures Row(g, n) == Row(h, n) && Loop(g, n) == Loop(h, n)
  {
    assert Loop(g, n) == Community.LoopWeight(kept, n) == Loop(h, n);
    forall v ensures (v in Row(g, n) <==> v in Row(h, n)) && (v in Row(g, n) ==> Row(g, n)[v] == Row(h, n)[v]) {
      assert Has(g.adj, n, v) <==> Has(h.adj, n, v);
      assert Get(g.adj, n, v) == Get(h.adj, n, v);
    }
  }

  lemma AlikeDegree(g: Graph, h: Graph, n: Node)
    requires Undirected(g) && Undirected(h) && Alike(g, h)
    ensures DegreeOf(g, n) == DegreeOf(h, n) && DegreesOf(g)(n) == DegreesOf(h)(n)
  {
    DegreeIsSigma(g, n);
    DegreeIsSigma(h, n);
  }

  lemma AlikeTotal(g: Graph, h: Graph)
    requires Undirected(g) && Undirected(h) && Alike(g, h)
    ensures TotalWeightOf(g) == TotalWeightOf(h)
  {
    forall n ensures DegreesOf(g)(n) == DegreesOf(h)(n) { AlikeDegree(g, h, n); }
    SigmaSame(g.nodes, DegreesOf(g), DegreesOf(h));
    TotalIsHalfDegrees(g);
    TotalIsHalfDegrees(h);
  }

  lemma AlikeDegrees(g: Graph, h: Graph)
    requires Undirected(g) && Undirected(h) && Alike(g, h)
    ensures Degrees(g) == Degrees(h)
  {
    forall n ensures DegreeOf(g, n) == DegreeOf(h, n) { AlikeDegree(g, h, n); }
  }

  lemma AlikeInsides(g: Graph, h: Graph, a: Assignment)
    requires Assigned(g, a) && Assigned(h, a) && Alike(g, h)
    ensures Insides(g, a) == Insides(h, a)
  {
    forall n | n in g.nodes ensures InsideOf(g, a, n) == InsideOf(h, a, n) {
      RowAssigned(g, a, n);
      RowAssigned(h, a, n);
      assert HalvesInside(g, a, n) == HalvesInside(h, a, n);
    }
  }

  /** They score every assignment alike. */
  lemma AlikeScores(g: Graph, h: Graph, a: Assignment, resolution: real)
    requires Undirected(g) && Undirected(h) && Alike(g, h) && Assigned(g, a)
    ensures SameScore(g, a, h, a, resolution) && CoverageOf(g, a) == CoverageOf(h, a)
  {
    assert Assigned(h, a);
    AlikeTotal(g, h);
    AlikeDegrees(g, h);
    AlikeInsides(g, h, a);
    var m := TotalWeightOf(g);
    if m > 0.0 {
      ModularityClosedForm(g, a, resolution);
      ModularityClosedForm(h, a, resolution);
      CombinesUnique(ModularityOf(g, a, resolution), ModularityOf(h, a, resolution), SumOver(g.nodes, Insides(g, a)),
                     PairSum(g.nodes, a, Degrees(g)), 1.0 / m, Penalty(m, resolution));
    }
  }

  lemma AlikeMove(g: Graph, h: Graph, a: Assignment, i: Node, c: int, resolution: real)
    requires Undirected(g) && Undirected(h) && Alike(g, h) && Assigned(g, a) && i in g.nodes
    ensures Improves(g, a, a[i := c], resolution) <==> Improves(h, a, a[i := c], resolution)
  {
    AlikeScores(g, h, a, resolution);
    AlikeScores(g, h, a[i := c], resolution);
  }

  /** And have the same local optima. */
  lemma AlikeOptimal(g: Graph, h: Graph, a: Assignment, resolution: real)
    requires Undirected(g) && Undirected(h) && Alike(g, h) && Assigned(h, a) && LocallyOptimal(g, a, resolution)
    ensures LocallyOptimal(h, a, resolution)
  {
    forall i, c | i in h.nodes && Neighbouring(h, a, i, c) ensures !Improves(h, a, a[i := c], resolution) {
      RowAssigned(g, a, i);
      RowAssigned(h, a, i);
      assert Neighbouring(g, a, i, c);
      assert StaysPut(g, a, i, resolution);
      AlikeMove(g, h, a, i, c, resolution);
    }
  }
}
