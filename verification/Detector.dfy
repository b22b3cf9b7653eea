/** The detector around the refinement: the resolution sweep, the assembled communities, and
    what the two together promise about the structural graph. */
module Detector {
  import opened Ordering
  import opened Refinement
  import opened Modularity
  import Ariadne
  import Community
  import Levels
  import opened Mnemosyne
  import opened Semantic

  const RESOLUTION_SWEEP: seq<real> := [0.5, 0.75, 1.0, 1.5, 2.0]

  type Score = (real, int)

  /** Python compares tuples part by part. */
  predicate Better(s: Score, t: Score) {
    s.0 > t.0 || (s.0 == t.0 && s.1 > t.1)
  }

  /** The score of a partition: rounded structural modularity at resolution 1, then fewer communities. */
  ghost function ScoreOf(structural: Graph, r: Assignment, round: real -> real): Score
    requires Assigned(structural, r)
  {
    (round(ModularityOf(structural, r, 1.0)), -|r.Values|)
  }

  ghost function RefinedScore(structural: Graph, coarse: Assignment, links: Links, round: real -> real): Score
    requires Assigned(structural, coarse)
  {
    RefinedAssigned(structural, coarse, links);
    ScoreOf(structural, Refined(coarse, links), round)
  }

  lemma RefinedAssigned(g: Graph, a: Assignment, links: Links)
    requires Assigned(g, a)
    ensures Assigned(g, Refined(a, links))
  {
  }

  ghost predicate Candidates(structural: Graph, coarse: seq<Assignment>) {
    |coarse| == 5 && forall i :: 0 <= i < |coarse| ==> Assigned(structural, coarse[i])
  }

  ghost predicate Scored(structural: Graph, coarse: seq<Assignment>, links: Links, round: real -> real,
                         scores: seq<Score>)
    requires Candidates(structural, coarse)
  {
    |scores| == |coarse| &&
    forall i :: 0 <= i < |coarse| ==> scores[i] == RefinedScore(structural, coarse[i], links, round)
  }

  /** Against one partition another loses: its rounded modularity is no higher, with equal ones it
      has no fewer communities, and with as many too it did not come earlier. */
  ghost predicate Loses(structural: Graph, r: Assignment, best: Assignment, round: real -> real, earlier: bool)
    requires Assigned(structural, r) && Assigned(structural, best)
  {
    var x, y := round(ModularityOf(structural, r, 1.0)), round(ModularityOf(structural, best, 1.0));
    x <= y && (x == y ==> |r.Values| >= |best.Values|) && (x == y && |r.Values| == |best.Values| ==> !earlier)
  }

  /** Of the candidates, refined, all lose against the b-th. */
  ghost predicate AllLose(structural: Graph, coarse: seq<Assignment>, links: Links, round: real -> real, b: nat)
    requires forall i :: 0 <= i < |coarse| ==> Assigned(structural, coarse[i])
  {
    b < |coarse| &&
    forall i :: 0 <= i < |coarse| ==> LosesAt(structural, coarse[i], coarse[b], links, round, i < b)
  }

  ghost predicate LosesAt(structural: Graph, a: Assignment, best: Assignment, links: Links, round: real -> real,
                          earlier: bool)
    requires Assigned(structural, a) && Assigned(structural, best)
  {
    RefinedAssigned(structural, a, links);
    RefinedAssigned(structural, best, links);
    Loses(structural, Refined(a, links), Refined(best, links), round, earlier)
  }

  /** Score b is not beaten by any of the first n, and strictly beats those before it. */
  ghost predicate FirstBest(scores: seq<Score>, b: nat, n: nat) {
    b < n <= |scores| &&
    forall i :: 0 <= i < n ==> !Better(scores[i], scores[b]) && (i < b ==> Better(scores[b], scores[i]))
  }

  lemma FirstBestWins(structural: Graph, coarse: seq<Assignment>, links: Links, round: real -> real,
                      scores: seq<Score>, b: nat)
    requires Candidates(structural, coarse) && Scored(structural, coarse, links, round, scores)
    requires FirstBest(scores, b, |coarse|)
    ensures AllLose(structural, coarse, links, round, b)
  {
    hide ModularityOf, Refined;
    forall i | 0 <= i < |coarse| ensures LosesAt(structural, coarse[i], coarse[b], links, round, i < b) {
      assert scores[i] == RefinedScore(structural, coarse[i], links, round);
      assert scores[b] == RefinedScore(structural, coarse[b], links, round);
    }
  }

  lemma FirstBestStep(scores: seq<Score>, b: nat, n: nat)
    requires FirstBest(scores, b, n) && n < |scores|
    ensures FirstBest(scores, if Better(scores[n], scores[b]) then n else b, n + 1)
  {
  }

  method ScorePartition(refined: Assignment, structural: Graph, round: real -> real) returns (q: real, score: Score)
    requires Assigned(structural, refined)
    ensures q == ModularityOf(structural, refined, 1.0) && score == ScoreOf(structural, refined, round)
  {
    q := Community.ModularityScore(structural, refined, 1.0);
    score := (round(q), -|refined.Values|);
  }

  /** The loop body up to the score: refine one candidate and score it. */
  method ScoreCandidate(coarse: Assignment, detection: seq<Edge>, structural: Graph, round: real -> real)
    returns (refined: Assignment, q: real, score: Score)
    requires Assigned(structural, coarse)
    ensures refined == Refined(coarse, LinksOf(detection))
    ensures Assigned(structural, refined) && q == ModularityOf(structural, refined, 1.0)
    ensures score == RefinedScore(structural, coarse, LinksOf(detection), round)
  {
    ghost var links := LinksOf(detection);
    refined := Ariadne.Refine(coarse, detection);
    RefinedAssigned(structural, coarse, links);
    q, score := ScorePartition(refined, structural, round);
  }

  /** `_auto_resolution`: coarse[i] is what detection found at the i-th resolution; `round` is
      whatever rounding the scores go through. No candidate, refined, has a higher rounded
      modularity than the one returned, none with an equal one has fewer communities, and no
      earlier one equals it in both. */
  method AutoResolution(coarse: seq<Assignment>, detection: seq<Edge>, structural: Graph, round: real -> real,
                        ghost scores: seq<Score>)
    returns (b: nat, resolution: real, refined: Assignment, q: real)
    requires Candidates(structural, coarse) && Scored(structural, coarse, LinksOf(detection), round, scores)
    ensures AllLose(structural, coarse, LinksOf(detection), round, b)
    ensures resolution == [0.5, 0.75, 1.0, 1.5, 2.0][b]
    ensures refined == Refined(coarse[b], LinksOf(detection))
    ensures Assigned(structural, refined) && q == ModularityOf(structural, refined, 1.0)
  {
    b := 0;
    var best;
    refined, q, best := ScoreCandidate(coarse[0], detection, structural, round);
    for i := 1 to |coarse|
      invariant b < i && refined == Refined(coarse[b], LinksOf(detection))
      invariant Assigned(structural, refined) && q == ModularityOf(structural, refined, 1.0)
      invariant FirstBest(scores, b, i) && best == scores[b]
    {
      var r, qi, score := ScoreCandidate(coarse[i], detection, structural, round);
      FirstBestStep(scores, b, i);
      if Better(score, best) {
        b, refined, q, best := i, r, qi, score;
      }
    }
    FirstBestWins(structural, coarse, LinksOf(detection), round, scores, b);
    resolution := RESOLUTION_SWEEP[b];
  }

  datatype Option<T> = None | Some(value: T)

  /** `max_levels`, as the detector leaves it. */
  const MAX_LEVELS := 50

  /** The assignment is what these levels of the base detector find on this graph of the edges. */
  ghost predicate FoundOn(base: Graph, levels: seq<Levels.Level>, nodes: seq<Node>, edges: seq<Edge>,
                          coarse: Assignment, resolution: real)
  {
    Community.GraphOf(base, nodes, edges) && (forall n :: n in coarse <==> n in nodes) &&
    Levels.Detected(base, levels, coarse, 50, resolution) &&
    Levels.NoWorseThanSingles(base, coarse, resolution) && Levels.BetterWherePossible(base, coarse, resolution)
  }

  ghost predicate Found(nodes: seq<Node>, edges: seq<Edge>, coarse: Assignment, resolution: real) {
    exists base, levels :: FoundOn(base, levels, nodes, edges, coarse, resolution)
  }

  /** The sweep's coarse partitions, one found at each resolution. */
  ghost predicate Swept(nodes: seq<Node>, edges: seq<Edge>, sweep: seq<Assignment>) {
    |sweep| == 5 && forall i :: 0 <= i < |sweep| ==> Found(nodes, edges, sweep[i], [0.5, 0.75, 1.0, 1.5, 2.0][i])
  }

  lemma FoundIsAssigned(structural: Graph, nodes: seq<Node>, edges: seq<Edge>, coarse: Assignment, resolution: real)
    requires ValidGraph(structural) && (forall n :: n in structural.nodes <==> n in nodes)
    requires Found(nodes, edges, coarse, resolution)
    ensures Assigned(structural, coarse) && forall n :: n in coarse <==> n in nodes
  {
  }

  lemma SweptAreCandidates(structural: Graph, nodes: seq<Node>, edges: seq<Edge>, sweep: seq<Assignment>)
    requires ValidGraph(structural) && (forall n :: n in structural.nodes <==> n in nodes) && Swept(nodes, edges, sweep)
    ensures Candidates(structural, sweep)
  {
    forall i | 0 <= i < |sweep| ensures Assigned(structural, sweep[i]) {
      FoundIsAssigned(structural, nodes, edges, sweep[i], RESOLUTION_SWEEP[i]);
    }
  }

  /** One call of the base detector. */
  method FindCoarse(nodes: seq<Node>, detection: seq<Edge>, resolution: real) returns (coarse: Assignment)
    ensures Found(nodes, detection, coarse, resolution)
  {
    var count, q, cover;
    ghost var base, levels;
    coarse, count, q, cover, base, levels := Levels.Detect(nodes, detection, resolution, MAX_LEVELS);
    assert FoundOn(base, levels, nodes, detection, coarse, resolution);
  }

  method SweepCoarse(nodes: seq<Node>, detection: seq<Edge>) returns (sweep: seq<Assignment>)
    ensures Swept(nodes, detection, sweep)
  {
    sweep := [];
    for i := 0 to |RESOLUTION_SWEEP|
      invariant |sweep| == i
      invariant forall k :: 0 <= k < i ==> Found(nodes, detection, sweep[k], RESOLUTION_SWEEP[k])
    {
      var coarse := FindCoarse(nodes, detection, RESOLUTION_SWEEP[i]);
      sweep := sweep + [coarse];
    }
  }

  /** The scores the sweep compares. */
  ghost function SweepScores(structural: Graph, sweep: seq<Assignment>, links: Links,
                             round: real -> real): (r: seq<Score>)
    requires Candidates(structural, sweep)
    ensures Scored(structural, sweep, links, round, r)
  {
    seq(|sweep|, i requires 0 <= i < |sweep| => RefinedScore(structural, sweep[i], links, round))
  }

  /** Resolution and coarse partition are those of the one all others of the sweep lose against. */
  ghost predicate WinsSweep(structural: Graph, sweep: seq<Assignment>, links: Links, round: real -> real,
                            chosen: real, coarse: Assignment)
  {
    Candidates(structural, sweep) &&
    exists b: nat :: AllLose(structural, sweep, links, round, b) &&
      chosen == [0.5, 0.75, 1.0, 1.5, 2.0][b] && coarse == sweep[b]
  }

  /** Without a resolution: sweep and pick. */
  method PartitionBySweep(nodes: seq<Node>, detection: seq<Edge>, structural: Graph, round: real -> real)
    returns (chosen: real, refined: Assignment, q: real, ghost coarse: Assignment, ghost sweep: seq<Assignment>)
    requires ValidGraph(structural) && forall n :: n in structural.nodes <==> n in nodes
    ensures Found(nodes, detection, coarse, chosen) && refined == Refined(coarse, LinksOf(detection))
    ensures Assigned(structural, refined) && q == ModularityOf(structural, refined, 1.0)
    ensures Swept(nodes, detection, sweep) && WinsSweep(structural, sweep, LinksOf(detection), round, chosen, coarse)
  {
    var candidates := SweepCoarse(nodes, detection);
    SweptAreCandidates(structural, nodes, detection, candidates);
    sweep := candidates;
    var b;
    b, chosen, refined, q := AutoResolution(candidates, detection, structural, round,
                                            SweepScores(structural, candidates, LinksOf(detection), round));
    coarse := candidates[b];
  }

  /** With one: detect at it and refine. */
  method PartitionAt(nodes: seq<Node>, detection: seq<Edge>, structural: Graph, resolution: real)
    returns (refined: Assignment, q: real, ghost coarse: Assignment)
    requires ValidGraph(structural) && forall n :: n in structural.nodes <==> n in nodes
    ensures Found(nodes, detection, coarse, resolution) && refined == Refined(coarse, LinksOf(detection))
    ensures Assigned(structural, refined) && q == ModularityOf(structural, refined, 1.0)
  {
    var found := FindCoarse(nodes, detection, resolution);
    FoundIsAssigned(structural, nodes, detection, found, resolution);
    coarse := found;
    refined := Ariadne.Refine(found, detection);
    RefinedAssigned(structural, found, LinksOf(detection));
    q := Community.ModularityScore(structural, refined, 1.0);
  }

  /** The detection proper, for given detection edges: what the base detector finds on them, at
      the resolution asked for or at the first best of the sweep, refined as on the structural
      edges, with its structural modularity. */
  method Partition(nodes: seq<Node>, edges: seq<Edge>, detection: seq<Edge>, resolution: Option<real>,
                   round: real -> real)
    returns (chosen: real, refined: Assignment, q: real, ghost structural: Graph, ghost coarse: Assignment,
             ghost sweep: seq<Assignment>)
    requires Reweighted(edges, detection)
    ensures Community.GraphOf(structural, nodes, edges) && Found(nodes, detection, coarse, chosen)
    ensures refined == Refined(coarse, LinksOf(edges)) && WellConnected(refined, LinksOf(edges))
    ensures forall n :: n in refined <==> n in nodes
    ensures Assigned(structural, refined) && q == ModularityOf(structural, refined, 1.0)
    ensures resolution.Some? ==> chosen == resolution.value
    ensures resolution.None? ==>
      Swept(nodes, detection, sweep) && WinsSweep(structural, sweep, LinksOf(detection), round, chosen, coarse)
  {
    var graph := Community.FromEdges(nodes, edges);
    structural := graph;
    sweep := [];
    if resolution.None? {
      chosen, refined, q, coarse, sweep := PartitionBySweep(nodes, detection, graph, round);
    } else {
      chosen := resolution.value;
      refined, q, coarse := PartitionAt(nodes, detection, graph, chosen);
    }
    ReweightingCannotChangeRefinement(coarse, edges, detection);
    FoundIsAssigned(graph, nodes, detection, coarse, chosen);
  }

  /** Any partition of singletons, seen on the structural graph. */
  lemma SinglesOnStructure(base: Graph, structural: Graph, coarse: Assignment, refined: Assignment, s: Assignment,
                           resolution: real)
    requires Undirected(base) && Undirected(structural) && Levels.Alike(base, structural)
    requires Levels.NoWorseThanSingles(base, coarse, resolution) && Levels.BetterWherePossible(base, coarse, resolution)
    requires Assigned(structural, refined) && Assigned(structural, coarse)
    requires ModularityOf(structural, refined, resolution) >= ModularityOf(structural, coarse, resolution)
    requires Assigned(structural, s) && Levels.Injective(structural.nodes, s)
    ensures ModularityOf(structural, refined, resolution) >= ModularityOf(structural, s, resolution)
    ensures LocallyOptimal(structural, s, resolution) || Improves(structural, s, refined, resolution)
  {
    assert Assigned(base, s);
    Levels.AlikeScores(base, structural, coarse, resolution);
    Levels.AlikeScores(base, structural, s, resolution);
    if LocallyOptimal(base, s, resolution) { Levels.AlikeOptimal(base, structural, s, resolution); }
  }

  /** Better than one community per node, however labelled, wherever a move improves on that. */
  ghost predicate BeatsSingles(g: Graph, a: Assignment, resolution: real) {
    forall s :: Assigned(g, s) && Levels.Injective(g.nodes, s) ==>
      LocallyOptimal(g, s, resolution) || Improves(g, s, a, resolution)
  }

  lemma FoundBeatsSingles(base: Graph, structural: Graph, coarse: Assignment, refined: Assignment, resolution: real)
    requires Undirected(base) && Undirected(structural) && Levels.Alike(base, structural)
    requires Levels.NoWorseThanSingles(base, coarse, resolution) && Levels.BetterWherePossible(base, coarse, resolution)
    requires Assigned(structural, refined) && Assigned(structural, coarse)
    requires ModularityOf(structural, refined, resolution) >= ModularityOf(structural, coarse, resolution)
    ensures Levels.NoWorseThanSingles(structural, refined, resolution) && BeatsSingles(structural, refined, resolution)
  {
    forall s | Assigned(structural, s) && Levels.Injective(structural.nodes, s)
      ensures ModularityOf(structural, refined, resolution) >= ModularityOf(structural, s, resolution)
      ensures LocallyOptimal(structural, s, resolution) || Improves(structural, s, refined, resolution)
    {
      SinglesOnStructure(base, structural, coarse, refined, s, resolution);
    }
  }

  /** Detected on the structural edges themselves, the refined partition scores on the structural
      graph, at the resolution detected at, at least what one community per node scores, and more
      wherever a move improves on one community per node. */
  lemma UnweightedNeverHurts(nodes: seq<Node>, edges: seq<Edge>, structural: Graph, coarse: Assignment,
                             resolution: real)
    requires Community.GraphOf(structural, nodes, edges) && Found(nodes, edges, coarse, resolution) && resolution >= 0.0
    ensures Levels.NoWorseThanSingles(structural, Refined(coarse, LinksOf(edges)), resolution)
    ensures BeatsSingles(structural, Refined(coarse, LinksOf(edges)), resolution)
  {
    var base, levels :| FoundOn(base, levels, nodes, edges, coarse, resolution);
    Levels.SameEdgesAlike(base, structural, nodes, edges);
    Community.BuiltIsValid(structural, edges, set x | x in nodes);
    RefinementNeverHurts(structural, coarse, LinksOf(edges), resolution);
    FoundBeatsSingles(base, structural, coarse, Refined(coarse, LinksOf(edges)), resolution);
  }

  /** Whichever resolution was chosen, the communities are connected in the structural graph,
      cover as much weight as the coarse ones, and score at least as high. */
  lemma DetectionKeepsStructure(nodes: seq<Node>, edges: seq<Edge>, detection: seq<Edge>, structural: Graph,
                                coarse: Assignment, resolution: real)
    requires Reweighted(edges, detection) && resolution >= 0.0
    requires Assigned(structural, coarse) && ArcsAreLinks(structural, LinksOf(edges))
    ensures var refined := Refined(coarse, LinksOf(detection));
            WellConnected(refined, LinksOf(edges)) && Refines(refined, coarse) && Assigned(structural, refined) &&
            CoverageOf(structural, refined) == CoverageOf(structural, coarse) &&
            ModularityOf(structural, refined, resolution) >= ModularityOf(structural, coarse, resolution)
  {
    ReweightingCannotChangeRefinement(coarse, edges, detection);
    RefinedIsWellConnected(coarse, LinksOf(edges));
    RefinementNeverHurts(structural, coarse, LinksOf(edges), resolution);
  }

  /** `members` and `communities`: one entry per id, members ascending. */
  datatype Entry = Entry(community: int, members: seq<Node>)

  /** The sort key of `communities`: larger first, then lower id. */
  predicate ListedBefore(x: Entry, y: Entry) {
    |x.members| > |y.members| || (|x.members| == |y.members| && x.community < y.community)
  }

  /** The entry lists exactly its community's nodes, ascending and so each once. */
  ghost predicate IsEntryOf(e: Entry, r: Assignment) {
    (forall x :: x in e.members <==> x in r && r[x] == e.community) &&
    forall i, j :: 0 <= i < j < |e.members| ==> Before(e.members[i], e.members[j])
  }

  /** Every community of ids has one entry. */
  ghost predicate Lists(entries: seq<Entry>, r: Assignment, ids: set<int>) {
    (forall i :: 0 <= i < |entries| ==> entries[i].community in ids && IsEntryOf(entries[i], r)) &&
    (forall i, j :: 0 <= i < j < |entries| ==> entries[i].community != entries[j].community) &&
    (forall c :: c in ids ==> exists i :: 0 <= i < |entries| && entries[i].community == c)
  }

  lemma ListedBeforeIsStrictWeak()
    ensures StrictWeak(ListedBefore)
  {
  }

  lemma ListsPermuted(s: seq<Entry>, t: seq<Entry>, r: Assignment, ids: set<int>)
    requires multiset(s) == multiset(t) && Lists(s, r, ids)
    ensures Lists(t, r, ids)
  {
    SameMembers(s, t);
    SamePermutationDistinct(s, t);
    forall i | 0 <= i < |t|
      ensures t[i].community in ids && IsEntryOf(t[i], r)
    {
      assert t[i] in s;
    }
    forall i, j | 0 <= i < j < |t| ensures t[i].community != t[j].community {
      assert t[i] in s && t[j] in s && t[i] != t[j];
    }
    forall c | c in ids ensures exists i :: 0 <= i < |t| && t[i].community == c {
      var k :| 0 <= k < |s| && s[k].community == c;
      assert s[k] in t;
    }
  }

  /** Every node is in exactly one listed community, under its refined id. */
  method Assemble(refined: Assignment) returns (communities: seq<Entry>)
    ensures Lists(communities, refined, refined.Values)
    ensures forall i, j :: 0 <= i < j < |communities| ==>
      |communities[i].members| > |communities[j].members| ||
      (|communities[i].members| == |communities[j].members| && communities[i].community < communities[j].community)
  {
    var groups := Ariadne.GroupByCommunity(refined);
    var entries: seq<Entry> := [];
    var rest := groups.Keys;
    while rest != {}
      invariant rest <= groups.Keys && Lists(entries, refined, groups.Keys - rest)
    {
      ghost var some := SomeMember(rest);
      var c :| c in rest;
      SortedNames(groups[c]);
      var entry := Entry(c, Sorted(Before, groups[c]));
      ListsOneMore(entries, refined, groups.Keys - rest, entry);
      assert groups.Keys - (rest - {c}) == groups.Keys - rest + {c};
      entries := entries + [entry];
      rest := rest - {c};
    }
    assert Lists(entries, refined, refined.Values) by {
      forall c ensures c in groups.Keys - rest <==> c in refined.Values {
      }
    }
    communities := Sorted(ListedBefore, entries);
    ListedBeforeIsStrictWeak();
    SortedIsOrdered(ListedBefore, entries);
    ListsPermuted(entries, communities, refined, refined.Values);
    forall i, j | 0 <= i < j < |communities| ensures ListedBefore(communities[i], communities[j]) {
      assert communities[i].community != communities[j].community;
    }
  }

  lemma ListsOneMore(entries: seq<Entry>, r: Assignment, ids: set<int>, e: Entry)
    requires Lists(entries, r, ids) && e.community !in ids
    requires IsEntryOf(e, r)
    ensures Lists(entries + [e], r, ids + {e.community})
  {
    var more := entries + [e];
    forall c | c in ids + {e.community} ensures exists i :: 0 <= i < |more| && more[i].community == c {
      if c in ids {
        var i :| 0 <= i < |entries| && entries[i].community == c;
        assert more[i].community == c;
      } else {
        assert more[|entries|].community == c;
      }
    }
  }
}
