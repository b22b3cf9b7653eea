/** `_refine` of the Ariadne detector as it runs: adjacency dictionaries, nodes grouped by
    community, and one breadth-first search per connected component. */
module Ariadne {
  import opened Paths
  import opened Ordering
  import opened Refinement
  import opened Adjacency

  /** The dictionary the search walks; self edges and non-positive weights are skipped. */
  method BuildAdjacency(edges: seq<Edge>) returns (adj: Neighbours)
    ensures Holds(adj, edges)
    ensures forall u, v :: u in adj && v in adj[u] <==> Weight(edges, u, v) > 0.0
    ensures forall u, v :: u in adj && v in adj[u] ==> adj[u][v] == Weight(edges, u, v)
  {
    adj := map[];
    for i := 0 to |edges|
      invariant Holds(adj, edges[..i])
    {
      var e := edges[i];
      assert edges[..i + 1] == edges[..i] + [e];
      HoldsOneMore(adj, edges[..i], e);
      if e.u == e.v || e.w <= 0.0 {
        continue;
      }
      adj := AddArc(adj, e.u, e.v, e.w);
      adj := AddArc(adj, e.v, e.u, e.w);
    }
    assert edges[..|edges|] == edges;
    forall u, v
      ensures u in adj && v in adj[u] <==> Weight(edges, u, v) > 0.0
      ensures u in adj && v in adj[u] ==> adj[u][v] == Weight(edges, u, v)
    {
      assert Has(adj, u, v) <==> Weight(edges, u, v) > 0.0;
      assert Get(adj, u, v) == Weight(edges, u, v);
    }
  }

  ghost predicate Grouped(groups: map<int, seq<Node>>, a: Assignment) {
    forall c ::
      (c in groups <==> c in a.Values) &&
      (c in groups ==> Distinct(groups[c]) && forall x :: x in groups[c] <==> x in a && a[x] == c)
  }

  lemma GroupOneMore(groups: map<int, seq<Node>>, a: Assignment, rest: set<Node>, x: Node)
    requires rest <= a.Keys && x in rest && Grouped(groups, a - rest)
    ensures Grouped(groups[a[x] := (if a[x] in groups then groups[a[x]] else []) + [x]], a - (rest - {x}))
  {
    var b, b' := a - rest, a - (rest - {x});
    assert b' == b[x := a[x]];
    assert b'.Values == b.Values + {a[x]} by {
      assert x in b' && b'[x] == a[x];
      forall c | c in b.Values ensures c in b'.Values {
        var y :| y in b && b[y] == c;
        assert y in b' && b'[y] == c;
      }
    }
  }

  /** `comm_nodes`; the dictionary may be walked in any order. */
  method GroupByCommunity(a: Assignment) returns (groups: map<int, seq<Node>>)
    ensures Grouped(groups, a)
  {
    groups := map[];
    var rest := a.Keys;
    assert a - rest == map[];
    while rest != {}
      invariant rest <= a.Keys && Grouped(groups, a - rest)
    {
      var x :| x in rest;
      GroupOneMore(groups, a, rest, x);
      groups := groups[a[x] := (if a[x] in groups then groups[a[x]] else []) + [x]];
      rest := rest - {x};
    }
    assert a - {} == a;
  }

  /** The breadth-first search between two steps: what it has seen beyond `seen0` is part of
      the component and is either finished or waiting; finished nodes have all their
      neighbours seen, except that x still has those in `todo` to look at. */
  ghost predicate Searching(a: Assignment, links: Links, start: Node, seen0: set<Node>, seen: set<Node>,
                            component: seq<Node>, queue: seq<Node>, x: Node, todo: set<Node>) {
    seen0 <= seen &&
    (forall z :: z in seen && z !in seen0 <==> z in component || z in queue) &&
    (forall z :: z in seen && z !in seen0 ==> SamePart(a, links, start, z)) &&
    (forall z, y :: z in component && (z, y) in Within(a, links) ==> y in seen || (z == x && y in todo))
  }

  lemma SearchPops(a: Assignment, links: Links, start: Node, seen0: set<Node>, seen: set<Node>,
                   component: seq<Node>, queue: seq<Node>, x: Node)
    requires Searching(a, links, start, seen0, seen, component, queue, x, {}) && queue != []
    ensures Searching(a, links, start, seen0, seen, component + [queue[0]], queue[1..], queue[0],
                      set y | y in a && (queue[0], y) in Within(a, links))
  {
    assert queue == [queue[0]] + queue[1..];
    assert forall z :: z in queue <==> z == queue[0] || z in queue[1..];
  }

  lemma SearchLooks(a: Assignment, links: Links, start: Node, seen0: set<Node>, seen: set<Node>,
                    component: seq<Node>, queue: seq<Node>, x: Node, todo: set<Node>, y: Node)
    requires Searching(a, links, start, seen0, seen, component, queue, x, todo)
    requires x in component
    ensures y in seen ==> Searching(a, links, start, seen0, seen, component, queue, x, todo - {y})
    ensures (x, y) !in Within(a, links) ==> Searching(a, links, start, seen0, seen, component, queue, x, todo - {y})
    ensures (x, y) in Within(a, links) ==> SamePart(a, links, start, y)
    ensures (x, y) in Within(a, links) && y !in seen ==>
              Searching(a, links, start, seen0, seen + {y}, component, queue + [y], x, todo - {y})
  {
    if (x, y) in Within(a, links) {
      JoinedThenLink(Within(a, links), start, x, y);
    }
  }

  lemma SearchEnds(a: Assignment, links: Links, start: Node, seen0: set<Node>, seen: set<Node>,
                   component: seq<Node>, x: Node)
    requires Symmetric(links) && start in a && start !in seen0 && start in seen
    requires Closed(Within(a, links), seen0)
    requires Searching(a, links, start, seen0, seen, component, [], x, {})
    ensures forall z :: z in component <==> z in Component(a, links, start)
    ensures seen == seen0 + Component(a, links, start)
  {
    var found := seen - seen0;
    assert Closed(Within(a, links), found) by {
      forall z, y | (z, y) in Within(a, links) && z in found ensures y in found {
        assert (y, z) in Within(a, links);
      }
    }
    forall z | z in Component(a, links, start) ensures z in found {
      JoinedStaysClosed(Within(a, links), found, start, z);
    }
    forall z | z in found ensures z in Component(a, links, start) {
      WithinStays(a, links, start, z);
    }
  }

  lemma SeenGrows(whole: set<Node>, before: set<Node>, seen: set<Node>, y: Node)
    requires before <= seen && y in whole && y in seen && y !in before
    ensures whole - seen < whole - before
  {
    assert y in whole - before && y !in whole - seen;
  }

  /** One component: the inner loop from `queue = deque([start])` on. */
  method Explore(adj: Neighbours, nodeset: set<Node>, start: Node, seen0: set<Node>,
                 ghost a: Assignment, ghost links: Links)
    returns (component: seq<Node>, seen: set<Node>)
    requires Symmetric(links) && forall u, v :: Has(adj, u, v) <==> (u, v) in links
    requires start in a && start !in seen0 && Closed(Within(a, links), seen0)
    requires forall x :: x in nodeset <==> x in a && a[x] == a[start]
    ensures forall z :: z in component <==> z in Component(a, links, start)
    ensures seen == seen0 + Component(a, links, start)
  {
    component := [];
    var queue := [start];
    seen := seen0 + {start};
    ghost var whole, x0 := Component(a, links, start), start;
    JoinedSelf(Within(a, links), start);
    while queue != []
      invariant start in seen
      invariant Searching(a, links, start, seen0, seen, component, queue, x0, {})
      decreases whole - seen, |queue|
    {
      SearchPops(a, links, start, seen0, seen, component, queue, x0);
      var x := queue[0];
      queue := queue[1..];
      component := component + [x];
      x0 := x;
      var names := if x in adj then adj[x].Keys else {};
      ghost var todo := set y | y in a && (x, y) in Within(a, links);
      ghost var before, held := seen, queue;
      while names != {}
        invariant names <= (if x in adj then adj[x].Keys else {})
        invariant todo <= names && start in seen && x in component
        invariant before <= seen && (seen == before ==> queue == held)
        invariant seen != before ==> whole - seen < whole - before
        invariant Searching(a, links, start, seen0, seen, component, queue, x, todo)
        decreases names
      {
        var y :| y in names;
        SearchLooks(a, links, start, seen0, seen, component, queue, x, todo, y);
        assert Has(adj, x, y);
        WithinStays(a, links, start, x);
        if y in nodeset && y !in seen {
          assert (x, y) in Within(a, links);
          SeenGrows(whole, before, seen + {y}, y);
          seen := seen + {y};
          queue := queue + [y];
        }
        todo := todo - {y};
        names := names - {y};
      }
      assert todo == {};
    }
    SearchEnds(a, links, start, seen0, seen, component, x0);
  }

  // ---- the numbering loops ------------------------------------------------------

  /** The nodes whose component has been numbered. */
  ghost function Reached(a: Assignment, links: Links, done: set<Head>): set<Node> {
    set x | x in a && HeadOf(a, links, x) in done
  }

  /** The components in `done` are numbered, with their final ids, and no other. */
  ghost predicate Numbering(a: Assignment, links: Links, done: set<Head>, refined: Assignment, next: nat) {
    done <= Heads(a, links) && next == |done| &&
    refined.Keys == Reached(a, links, done) &&
    forall x :: x in refined ==> refined[x] == Rank(Heads(a, links), HeadOf(a, links, x))
  }

  /** The heads met before position j of the i-th community. */
  ghost function MetBefore(a: Assignment, links: Links, ids: seq<int>, i: nat, starts: seq<Node>, j: nat): set<Head>
    requires i < |ids| && j <= |starts|
  {
    set h | h in Heads(a, links) && (h.0 in ids[..i] || (h.0 == ids[i] && h.1 in starts[..j]))
  }

  /** The heads of the first i communities. */
  ghost function MetCommunities(a: Assignment, links: Links, ids: seq<int>, i: nat): set<Head>
    requires i <= |ids|
  {
    set h | h in Heads(a, links) && h.0 in ids[..i]
  }

  /** The two sorted lists the loops walk. */
  ghost predicate Walk(a: Assignment, ids: seq<int>) {
    (forall c :: c in ids <==> c in a.Values) && forall i, j :: 0 <= i < j < |ids| ==> ids[i] < ids[j]
  }

  ghost predicate Starts(a: Assignment, cid: int, starts: seq<Node>) {
    (forall x :: x in starts <==> x in a && a[x] == cid) &&
    forall i, j :: 0 <= i < j < |starts| ==> Before(starts[i], starts[j])
  }

  lemma HeadIsNode(a: Assignment, links: Links, h: Head)
    requires Symmetric(links) && h in Heads(a, links)
    ensures h.1 in a && a[h.1] == h.0 && HeadOf(a, links, h.1) == h
    ensures h.0 in a.Values
  {
    var x := HeadHasOwner(a, links, h);
    HeadOfLeast(a, links, x);
    assert a[x] in a.Values;
  }

  lemma BeforeIsEarlier(starts: seq<Node>, j: nat, x: Node)
    requires j < |starts| && x in starts
    requires forall i, k :: 0 <= i < k < |starts| ==> Before(starts[i], starts[k])
    ensures x in starts[..j] <==> Before(x, starts[j])
  {
    var i :| 0 <= i < |starts| && starts[i] == x;
    BeforeTotal(x, starts[j]);
    if i < j { assert starts[..j][i] == x; }
  }

  lemma LessIsEarlier(ids: seq<int>, i: nat, c: int)
    requires i < |ids| && c in ids
    requires forall j, k :: 0 <= j < k < |ids| ==> ids[j] < ids[k]
    ensures c in ids[..i] <==> c < ids[i]
  {
    var k :| 0 <= k < |ids| && ids[k] == c;
    if k < i { assert ids[..i][k] == c; }
  }

  lemma MetIsBefore(a: Assignment, links: Links, ids: seq<int>, i: nat, starts: seq<Node>, j: nat, g: Head)
    requires Symmetric(links) && i < |ids| && j < |starts| && Walk(a, ids) && Starts(a, ids[i], starts)
    requires g in Heads(a, links)
    ensures g in MetBefore(a, links, ids, i, starts, j) <==> HeadBefore(g, (ids[i], starts[j]))
  {
    HeadIsNode(a, links, g);
    LessIsEarlier(ids, i, g.0);
    if g.0 == ids[i] { BeforeIsEarlier(starts, j, g.1); }
  }

  /** A start node that no earlier search reached is the least of its component, and the
      number of components so far is its rank. */
  lemma FreshStart(a: Assignment, links: Links, ids: seq<int>, i: nat, starts: seq<Node>, j: nat)
    requires Symmetric(links) && i < |ids| && j < |starts| && Walk(a, ids) && Starts(a, ids[i], starts)
    requires starts[j] !in Reached(a, links, MetBefore(a, links, ids, i, starts, j))
    ensures starts[j] in a && HeadOf(a, links, starts[j]) == (ids[i], starts[j])
    ensures Rank(Heads(a, links), (ids[i], starts[j])) == |MetBefore(a, links, ids, i, starts, j)|
  {
    var s, met := starts[j], MetBefore(a, links, ids, i, starts, j);
    assert s in starts;
    var h := HeadOf(a, links, s);
    JoinedSelf(Within(a, links), s);
    assert s in Component(a, links, s);
    MetIsBefore(a, links, ids, i, starts, j, h);
    assert h == (ids[i], s);
    forall g | g in Heads(a, links) ensures g in met <==> HeadBefore(g, h) {
      MetIsBefore(a, links, ids, i, starts, j, g);
    }
    assert (set g | g in Heads(a, links) && HeadBefore(g, h)) == met;
  }

  lemma MetOneMore(a: Assignment, links: Links, ids: seq<int>, i: nat, starts: seq<Node>, j: nat)
    requires i < |ids| && j < |starts|
    ensures var h := (ids[i], starts[j]);
            MetBefore(a, links, ids, i, starts, j + 1) ==
            MetBefore(a, links, ids, i, starts, j) + (if h in Heads(a, links) then {h} else {})
  {
    assert starts[..j + 1] == starts[..j] + [starts[j]];
  }

  /** A start node already reached heads no component of its own. */
  lemma OldStart(a: Assignment, links: Links, ids: seq<int>, i: nat, starts: seq<Node>, j: nat)
    requires Symmetric(links) && i < |ids| && j < |starts| && Walk(a, ids) && Starts(a, ids[i], starts)
    requires starts[j] in Reached(a, links, MetBefore(a, links, ids, i, starts, j))
    ensures MetBefore(a, links, ids, i, starts, j + 1) == MetBefore(a, links, ids, i, starts, j)
  {
    var h := (ids[i], starts[j]);
    MetOneMore(a, links, ids, i, starts, j);
    if h in Heads(a, links) {
      HeadIsNode(a, links, h);
      MetIsBefore(a, links, ids, i, starts, j, h);
      HeadOrder(h, h, h);
    }
  }

  lemma CommunityDone(a: Assignment, links: Links, ids: seq<int>, i: nat, starts: seq<Node>)
    requires Symmetric(links) && i < |ids| && Starts(a, ids[i], starts)
    ensures MetBefore(a, links, ids, i, starts, 0) == MetCommunities(a, links, ids, i)
    ensures MetBefore(a, links, ids, i, starts, |starts|) == MetCommunities(a, links, ids, i + 1)
  {
    assert starts[..|starts|] == starts && ids[..i + 1] == ids[..i] + [ids[i]];
    forall h | h in Heads(a, links) && h.0 == ids[i] ensures h.1 in starts {
      HeadIsNode(a, links, h);
    }
  }

  lemma ReachedClosed(a: Assignment, links: Links, done: set<Head>, x: Node, y: Node)
    requires Symmetric(links) && x in Reached(a, links, done) && (x, y) in Within(a, links)
    ensures y in Reached(a, links, done)
  {
    LinkReaches(Within(a, links), x, y);
    ReachesIsJoined(Within(a, links), x, y);
    SameHead(a, links, x, y);
  }

  lemma ReachedOneMore(a: Assignment, links: Links, done: set<Head>, x: Node, z: Node)
    requires Symmetric(links) && x in a
    ensures z in Reached(a, links, done + {HeadOf(a, links, x)})
       <==> z in Reached(a, links, done) || z in Component(a, links, x)
  {
    if z in a {
      SameHead(a, links, x, z);
    }
  }

  /** `for x in component: refined[x] = next_id`. */
  method AssignId(refined: Assignment, component: seq<Node>, id: int) returns (r: Assignment)
    ensures forall x :: x in r <==> x in refined || x in component
    ensures forall x :: x in r ==> r[x] == if x in component then id else refined[x]
  {
    r := refined;
    for k := 0 to |component|
      invariant forall x :: x in r <==> x in refined || x in component[..k]
      invariant forall x :: x in r ==> r[x] == if x in component[..k] then id else refined[x]
    {
      assert component[..k + 1] == component[..k] + [component[k]];
      r := r[component[k] := id];
    }
    assert component[..|component|] == component;
  }

  lemma NumberingOneMore(a: Assignment, links: Links, done: set<Head>, refined: Assignment, next: nat,
                         x: Node, r: Assignment)
    requires Symmetric(links) && x in a && Numbering(a, links, done, refined, next)
    requires HeadOf(a, links, x) !in done && Rank(Heads(a, links), HeadOf(a, links, x)) == next
    requires forall z :: z in r <==> z in refined || z in Component(a, links, x)
    requires forall z :: z in r ==> r[z] == if z in Component(a, links, x) then next else refined[z]
    ensures Numbering(a, links, done + {HeadOf(a, links, x)}, r, next + 1)
  {
    hide Rank, Heads, IsLeast, SamePart;
    var h := HeadOf(a, links, x);
    forall z ensures z in r <==> z in Reached(a, links, done + {h}) {
      ReachedOneMore(a, links, done, x, z);
    }
    forall z | z in r ensures r[z] == Rank(Heads(a, links), HeadOf(a, links, z)) {
      if z in Component(a, links, x) {
        SameHead(a, links, x, z);
      }
    }
  }

  /** The state between two start nodes of one community. */
  ghost predicate AtStart(a: Assignment, links: Links, ids: seq<int>, i: nat, starts: seq<Node>, j: nat,
                          seen: set<Node>, refined: Assignment, next: nat)
    requires i < |ids| && j <= |starts|
  {
    var done := MetBefore(a, links, ids, i, starts, j);
    Numbering(a, links, done, refined, next) &&
    forall x :: x in seen <==> x in Reached(a, links, done) && a[x] == ids[i]
  }

  lemma StartDone(a: Assignment, links: Links, ids: seq<int>, i: nat, starts: seq<Node>, j: nat,
                  seen: set<Node>, refined: Assignment, next: nat, grown: set<Node>, renumbered: Assignment)
    requires Symmetric(links) && i < |ids| && j < |starts| && Walk(a, ids) && Starts(a, ids[i], starts)
    requires AtStart(a, links, ids, i, starts, j, seen, refined, next) && starts[j] !in seen
    requires starts[j] in a && grown == seen + Component(a, links, starts[j])
    requires forall z :: z in renumbered <==> z in refined || z in Component(a, links, starts[j])
    requires forall z :: z in renumbered ==>
               renumbered[z] == if z in Component(a, links, starts[j]) then next else refined[z]
    ensures AtStart(a, links, ids, i, starts, j + 1, grown, renumbered, next + 1)
  {
    var start, done := starts[j], MetBefore(a, links, ids, i, starts, j);
    assert start in starts;
    FreshStart(a, links, ids, i, starts, j);
    HeadOrder((ids[i], start), (ids[i], start), (ids[i], start));
    MetIsBefore(a, links, ids, i, starts, j, HeadOf(a, links, start));
    NumberingOneMore(a, links, done, refined, next, start, renumbered);
    MetOneMore(a, links, ids, i, starts, j);
    GrownSeen(a, links, done, ids[i], start, seen, grown);
  }

  lemma GrownSeen(a: Assignment, links: Links, done: set<Head>, cid: int, start: Node, seen: set<Node>,
                  grown: set<Node>)
    requires Symmetric(links) && start in a && a[start] == cid
    requires forall x :: x in seen <==> x in Reached(a, links, done) && a[x] == cid
    requires grown == seen + Component(a, links, start)
    ensures forall x :: x in grown <==> x in Reached(a, links, done + {HeadOf(a, links, start)}) && a[x] == cid
  {
    forall z ensures z in grown <==> z in Reached(a, links, done + {HeadOf(a, links, start)}) && a[z] == cid {
      ReachedOneMore(a, links, done, start, z);
      if z in Component(a, links, start) { WithinStays(a, links, start, z); }
    }
  }

  lemma SeenClosed(a: Assignment, links: Links, ids: seq<int>, i: nat, starts: seq<Node>, j: nat,
                   seen: set<Node>, refined: Assignment, next: nat)
    requires Symmetric(links) && i < |ids| && j <= |starts|
    requires AtStart(a, links, ids, i, starts, j, seen, refined, next)
    ensures Closed(Within(a, links), seen)
  {
    forall x, y | (x, y) in Within(a, links) && x in seen ensures y in seen {
      ReachedClosed(a, links, MetBefore(a, links, ids, i, starts, j), x, y);
    }
  }

  /** One start node that no earlier search reached. */
  method RefineStart(adj: Neighbours, nodeset: set<Node>, start: Node, seen0: set<Node>, refined0: Assignment, id: nat,
                     ghost a: Assignment, ghost links: Links)
    returns (seen: set<Node>, refined: Assignment)
    requires Symmetric(links) && forall u, v :: Has(adj, u, v) <==> (u, v) in links
    requires start in a && start !in seen0 && Closed(Within(a, links), seen0)
    requires forall x :: x in nodeset <==> x in a && a[x] == a[start]
    ensures seen == seen0 + Component(a, links, start)
    ensures forall z :: z in refined <==> z in refined0 || z in Component(a, links, start)
    ensures forall z :: z in refined ==> refined[z] == if z in Component(a, links, start) then id else refined0[z]
  {
    var component;
    component, seen := Explore(adj, nodeset, start, seen0, a, links);
    refined := AssignId(refined0, component, id);
  }

  ghost predicate Members(nodes: seq<Node>, a: Assignment, cid: int) {
    forall x :: x in nodes <==> x in a && a[x] == cid
  }

  method SortedStarts(nodes: seq<Node>, ghost a: Assignment, ghost cid: int) returns (starts: seq<Node>)
    requires Distinct(nodes) && Members(nodes, a, cid)
    ensures Starts(a, cid, starts)
  {
    SortedNames(nodes);
    starts := Sorted(Before, nodes);
  }

  /** One community: every start node, in ascending order. */
  method RefineCommunity(adj: Neighbours, nodes: seq<Node>, refined0: Assignment, next0: nat,
                         ghost a: Assignment, ghost links: Links, ghost ids: seq<int>, ghost i: nat)
    returns (refined: Assignment, next: nat)
    requires Symmetric(links) && forall u, v :: Has(adj, u, v) <==> (u, v) in links
    requires i < |ids| && Walk(a, ids)
    requires Distinct(nodes) && Members(nodes, a, ids[i])
    requires Numbering(a, links, MetCommunities(a, links, ids, i), refined0, next0)
    ensures Numbering(a, links, MetCommunities(a, links, ids, i + 1), refined, next)
  {
    refined, next := refined0, next0;
    var nodeset := set x | x in nodes;
    var seen: set<Node> := {};
    var starts := SortedStarts(nodes, a, ids[i]);
    FirstStart(a, links, ids, i, starts, refined, next);
    for j := 0 to |starts|
      invariant AtStart(a, links, ids, i, starts, j, seen, refined, next)
    {
      var start := starts[j];
      assert start in starts;
      if start in seen {
        AtOldStart(a, links, ids, i, starts, j, seen, refined, next);
      } else {
        SeenClosed(a, links, ids, i, starts, j, seen, refined, next);
        var grown, renumbered := RefineStart(adj, nodeset, start, seen, refined, next, a, links);
        StartDone(a, links, ids, i, starts, j, seen, refined, next, grown, renumbered);
        refined, seen, next := renumbered, grown, next + 1;
      }
    }
    CommunityDone(a, links, ids, i, starts);
  }

  lemma FirstStart(a: Assignment, links: Links, ids: seq<int>, i: nat, starts: seq<Node>, refined: Assignment,
                   next: nat)
    requires Symmetric(links) && i < |ids| && Walk(a, ids) && Starts(a, ids[i], starts)
    requires Numbering(a, links, MetCommunities(a, links, ids, i), refined, next)
    ensures AtStart(a, links, ids, i, starts, 0, {}, refined, next)
  {
    CommunityDone(a, links, ids, i, starts);
    NothingSeen(a, links, ids, i, starts);
  }

  lemma AtOldStart(a: Assignment, links: Links, ids: seq<int>, i: nat, starts: seq<Node>, j: nat,
                   seen: set<Node>, refined: Assignment, next: nat)
    requires Symmetric(links) && i < |ids| && j < |starts| && Walk(a, ids) && Starts(a, ids[i], starts)
    requires AtStart(a, links, ids, i, starts, j, seen, refined, next) && starts[j] in seen
    ensures AtStart(a, links, ids, i, starts, j + 1, seen, refined, next)
  {
    OldStart(a, links, ids, i, starts, j);
  }

  lemma NothingSeen(a: Assignment, links: Links, ids: seq<int>, i: nat, starts: seq<Node>)
    requires i < |ids| && Walk(a, ids)
    ensures forall x :: x in Reached(a, links, MetBefore(a, links, ids, i, starts, 0)) ==> a[x] != ids[i]
  {
    forall x | x in Reached(a, links, MetBefore(a, links, ids, i, starts, 0)) ensures a[x] != ids[i] {
      LessIsEarlier(ids, i, a[x]);
    }
  }

  /** `_refine`: it computes exactly the specified refinement, whatever order the
      dictionaries are walked in. */
  method Refine(a: Assignment, edges: seq<Edge>) returns (refined: Assignment)
    ensures refined == Refined(a, LinksOf(edges))
  {
    var adj := BuildAdjacency(edges);
    ghost var links := LinksOf(edges);
    forall u, v ensures Has(adj, u, v) <==> (u, v) in links {
      HoldsLinks(adj, edges, u, v);
    }
    var groups := GroupByCommunity(a);
    var ids := SortedKeys(groups.Keys);
    refined := map[];
    var next := 0;
    assert MetCommunities(a, links, ids, 0) == {};
    for i := 0 to |ids|
      invariant Numbering(a, links, MetCommunities(a, links, ids, i), refined, next)
    {
      assert ids[i] in ids;
      refined, next := RefineCommunity(adj, groups[ids[i]], refined, next, a, links, ids, i);
    }
    AllMet(a, links, ids);
    AllNumbered(a, links, refined, next);
  }

  /** `sorted(comm_nodes.items())`: the keys are distinct, so only they decide the order. */
  method SortedKeys(keys: set<int>) returns (ids: seq<int>)
    ensures forall c :: c in ids <==> c in keys
    ensures forall i, j :: 0 <= i < j < |ids| ==> ids[i] < ids[j]
  {
    var listed: seq<int> := [];
    var rest := keys;
    while rest != {}
      invariant rest <= keys && Distinct(listed)
      invariant forall c :: c in listed <==> c in keys && c !in rest
    {
      ghost var some := SomeMember(rest);
      var c :| c in rest;
      listed := listed + [c];
      rest := rest - {c};
    }
    SortedIds(listed);
    ids := Sorted(IntBefore, listed);
  }

  lemma HeadInWalk(a: Assignment, links: Links, ids: seq<int>, h: Head)
    requires Symmetric(links) && Walk(a, ids) && h in Heads(a, links)
    ensures h.0 in ids
  {
    HeadIsNode(a, links, h);
  }

  lemma AllMet(a: Assignment, links: Links, ids: seq<int>)
    requires Symmetric(links) && Walk(a, ids)
    ensures MetCommunities(a, links, ids, |ids|) == Heads(a, links)
  {
    assert ids[..|ids|] == ids;
    forall h | h in Heads(a, links) ensures h in MetCommunities(a, links, ids, |ids|) {
      HeadInWalk(a, links, ids, h);
    }
    MutualSubsets(MetCommunities(a, links, ids, |ids|), Heads(a, links));
  }

  lemma AllReached(a: Assignment, links: Links)
    ensures Reached(a, links, Heads(a, links)) == a.Keys
  {
    forall x | x in a ensures HeadOf(a, links, x) in Heads(a, links) {
    }
  }

  lemma AllNumbered(a: Assignment, links: Links, refined: Assignment, next: nat)
    requires Numbering(a, links, Heads(a, links), refined, next)
    ensures refined == Refined(a, links)
  {
    AllReached(a, links);
    var r := Refined(a, links);
    assert r.Keys == a.Keys;
    SameMap(refined, r);
  }
}
