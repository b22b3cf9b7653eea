/** The specification of Ariadne's refinement: every community is split into its
    connected components, numbered in the order of (community id, least node name). */
module Refinement {
  import opened Paths
  import opened Ordering

  type Node = string
  datatype Edge = Edge(u: Node, v: Node, w: real)
  type Assignment = map<Node, int>
  type Links = set<(Node, Node)>
  /** A component is known by its community and its least node. */
  type Head = (int, Node)

  ghost function Ends(e: Edge): set<Node> { {e.u, e.v} }

  /** An edge counts as a link when its weight is positive; self edges are ignored. */
  ghost predicate Linked(edges: seq<Edge>, u: Node, v: Node) {
    u != v && exists i :: 0 <= i < |edges| && edges[i].w > 0.0 && Ends(edges[i]) == {u, v}
  }

  /** The pairs an edge list links. */
  ghost function LinksOf(edges: seq<Edge>): (r: Links)
    ensures forall u, v :: (u, v) in r <==> Linked(edges, u, v)
    ensures Symmetric(r)
  {
    var forth := set i | 0 <= i < |edges| && edges[i].w > 0.0 && edges[i].u != edges[i].v :: (edges[i].u, edges[i].v);
    var r := forth + Flip(forth);
    forall u, v ensures (u, v) in r <==> Linked(edges, u, v) {
      LinkedEitherWay(edges, u, v);
    }
    r
  }

  lemma LinkedEitherWay(edges: seq<Edge>, u: Node, v: Node)
    ensures Linked(edges, u, v) <==>
              u != v && (exists i ::
                0 <= i < |edges| && edges[i].w > 0.0 &&
                ((edges[i].u == u && edges[i].v == v) || (edges[i].u == v && edges[i].v == u)))
    ensures Linked(edges, u, v) <==> Linked(edges, v, u)
  {
    if Linked(edges, u, v) {
      var i :| 0 <= i < |edges| && edges[i].w > 0.0 && Ends(edges[i]) == {u, v};
      assert edges[i].u in Ends(edges[i]) && edges[i].v in Ends(edges[i]) && u in Ends(edges[i]) && v in Ends(edges[i]);
    }
    if i :| 0 <= i < |edges| && edges[i].w > 0.0 &&
            ((edges[i].u == u && edges[i].v == v) || (edges[i].u == v && edges[i].v == u)) {
      assert Ends(edges[i]) == {u, v};
    }
    assert {u, v} == {v, u};
  }

  /** The links that stay inside one community. */
  ghost function Within(a: Assignment, links: Links): (r: Links)
    ensures forall u, v :: (u, v) in r <==> (u, v) in links && u in a && v in a && a[u] == a[v]
    ensures Symmetric(links) ==> Symmetric(r)
  {
    set l | l in links && l.0 in a && l.1 in a && a[l.0] == a[l.1]
  }

  ghost predicate SamePart(a: Assignment, links: Links, x: Node, y: Node) {
    Joined(Within(a, links), x, y)
  }

  ghost function Component(a: Assignment, links: Links, x: Node): set<Node> {
    set y | y in a && SamePart(a, links, x, y)
  }

  ghost predicate IsLeast(s: set<Node>, z: Node) {
    z in s && forall y :: y in s ==> y == z || Before(z, y)
  }

  lemma LeastExists(s: set<Node>)
    requires s != {}
    ensures exists z :: IsLeast(s, z)
  {
    var x :| x in s;
    var rest := s - {x};
    if rest == {} {
      assert s == {x};
      assert IsLeast(s, x);
    } else {
      LeastExists(rest);
      var z :| IsLeast(rest, z);
      BeforeTotal(x, z);
      forall y | y in rest ensures Before(x, z) ==> Before(x, y) {
        if Before(x, z) && y != z {
          BeforeTransitive(x, z, y);
        }
      }
      assert IsLeast(s, if Before(x, z) then x else z);
    }
  }

  lemma LeastUnique(s: set<Node>, y: Node, z: Node)
    requires IsLeast(s, y) && IsLeast(s, z)
    ensures y == z
  {
    BeforeTotal(y, z);
  }

  ghost function HeadOf(a: Assignment, links: Links, x: Node): (h: Head)
    requires x in a
    ensures h.0 == a[x] && IsLeast(Component(a, links, x), h.1)
  {
    JoinedSelf(Within(a, links), x);
    assert x in Component(a, links, x);
    LeastExists(Component(a, links, x));
    var z :| IsLeast(Component(a, links, x), z);
    (a[x], z)
  }

  ghost function Heads(a: Assignment, links: Links): (r: set<Head>)
    ensures forall x {:trigger HeadOf(a, links, x)} :: x in a ==> HeadOf(a, links, x) in r
  {
    set x | x in a :: HeadOf(a, links, x)
  }

  ghost predicate HeadBefore(g: Head, h: Head) {
    g.0 < h.0 || (g.0 == h.0 && Before(g.1, h.1))
  }

  /** How many heads come earlier: the position of h in ascending order. */
  ghost function Rank(s: set<Head>, h: Head): nat {
    |set g | g in s && HeadBefore(g, h)|
  }

  /** What `_refine` returns. */
  ghost function Refined(a: Assignment, links: Links): (r: Assignment)
  {
    map x | x in a :: Rank(Heads(a, links), HeadOf(a, links, x))
  }

  // ---- components -------------------------------------------------------------

  lemma WithinStays(a: Assignment, links: Links, x: Node, y: Node)
    requires x in a && SamePart(a, links, x, y)
    ensures y in a && a[y] == a[x]
  {
    var here := set z | z in a && a[z] == a[x];
    assert Closed(Within(a, links), here);
    JoinedStaysClosed(Within(a, links), here, x, y);
  }

  lemma SamePartEquivalence(a: Assignment, links: Links, x: Node, y: Node, z: Node)
    requires Symmetric(links) && SamePart(a, links, x, y)
    ensures SamePart(a, links, y, x)
    ensures SamePart(a, links, y, z) <==> SamePart(a, links, x, z)
  {
    var w := Within(a, links);
    JoinedSymmetric(w, x, y);
    if Joined(w, y, z) { JoinedTransitive(w, x, y, z); }
    if Joined(w, x, z) { JoinedTransitive(w, y, x, z); }
  }

  lemma SameComponent(a: Assignment, links: Links, x: Node, y: Node)
    requires Symmetric(links) && SamePart(a, links, x, y)
    ensures Component(a, links, x) == Component(a, links, y)
  {
    forall z ensures z in Component(a, links, x) <==> z in Component(a, links, y) {
      SamePartEquivalence(a, links, x, y, z);
    }
  }

  /** Two nodes have the same head exactly when they are in the same component. */
  lemma SameHead(a: Assignment, links: Links, x: Node, y: Node)
    requires Symmetric(links) && x in a && y in a
    ensures HeadOf(a, links, x) == HeadOf(a, links, y) <==> SamePart(a, links, x, y)
  {
    var g, h := HeadOf(a, links, x), HeadOf(a, links, y);
    if SamePart(a, links, x, y) {
      SameComponent(a, links, x, y);
      LeastUnique(Component(a, links, x), g.1, h.1);
      WithinStays(a, links, x, y);
    } else if g == h {
      SamePartEquivalence(a, links, y, h.1, x);
      SamePartEquivalence(a, links, x, g.1, y);
      assert false;
    }
  }

  /** The least node of a component has that component's head. */
  lemma HeadOfLeast(a: Assignment, links: Links, x: Node)
    requires Symmetric(links) && x in a
    ensures var h := HeadOf(a, links, x); h.1 in a && a[h.1] == a[x] && HeadOf(a, links, h.1) == h
  {
    var h := HeadOf(a, links, x);
    WithinStays(a, links, x, h.1);
    SameHead(a, links, x, h.1);
  }

  // ---- ranks ------------------------------------------------------------------

  lemma HeadOrder(g: Head, h: Head, i: Head)
    ensures HeadBefore(g, h) || g == h || HeadBefore(h, g)
    ensures HeadBefore(g, h) ==> !HeadBefore(h, g) && g != h
    ensures HeadBefore(g, h) && HeadBefore(h, i) ==> HeadBefore(g, i)
  {
    BeforeTotal(g.1, h.1);
    if Before(g.1, h.1) && Before(h.1, i.1) {
      BeforeTransitive(g.1, h.1, i.1);
    }
  }

  lemma SubsetSize<T>(s: set<T>, t: set<T>)
    requires s <= t
    ensures |s| <= |t| && (s != t ==> |s| < |t|)
  {
    assert t == s + (t - s);
    assert |t| == |s| + |t - s|;
  }

  lemma RankMonotone(s: set<Head>, g: Head, h: Head)
    requires g in s && HeadBefore(g, h)
    ensures Rank(s, g) < Rank(s, h)
  {
    var below := set i | i in s && HeadBefore(i, g);
    var above := set i | i in s && HeadBefore(i, h);
    forall i | i in below ensures i in above {
      HeadOrder(i, g, h);
    }
    HeadOrder(g, g, g);
    assert g in above && g !in below;
    SubsetSize(below, above);
  }

  lemma RankInjective(s: set<Head>, g: Head, h: Head)
    requires g in s && h in s
    ensures Rank(s, g) == Rank(s, h) <==> g == h
    ensures Rank(s, g) < Rank(s, h) <==> HeadBefore(g, h)
    ensures Rank(s, g) < |s|
  {
    HeadOrder(g, h, g);
    if HeadBefore(g, h) { RankMonotone(s, g, h); }
    if HeadBefore(h, g) { RankMonotone(s, h, g); }
    var below := set i | i in s && HeadBefore(i, g);
    HeadOrder(g, g, g);
    assert g !in below;
    SubsetSize(below, s);
  }

  ghost predicate IsLast(s: set<Head>, m: Head) {
    m in s && forall g :: g in s ==> g == m || HeadBefore(g, m)
  }

  lemma LastHead(s: set<Head>) returns (m: Head)
    requires s != {}
    ensures IsLast(s, m)
  {
    var x :| x in s;
    var rest := s - {x};
    if rest == {} {
      m := x;
      assert s == {x};
    } else {
      var n := LastHead(rest);
      m := if HeadBefore(x, n) then n else x;
      forall g | g in s ensures g == m || HeadBefore(g, m) {
        HeadOrder(x, n, x);
        HeadOrder(g, n, x);
        assert g == x || g in rest;
      }
    }
  }

  /** Ranks leave no gap: every number below the size is the rank of a member. */
  lemma {:induction false} RankOnto(s: set<Head>, k: nat) returns (h: Head)
    requires k < |s|
    ensures h in s && Rank(s, h) == k
    decreases |s|
  {
    var m := LastHead(s);
    HeadOrder(m, m, m);
    if k == |s| - 1 {
      h := m;
      assert (set g | g in s && HeadBefore(g, m)) == s - {m} by {
        forall g | g in s ensures HeadBefore(g, m) <==> g != m { HeadOrder(g, m, m); }
      }
    } else {
      h := RankOnto(s - {m}, k);
      HeadOrder(h, m, h);
      assert (set g | g in s && HeadBefore(g, h)) == set g | g in s - {m} && HeadBefore(g, h);
    }
  }

  // ---- what refinement promises -----------------------------------------------

  /** Exactness: two nodes share an id exactly when they share a community and a walk of
      links inside it joins them, and the ids are 0, 1, ... with no gap. */
  lemma RefinedIsExact(a: Assignment, links: Links, x: Node, y: Node)
    requires Symmetric(links) && x in a && y in a
    ensures var r := Refined(a, links);
            (r[x] == r[y] <==> a[x] == a[y] && SamePart(a, links, x, y)) &&
            (r[x] < r[y] <==> HeadBefore(HeadOf(a, links, x), HeadOf(a, links, y)))
  {
    SameHead(a, links, x, y);
    RankInjective(Heads(a, links), HeadOf(a, links, x), HeadOf(a, links, y));
    if SamePart(a, links, x, y) {
      WithinStays(a, links, x, y);
    }
  }

  lemma RefinedIdsAreConsecutive(a: Assignment, links: Links)
    ensures forall id :: id in Refined(a, links).Values <==> 0 <= id < |Heads(a, links)|
  {
    forall id | id in Refined(a, links).Values ensures 0 <= id < |Heads(a, links)| {
      var x :| x in a && Refined(a, links)[x] == id;
      RankInjective(Heads(a, links), HeadOf(a, links, x), HeadOf(a, links, x));
    }
    forall id: nat | id < |Heads(a, links)| ensures id in Refined(a, links).Values { IdIsUsed(a, links, id); }
  }

  lemma IdIsUsed(a: Assignment, links: Links, id: nat)
    requires id < |Heads(a, links)|
    ensures id in Refined(a, links).Values
  {
    var h := RankOnto(Heads(a, links), id);
    var x :| x in a && h == HeadOf(a, links, x);
    assert Refined(a, links)[x] == id;
  }

  /** The exactness of r, for any way of numbering the parts. */
  ghost predicate Exact(a: Assignment, links: Links, r: Assignment) {
    r.Keys == a.Keys && forall x, y :: x in a && y in a ==> (r[x] == r[y] <==> SamePart(a, links, x, y))
  }

  lemma RefinedExact(a: Assignment, links: Links)
    requires Symmetric(links)
    ensures Exact(a, links, Refined(a, links))
  {
    forall x, y | x in a && y in a
      ensures Refined(a, links)[x] == Refined(a, links)[y] <==> SamePart(a, links, x, y)
    {
      RefinedIsExact(a, links, x, y);
      if SamePart(a, links, x, y) { WithinStays(a, links, x, y); }
    }
  }

  /** b separates every pair that a separates. */
  ghost predicate Refines(b: Assignment, a: Assignment) {
    b.Keys == a.Keys && forall x, y :: x in a && y in a && b[x] == b[y] ==> a[x] == a[y]
  }

  /** Every class is connected by links inside it. */
  ghost predicate WellConnected(a: Assignment, links: Links) {
    forall x, y :: x in a && y in a && a[x] == a[y] ==> SamePart(a, links, x, y)
  }

  /** A walk inside a community is a walk inside its refined part. */
  lemma ExactKeepsWalks(a: Assignment, links: Links, r: Assignment, x: Node, y: Node)
    requires Exact(a, links, r) && x in a
    ensures SamePart(r, links, x, y) <==> SamePart(a, links, x, y)
  {
    forall u, v | (u, v) in Within(a, links) ensures (u, v) in Within(r, links) {
      LinkReaches(Within(a, links), u, v);
      ReachesIsJoined(Within(a, links), u, v);
    }
    forall u, v | (u, v) in Within(r, links) ensures (u, v) in Within(a, links) {
      WithinStays(a, links, u, v);
    }
    assert Within(a, links) == Within(r, links);
  }

  lemma RefinedIsWellConnected(a: Assignment, links: Links)
    requires Symmetric(links)
    ensures Refines(Refined(a, links), a) && WellConnected(Refined(a, links), links)
  {
    RefinedExact(a, links);
    ExactIsWellConnected(a, links, Refined(a, links));
  }

  lemma ExactIsWellConnected(a: Assignment, links: Links, r: Assignment)
    requires Exact(a, links, r)
    ensures Refines(r, a) && WellConnected(r, links)
  {
    forall x, y | x in a && y in a && r[x] == r[y] ensures a[x] == a[y] && SamePart(r, links, x, y) {
      ExactKeepsWalks(a, links, r, x, y);
      WithinStays(a, links, x, y);
    }
  }

  lemma ExactIsCoarsest(a: Assignment, links: Links, r: Assignment, b: Assignment)
    requires Exact(a, links, r) && Refines(b, a) && WellConnected(b, links)
    ensures Refines(b, r)
  {
    forall x, y | x in a && y in a && b[x] == b[y] ensures r[x] == r[y] {
      assert Within(b, links) <= Within(a, links);
      JoinedMonotone(Within(b, links), Within(a, links), x, y);
    }
  }

  /** It splits no more than it must: any well-connected refinement of a refines it. */
  lemma RefinedIsCoarsest(a: Assignment, links: Links, b: Assignment)
    requires Symmetric(links) && Refines(b, a) && WellConnected(b, links)
    ensures Refines(b, Refined(a, links))
  {
    RefinedExact(a, links);
    ExactIsCoarsest(a, links, Refined(a, links), b);
  }

  /** Refinement leaves a partition alone exactly when it was well connected already. */
  lemma RefinedChangesNothingIff(a: Assignment, links: Links)
    requires Symmetric(links)
    ensures Refines(a, Refined(a, links)) <==> WellConnected(a, links)
  {
    RefinedExact(a, links);
    if WellConnected(a, links) {
      RefinedIsCoarsest(a, links, a);
    }
  }

  // ---- canonical ids ----------------------------------------------------------

  ghost predicate HasFirst(s: set<Head>, k: int) {
    exists g :: g in s && g.0 == k
  }

  /** If the first parts of the heads are 0, 1, ... each once, then n of them are below n. */
  lemma {:induction false} CountBelow(s: set<Head>, n: nat)
    requires forall g :: g in s ==> g.0 >= 0
    requires forall g, h :: g in s && h in s && g.0 == h.0 ==> g == h
    requires forall k :: 0 <= k < n ==> HasFirst(s, k)
    ensures |set g | g in s && g.0 < n| == n
  {
    if n == 0 {
      assert (set g | g in s && g.0 < 0) == {};
    } else {
      CountBelow(s, n - 1);
      assert HasFirst(s, n - 1);
      var h :| h in s && h.0 == n - 1;
      assert (set g | g in s && g.0 < n) == (set g | g in s && g.0 < n - 1) + {h};
    }
  }

  /** The ids of r number its own heads: each id is used by one head, and no head lacks one. */
  ghost predicate Numbered(s: set<Head>, n: nat) {
    (forall g :: g in s ==> 0 <= g.0 < n) &&
    (forall g, h :: g in s && h in s && g.0 == h.0 ==> g == h) &&
    (forall k :: 0 <= k < n ==> HasFirst(s, k))
  }

  lemma HeadHasOwner(r: Assignment, links: Links, g: Head) returns (x: Node)
    requires g in Heads(r, links)
    ensures x in r && HeadOf(r, links, x) == g
  {
    x :| x in r && HeadOf(r, links, x) == g;
  }

  lemma HeadsShareNoId(a: Assignment, links: Links, r: Assignment, g: Head, h: Head)
    requires Symmetric(links) && Exact(a, links, r)
    requires g in Heads(r, links) && h in Heads(r, links) && g.0 == h.0
    ensures g == h
  {
    var x := HeadHasOwner(r, links, g);
    var y := HeadHasOwner(r, links, h);
    ExactKeepsWalks(a, links, r, x, y);
    SameHead(r, links, x, y);
  }

  lemma IdHasHead(r: Assignment, links: Links, k: int)
    requires k in r.Values
    ensures HasFirst(Heads(r, links), k)
  {
    var x :| x in r && r[x] == k;
    var h := HeadOf(r, links, x);
    assert h in Heads(r, links);
  }

  lemma HeadsNumbered(a: Assignment, links: Links, r: Assignment, n: nat)
    requires Symmetric(links) && Exact(a, links, r)
    requires forall id :: id in r.Values <==> 0 <= id < n
    ensures Numbered(Heads(r, links), n)
  {
    var s := Heads(r, links);
    forall g | g in s ensures 0 <= g.0 < n {
      var x := HeadHasOwner(r, links, g);
      assert r[x] in r.Values;
    }
    forall g, h | g in s && h in s && g.0 == h.0 ensures g == h {
      HeadsShareNoId(a, links, r, g, h);
    }
    forall k | 0 <= k < n ensures HasFirst(s, k) {
      IdHasHead(r, links, k);
    }
  }

  lemma RankIsFirst(s: set<Head>, h: Head, n: nat)
    requires h in s && Numbered(s, n)
    ensures Rank(s, h) == h.0
  {
    CountBelow(s, h.0);
    HeadOrder(h, h, h);
    assert (set g | g in s && HeadBefore(g, h)) == set g | g in s && g.0 < h.0;
  }

  /** Refining twice is refining once, ids included. */
  lemma RefinedIdempotent(a: Assignment, links: Links)
    requires Symmetric(links)
    ensures Refined(Refined(a, links), links) == Refined(a, links)
  {
    var r, n := Refined(a, links), |Heads(a, links)|;
    RefinedExact(a, links);
    RefinedIdsAreConsecutive(a, links);
    HeadsNumbered(a, links, r, n);
    NumberedIsFixed(r, links, n);
  }

  lemma NumberedNode(r: Assignment, links: Links, n: nat, x: Node)
    requires Numbered(Heads(r, links), n) && x in r
    ensures Refined(r, links)[x] == r[x]
  {
    RankIsFirst(Heads(r, links), HeadOf(r, links, x), n);
  }

  lemma NumberedIsFixed(r: Assignment, links: Links, n: nat)
    requires Numbered(Heads(r, links), n)
    ensures Refined(r, links) == r
  {
    var q := Refined(r, links);
    assert q.Keys == r.Keys;
    forall x | x in r ensures q[x] == r[x] {
      NumberedNode(r, links, n, x);
    }
    SameMap(q, r);
  }

  lemma SameMap<K, V>(m: map<K, V>, n: map<K, V>)
    requires m.Keys == n.Keys && forall k :: k in m ==> m[k] == n[k]
    ensures m == n
  {
  }

  /** Every positive edge of e joins a pair that a positive edge of f joins. */
  ghost predicate Covered(e: seq<Edge>, f: seq<Edge>) {
    forall i :: 0 <= i < |e| && e[i].w > 0.0 ==> exists j :: 0 <= j < |f| && f[j].w > 0.0 && Ends(f[j]) == Ends(e[i])
  }

  lemma CoveredLinks(e: seq<Edge>, f: seq<Edge>)
    requires Covered(e, f)
    ensures LinksOf(e) <= LinksOf(f)
  {
    forall u, v | Linked(e, u, v) ensures Linked(f, u, v) {
      var i :| 0 <= i < |e| && e[i].w > 0.0 && Ends(e[i]) == {u, v};
      var j :| 0 <= j < |f| && f[j].w > 0.0 && Ends(f[j]) == Ends(e[i]);
    }
  }

  lemma MutualSubsets<T>(s: set<T>, t: set<T>)
    requires s <= t && t <= s
    ensures s == t
  {
  }

  lemma SameLinks(e: seq<Edge>, f: seq<Edge>)
    requires Covered(e, f) && Covered(f, e)
    ensures LinksOf(e) == LinksOf(f)
  {
    CoveredLinks(e, f);
    CoveredLinks(f, e);
    MutualSubsets(LinksOf(e), LinksOf(f));
  }

  lemma RefinedOfSameLinks(a: Assignment, l: Links, m: Links)
    requires l == m
    ensures Refined(a, l) == Refined(a, m)
  {
  }

  /** Only which pairs are linked matters: reordering the edges, turning some around, or
      changing positive weights leaves every id as it was. */
  lemma RefinedIgnoresEdgeShape(a: Assignment, e: seq<Edge>, f: seq<Edge>)
    requires Covered(e, f) && Covered(f, e)
    ensures Refined(a, LinksOf(e)) == Refined(a, LinksOf(f))
  {
    SameLinks(e, f);
    RefinedOfSameLinks(a, LinksOf(e), LinksOf(f));
  }

  lemma PermutedCovered(e: seq<Edge>, f: seq<Edge>)
    requires multiset(e) == multiset(f)
    ensures Covered(e, f)
  {
    SameMembers(e, f);
    forall i | 0 <= i < |e| && e[i].w > 0.0
      ensures exists j :: 0 <= j < |f| && f[j].w > 0.0 && Ends(f[j]) == Ends(e[i])
    {
      assert e[i] in f;
      var j :| 0 <= j < |f| && f[j] == e[i];
      assert Ends(f[j]) == Ends(e[i]);
    }
  }

  lemma RefinedIgnoresEdgeOrder(a: Assignment, e: seq<Edge>, f: seq<Edge>)
    requires multiset(e) == multiset(f)
    ensures Refined(a, LinksOf(e)) == Refined(a, LinksOf(f))
  {
    PermutedCovered(e, f);
    PermutedCovered(f, e);
    RefinedIgnoresEdgeShape(a, e, f);
  }

  /** An edge may be split into two parallel edges, one of them turned around. */
  lemma RefinedIgnoresSplitting(a: Assignment, before: seq<Edge>, u: Node, v: Node, w1: real, w2: real,
                                after: seq<Edge>)
    requires w1 > 0.0 && w2 > 0.0
    ensures Refined(a, LinksOf(before + [Edge(u, v, w1 + w2)] + after))
         == Refined(a, LinksOf(before + [Edge(u, v, w1), Edge(v, u, w2)] + after))
  {
    var e := before + [Edge(u, v, w1 + w2)] + after;
    var f := before + [Edge(u, v, w1), Edge(v, u, w2)] + after;
    var n := |before|;
    forall i | 0 <= i < |e| && e[i].w > 0.0
      ensures exists j :: 0 <= j < |f| && f[j].w > 0.0 && Ends(f[j]) == Ends(e[i])
    {
      var j := if i <= n then i else i + 1;
      assert f[j].w > 0.0 && Ends(f[j]) == Ends(e[i]);
    }
    forall j | 0 <= j < |f| && f[j].w > 0.0
      ensures exists i :: 0 <= i < |e| && e[i].w > 0.0 && Ends(e[i]) == Ends(f[j])
    {
      var i := if j <= n then j else j - 1;
      assert e[i].w > 0.0 && Ends(e[i]) == Ends(f[j]);
    }
    RefinedIgnoresEdgeShape(a, e, f);
  }
}
