/** Reachability in a call graph: the depth-first searches that produce the ground
    truth of the resolution and flow benchmarks. */
module Reachability {
  import opened Paths

  type Node = string
  type Edges = set<(Node, Node)>

  /** What both searches promise: the nodes at the end of a walk of at least one edge. */
  ghost function ReachSet(edges: Edges, start: Node): (r: set<Node>)
    ensures forall v :: v in r <==> Reaches(edges, start, v)
  {
    var targets := set e | e in edges :: e.1;
    forall v | Reaches(edges, start, v) ensures v in targets {
      var p :| |p| >= 2 && WalkFromTo(edges, p, start, v);
      assert (p[|p| - 2], p[|p| - 2 + 1]) in edges;
      assert (p[|p| - 2], v).1 in targets;
    }
    set v | v in targets && Reaches(edges, start, v)
  }

  function Directed(edges: Edges, reverse: bool): Edges {
    if reverse then Flip(edges) else edges
  }

  ghost function Successors(edges: Edges, u: Node): (r: set<Node>)
    ensures forall v :: v in r <==> (u, v) in edges
  {
    set e | e in edges && e.0 == u :: e.1
  }

  /** The adjacency map holds exactly the successor sets. */
  ghost predicate Adjacency(adj: map<Node, set<Node>>, edges: Edges) {
    (forall u :: u in adj ==> adj[u] == Successors(edges, u)) &&
    (forall u :: u !in adj ==> Successors(edges, u) == {})
  }

  /** What holds while nodes wait on the stack: everything seen is reachable, and every
      node already expanded has its successors among the seen. */
  ghost predicate Exploring(edges: Edges, start: Node, seen: set<Node>, stack: seq<Node>) {
    (forall n :: n in stack ==> n == start || n in seen) &&
    (forall n :: n in seen ==> Reaches(edges, start, n)) &&
    (forall n :: (n == start || n in seen) && n !in stack ==> Successors(edges, n) <= seen)
  }

  lemma ExploredAll(edges: Edges, start: Node, seen: set<Node>)
    requires Exploring(edges, start, seen, [])
    ensures seen == ReachSet(edges, start)
  {
    forall v | Reaches(edges, start, v) ensures v in seen {
      var p :| |p| >= 2 && WalkFromTo(edges, p, start, v);
      forall a, b | (a, b) in edges && a in seen + {start} ensures b in seen + {start} {
        assert b in Successors(edges, a);
      }
      WalkStaysClosed(edges, seen + {start}, p, |p| - 2);
      assert (p[|p| - 2], p[|p| - 2 + 1]) in edges;
      assert v in Successors(edges, p[|p| - 2]);
    }
  }

  lemma DirectedOneMore(edges: Edges, rest: Edges, e: (Node, Node), reverse: bool)
    requires rest <= edges && e in rest
    ensures Directed(edges - (rest - {e}), reverse)
         == Directed(edges - rest, reverse) + {if reverse then (e.1, e.0) else e}
  {
    assert edges - (rest - {e}) == (edges - rest) + {e};
  }

  lemma AdjacencyOneMore(adj: map<Node, set<Node>>, edges: Edges, u: Node, v: Node)
    requires Adjacency(adj, edges)
    ensures Adjacency(adj[u := (if u in adj then adj[u] else {}) + {v}], edges + {(u, v)})
  {
    forall x ensures Successors(edges + {(u, v)}, x) == Successors(edges, x) + (if x == u then {v} else {}) {
    }
  }

  /** `adj` of `_reachable`: adjacency sets, in either direction. */
  method AdjacencySets(edges: Edges, reverse: bool) returns (adj: map<Node, set<Node>>)
    ensures Adjacency(adj, Directed(edges, reverse))
  {
    adj := map[];
    var rest := edges;
    ghost var done: Edges := {};
    while rest != {}
      invariant rest <= edges && done == Directed(edges - rest, reverse)
      invariant Adjacency(adj, done)
    {
      var e :| e in rest;
      var (u, v) := if reverse then (e.1, e.0) else (e.0, e.1);
      DirectedOneMore(edges, rest, e, reverse);
      AdjacencyOneMore(adj, done, u, v);
      adj := adj[u := (if u in adj then adj[u] else {}) + {v}];
      rest := rest - {e};
      done := done + {(u, v)};
    }
    assert edges - {} == edges;
  }

  /** `adj` of `_forward_reachable`: adjacency lists, forward only. */
  method AdjacencyLists(edges: Edges) returns (adj: map<Node, seq<Node>>)
    ensures forall u :: u in adj ==> forall v :: v in adj[u] <==> v in Successors(edges, u)
    ensures forall u :: u !in adj ==> Successors(edges, u) == {}
  {
    adj := map[];
    var rest := edges;
    while rest != {}
      invariant rest <= edges
      invariant forall u :: u in adj ==> forall v :: v in adj[u] <==> (u, v) in edges - rest
      invariant forall u :: u !in adj ==> forall v :: (u, v) !in edges - rest
    {
      var e :| e in rest;
      adj := adj[e.0 := (if e.0 in adj then adj[e.0] else []) + [e.1]];
      rest := rest - {e};
    }
    assert edges - {} == edges;
  }

  /** The state while node n is being expanded: as Exploring, except that the successors
      of n in `todo` are still to be looked at. */
  ghost predicate Expanding(edges: Edges, start: Node, seen: set<Node>, stack: seq<Node>, n: Node, todo: set<Node>) {
    (n == start || n in seen) &&
    (forall x :: x in stack ==> x == start || x in seen) &&
    (forall x :: x in seen ==> Reaches(edges, start, x)) &&
    (forall x :: (x == start || x in seen) && x !in stack && x != n ==> Successors(edges, x) <= seen) &&
    todo <= Successors(edges, n) <= todo + seen
  }

  lemma PopStarts(edges: Edges, start: Node, seen: set<Node>, stack: seq<Node>)
    requires Exploring(edges, start, seen, stack) && stack != []
    ensures var n := stack[|stack| - 1];
            Expanding(edges, start, seen, stack[..|stack| - 1], n, Successors(edges, n))
  {
    var rest := stack[..|stack| - 1];
    assert stack == rest + [stack[|stack| - 1]];
  }

  lemma PushKeeps(edges: Edges, start: Node, seen: set<Node>, stack: seq<Node>, n: Node, todo: set<Node>, m: Node)
    requires Expanding(edges, start, seen, stack, n, todo) && m in todo
    ensures m !in seen ==> Expanding(edges, start, seen + {m}, stack + [m], n, todo - {m})
    ensures m in seen ==> Expanding(edges, start, seen, stack, n, todo - {m})
    ensures Reaches(edges, start, m)
  {
    ReachesIsJoined(edges, start, n);
    JoinedThenLink(edges, start, n, m);
  }

  /** `_reachable` of the resolution benchmark. */
  method Reachable(edges: Edges, start: Node, reverse: bool) returns (seen: set<Node>)
    ensures seen == ReachSet(Directed(edges, reverse), start)
    ensures !reverse ==> seen == ReachSet(edges, start)
    ensures reverse ==> forall v :: v in seen <==> start in ReachSet(edges, v)
  {
    var adj := AdjacencySets(edges, reverse);
    ghost var g := Directed(edges, reverse);
    seen := {};
    var stack := [start];
    while stack != []
      invariant Exploring(g, start, seen, stack)
      decreases ReachSet(g, start) - seen, |stack|
    {
      PopStarts(g, start, seen, stack);
      var n := stack[|stack| - 1];
      stack := stack[..|stack| - 1];
      ghost var before, left := seen, stack;
      var todo := if n in adj then adj[n] else {};
      while todo != {}
        invariant Expanding(g, start, seen, stack, n, todo)
        invariant before <= seen && (seen == before ==> stack == left)
        decreases todo
      {
        var m :| m in todo;
        PushKeeps(g, start, seen, stack, n, todo, m);
        if m !in seen {
          seen := seen + {m};
          stack := stack + [m];
        }
        todo := todo - {m};
      }
      SeenGrew(g, start, before, seen);
    }
    ExploredAll(g, start, seen);
    forall v ensures reverse ==> (v in seen <==> start in ReachSet(edges, v)) { ReverseIsConverse(edges, v, start); }
  }

  lemma SeenGrew(edges: Edges, start: Node, before: set<Node>, seen: set<Node>)
    requires before <= seen && forall x :: x in seen ==> Reaches(edges, start, x)
    ensures before != seen ==> ReachSet(edges, start) - seen < ReachSet(edges, start) - before
  {
    if before != seen {
      var x :| x in seen && x !in before;
      assert x in ReachSet(edges, start) - before && x !in ReachSet(edges, start) - seen;
    }
  }

  ghost function Listed(s: seq<Node>): set<Node> {
    set x | x in s
  }

  lemma ListedOneLess(s: seq<Node>, i: nat)
    requires i < |s|
    ensures s[i] in Listed(s[i..])
    ensures Listed(s[i..]) - {s[i]} <= Listed(s[i + 1..]) <= Listed(s[i..])
  {
    assert s[i..] == [s[i]] + s[i + 1..];
  }

  /** `_forward_reachable` of the flow benchmark. */
  method ForwardReachable(entry: Node, edges: Edges) returns (seen: set<Node>)
    ensures seen == ReachSet(edges, entry)
  {
    var adj := AdjacencyLists(edges);
    seen := {};
    var stack := [entry];
    while stack != []
      invariant Exploring(edges, entry, seen, stack)
      decreases ReachSet(edges, entry) - seen, |stack|
    {
      PopStarts(edges, entry, seen, stack);
      var n := stack[|stack| - 1];
      stack := stack[..|stack| - 1];
      ghost var before, left := seen, stack;
      var next := if n in adj then adj[n] else [];
      ghost var todo := Successors(edges, n);
      assert next[0..] == next;
      for i := 0 to |next|
        invariant Expanding(edges, entry, seen, stack, n, todo)
        invariant todo == Listed(next[i..])
        invariant before <= seen && (seen == before ==> stack == left)
      {
        var m := next[i];
        ListedOneLess(next, i);
        PushKeeps(edges, entry, seen, stack, n, todo, m);
        if m !in seen {
          seen := seen + {m};
          stack := stack + [m];
        }
        todo := Listed(next[i + 1..]);
      }
      assert todo == {};
      SeenGrew(edges, entry, before, seen);
    }
    ExploredAll(edges, entry, seen);
  }

  /** Blast radius and execution flow are converse: u is in the reverse search from v
      exactly when v is in the forward search from u. */
  lemma ReverseIsConverse(edges: Edges, u: Node, v: Node)
    ensures v in ReachSet(Directed(edges, false), u) <==> u in ReachSet(Directed(edges, true), v)
    ensures v in ReachSet(edges, u) <==> u in ReachSet(Directed(edges, true), v)
  {
    if Reaches(edges, u, v) {
      var p :| |p| >= 2 && WalkFromTo(edges, p, u, v);
      WalkBackwards(edges, p, u, v);
      assert |Backwards(p)| >= 2;
    }
    if Reaches(Flip(edges), v, u) {
      var p :| |p| >= 2 && WalkFromTo(Flip(edges), p, v, u);
      WalkBackwards(Flip(edges), p, v, u);
      assert Flip(Flip(edges)) == edges;
      assert |Backwards(p)| >= 2;
    }
  }

  /** The start node is in its own result only when it lies on a cycle. */
  lemma StartOnlyOnCycle(edges: Edges, start: Node)
    ensures start in ReachSet(edges, start)
       <==> exists m :: (start, m) in edges && Joined(edges, m, start)
  {
    if Reaches(edges, start, start) {
      var p :| |p| >= 2 && WalkFromTo(edges, p, start, start);
      assert (p[0], p[0 + 1]) in edges;
      var q := p[1..];
      forall i | 0 <= i < |q| - 1 ensures (q[i], q[i + 1]) in edges {
        assert (p[i + 1], p[i + 1 + 1]) in edges;
      }
      assert WalkFromTo(edges, q, p[1], start);
    }
    if m :| (start, m) in edges && Joined(edges, m, start) {
      var p :| WalkFromTo(edges, p, m, start);
      var q := [start] + p;
      forall i | 0 <= i < |q| - 1 ensures (q[i], q[i + 1]) in edges {
        if i > 0 {
          assert (p[i - 1], p[i - 1 + 1]) in edges;
        }
      }
      assert WalkFromTo(edges, q, start, start);
    }
  }

  /** More edges never lose a reachable node, and what is reachable from a reachable node is reachable. */
  lemma ReachGrows(small: Edges, big: Edges, start: Node, mid: Node)
    requires small <= big
    ensures ReachSet(small, start) <= ReachSet(big, start)
    ensures mid in ReachSet(big, start) ==> ReachSet(big, mid) <= ReachSet(big, start)
  {
    forall v | Reaches(small, start, v) ensures Reaches(big, start, v) {
      var p :| |p| >= 2 && WalkFromTo(small, p, start, v);
      assert WalkFromTo(big, p, start, v);
    }
    if Reaches(big, start, mid) {
      forall v | Reaches(big, mid, v) ensures Reaches(big, start, v) {
        var p :| |p| >= 2 && WalkFromTo(big, p, mid, v);
        assert WalkFromTo(big, p[..|p| - 1], mid, p[|p| - 2]);
        ReachesIsJoined(big, start, mid);
        JoinedTransitive(big, start, mid, p[|p| - 2]);
        assert (p[|p| - 2], p[|p| - 2 + 1]) in big;
        JoinedThenLink(big, start, p[|p| - 2], v);
      }
    }
  }
}
