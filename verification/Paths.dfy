/** Paths over a finite directed relation, given as the set of its pairs.
    Both graph searches of the repository (the connected-component refinement and
    the call-graph reachability) are specified in these terms. */
module Paths {

  /** A walk visits its nodes in order along links; a single node is a walk. */
  ghost predicate IsWalk<T>(links: set<(T, T)>, p: seq<T>) {
    p != [] && forall i :: 0 <= i < |p| - 1 ==> (p[i], p[i + 1]) in links
  }

  ghost predicate WalkFromTo<T>(links: set<(T, T)>, p: seq<T>, u: T, v: T) {
    IsWalk(links, p) && p[0] == u && p[|p| - 1] == v
  }

  /** v is u, or lies on a walk that starts in u. */
  ghost predicate Joined<T(!new)>(links: set<(T, T)>, u: T, v: T) {
    exists p :: WalkFromTo(links, p, u, v)
  }

  /** v lies at the end of a walk of at least one link from u. */
  ghost predicate Reaches<T(!new)>(links: set<(T, T)>, u: T, v: T) {
    exists p :: |p| >= 2 && WalkFromTo(links, p, u, v)
  }

  ghost predicate Symmetric<T(!new)>(links: set<(T, T)>) {
    forall u, v :: (u, v) in links ==> (v, u) in links
  }

  ghost predicate Closed<T(!new)>(links: set<(T, T)>, s: set<T>) {
    forall u, v :: (u, v) in links && u in s ==> v in s
  }

  function Flip<T(==,!new)>(links: set<(T, T)>): (r: set<(T, T)>)
    ensures forall u, v :: (u, v) in r <==> (v, u) in links
  {
    set e | e in links :: (e.1, e.0)
  }

  ghost function Backwards<T>(p: seq<T>): (r: seq<T>)
    ensures |r| == |p|
    ensures forall i :: 0 <= i < |p| ==> r[i] == p[|p| - 1 - i]
  {
    seq(|p|, i requires 0 <= i < |p| => p[|p| - 1 - i])
  }

  lemma JoinedSelf<T(!new)>(links: set<(T, T)>, u: T)
    ensures Joined(links, u, u)
  {
    assert WalkFromTo(links, [u], u, u);
  }

  lemma LinkReaches<T(!new)>(links: set<(T, T)>, u: T, v: T)
    requires (u, v) in links
    ensures Reaches(links, u, v)
  {
    assert WalkFromTo(links, [u, v], u, v);
  }

  lemma ReachesIsJoined<T(!new)>(links: set<(T, T)>, u: T, v: T)
    ensures Joined(links, u, v) <==> u == v || Reaches(links, u, v)
  {
    if u == v {
      JoinedSelf(links, u);
    }
    if Joined(links, u, v) && u != v {
      var p :| WalkFromTo(links, p, u, v);
      assert |p| >= 2;
    }
  }

  lemma JoinedThenLink<T(!new)>(links: set<(T, T)>, u: T, v: T, w: T)
    requires Joined(links, u, v) && (v, w) in links
    ensures Joined(links, u, w) && Reaches(links, u, w)
  {
    var p :| WalkFromTo(links, p, u, v);
    assert WalkFromTo(links, p + [w], u, w);
  }

  lemma JoinedTransitive<T(!new)>(links: set<(T, T)>, u: T, v: T, w: T)
    requires Joined(links, u, v) && Joined(links, v, w)
    ensures Joined(links, u, w)
  {
    var p :| WalkFromTo(links, p, u, v);
    var q :| WalkFromTo(links, q, v, w);
    var r := p + q[1..];
    forall i | 0 <= i < |r| - 1 ensures (r[i], r[i + 1]) in links {
      if i >= |p| - 1 {
        assert r[i] == q[i - (|p| - 1)] && r[i + 1] == q[i + 1 - (|p| - 1)];
      }
    }
    assert WalkFromTo(links, r, u, w);
  }

  lemma WalkBackwards<T(!new)>(links: set<(T, T)>, p: seq<T>, u: T, v: T)
    requires WalkFromTo(links, p, u, v)
    ensures WalkFromTo(Flip(links), Backwards(p), v, u)
  {
    var r := Backwards(p);
    forall i | 0 <= i < |r| - 1 ensures (r[i], r[i + 1]) in Flip(links) {
      var k := |p| - 2 - i;
      assert (p[k], p[k + 1]) in links;
    }
  }

  lemma JoinedSymmetric<T(!new)>(links: set<(T, T)>, u: T, v: T)
    requires Symmetric(links) && Joined(links, u, v)
    ensures Joined(links, v, u)
  {
    var p :| WalkFromTo(links, p, u, v);
    WalkBackwards(links, p, u, v);
    assert WalkFromTo(links, Backwards(p), v, u);
  }

  lemma JoinedMonotone<T(!new)>(small: set<(T, T)>, big: set<(T, T)>, u: T, v: T)
    requires small <= big && Joined(small, u, v)
    ensures Joined(big, u, v)
  {
    var p :| WalkFromTo(small, p, u, v);
    assert WalkFromTo(big, p, u, v);
  }

  /** A walk never leaves a closed set. */
  lemma {:induction false} WalkStaysClosed<T(!new)>(links: set<(T, T)>, s: set<T>, p: seq<T>, i: nat)
    requires IsWalk(links, p) && Closed(links, s) && p[0] in s && i < |p|
    ensures p[i] in s
  {
    if i > 0 {
      WalkStaysClosed(links, s, p, i - 1);
      assert (p[i - 1], p[i - 1 + 1]) in links;
    }
  }

  lemma JoinedStaysClosed<T(!new)>(links: set<(T, T)>, s: set<T>, u: T, v: T)
    requires Joined(links, u, v) && Closed(links, s) && u in s
    ensures v in s
  {
    var p :| WalkFromTo(links, p, u, v);
    WalkStaysClosed(links, s, p, |p| - 1);
  }
}
