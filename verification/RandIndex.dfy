/** The Rand index benchmark: the loop over pairs, its contingency-table form, and what it
    cannot see (renaming the communities of either side). */
module RandIndex {
  import opened Sums
  import Detector

  type Node = string

  /** Both sides agree about a pair when both put it together or both keep it apart. */
  ghost predicate Agree<X, Y>(x: X, x': X, y: Y, y': Y) {
    (x == x') == (y == y')
  }

  // ---- counting pairs, first element by first element, as itertools.combinations lists them -----

  /** Agreements of position i with positions j and after. */
  ghost function AgreeWith<X, Y>(xs: seq<X>, ys: seq<Y>, i: nat, j: nat): nat
    requires |xs| == |ys| && i < j <= |xs|
    decreases |xs| - j
  {
    if j == |xs| then 0
    else (if Agree(xs[i], xs[j], ys[i], ys[j]) then 1 else 0) + AgreeWith(xs, ys, i, j + 1)
  }

  /** Agreements among positions i and after. */
  ghost function AgreeFrom<X, Y>(xs: seq<X>, ys: seq<Y>, i: nat): nat
    requires |xs| == |ys| && i <= |xs|
    decreases |xs| - i
  {
    if i == |xs| then 0 else AgreeWith(xs, ys, i, i + 1) + AgreeFrom(xs, ys, i + 1)
  }

  ghost function PairsFrom(n: nat, i: nat): nat
    requires i <= n
    decreases n - i
  {
    if i == n then 0 else (n - i - 1) + PairsFrom(n, i + 1)
  }

  /** How many of the positions i and after hold v. */
  ghost function Count<T>(s: seq<T>, i: nat, v: T): nat
    requires i <= |s|
    decreases |s| - i
  {
    if i == |s| then 0 else (if s[i] == v then 1 else 0) + Count(s, i + 1, v)
  }

  /** Pairs among positions i and after that hold the same value. */
  ghost function SameFrom<T>(s: seq<T>, i: nat): nat
    requires i <= |s|
    decreases |s| - i
  {
    if i == |s| then 0 else Count(s, i + 1, s[i]) + SameFrom(s, i + 1)
  }

  ghost function Zip<X, Y>(xs: seq<X>, ys: seq<Y>): (r: seq<(X, Y)>)
    requires |xs| == |ys|
    ensures |r| == |xs| && forall i :: 0 <= i < |xs| ==> r[i] == (xs[i], ys[i])
  {
    seq(|xs|, i requires 0 <= i < |xs| => (xs[i], ys[i]))
  }

  /** Inclusion and exclusion for the pairs that start at position i. */
  lemma {:induction false} AgreeWithCounts<X, Y>(xs: seq<X>, ys: seq<Y>, i: nat, j: nat)
    requires |xs| == |ys| && i < j <= |xs|
    ensures AgreeWith(xs, ys, i, j) + Count(xs, j, xs[i]) + Count(ys, j, ys[i])
         == (|xs| - j) + 2 * Count(Zip(xs, ys), j, (xs[i], ys[i]))
    decreases |xs| - j
  {
    if j < |xs| { AgreeWithCounts(xs, ys, i, j + 1); }
  }

  lemma {:induction false} AgreeCounts<X, Y>(xs: seq<X>, ys: seq<Y>, i: nat)
    requires |xs| == |ys| && i <= |xs|
    ensures AgreeFrom(xs, ys, i) + SameFrom(xs, i) + SameFrom(ys, i)
         == PairsFrom(|xs|, i) + 2 * SameFrom(Zip(xs, ys), i)
    decreases |xs| - i
  {
    if i < |xs| {
      AgreeWithCounts(xs, ys, i, i + 1);
      AgreeCounts(xs, ys, i + 1);
    }
  }

  // ---- the contingency table ----------------------------------------------------------------

  /** n choose 2. */
  ghost function Choose2(n: nat): real { n as real * (n as real - 1.0) / 2.0 }

  /** How often each value occurs at positions i and after. */
  ghost function Tally<T>(s: seq<T>, i: nat): map<T, nat>
    requires i <= |s|
    decreases |s| - i
  {
    if i == |s| then map[]
    else
      var t := Tally(s, i + 1);
      t[s[i] := (if s[i] in t then t[s[i]] else 0) + 1]
  }

  ghost function PairsOf<T>(t: map<T, nat>): map<T, real> {
    map v | v in t :: Choose2(t[v])
  }

  lemma {:induction false} TallyCounts<T>(s: seq<T>, i: nat, v: T)
    requires i <= |s|
    ensures (if v in Tally(s, i) then Tally(s, i)[v] else 0) == Count(s, i, v)
    ensures v in Tally(s, i) <==> v in s[i..]
    decreases |s| - i
  {
    if i < |s| {
      TallyCounts(s, i + 1, v);
      assert s[i..] == [s[i]] + s[i + 1..];
    }
  }

  lemma Choose2Next(n: nat)
    ensures Choose2(n + 1) == Choose2(n) + n as real
  {
    var x := n as real;
    assert (n + 1) as real == x + 1.0;
    assert (x + 1.0) * x / 2.0 == x * (x - 1.0) / 2.0 + x;
  }

  lemma TallyOneMore<T(!new)>(t: map<T, nat>, v: T)
    ensures var c := if v in t then t[v] else 0; Total(PairsOf(t[v := c + 1])) == Total(PairsOf(t)) + c as real
  {
    var c := if v in t then t[v] else 0;
    assert PairsOf(t[v := c + 1]) == PairsOf(t)[v := Choose2(c + 1)];
    TotalUpdate(PairsOf(t), v, Choose2(c + 1));
    Choose2Next(c);
  }

  /** The pairs with equal values are those inside the classes of the values. */
  lemma {:induction false} SameIsClassPairs<T(!new)>(s: seq<T>, i: nat)
    requires i <= |s|
    ensures SameFrom(s, i) as real == Total(PairsOf(Tally(s, i)))
    decreases |s| - i
  {
    if i == |s| {
      assert PairsOf(Tally(s, i)) == map[];
    } else {
      SameIsClassPairs(s, i + 1);
      TallyCounts(s, i + 1, s[i]);
      TallyOneMore(Tally(s, i + 1), s[i]);
    }
  }

  lemma {:induction false} PairsIsChoose2(n: nat, i: nat)
    requires i <= n
    ensures PairsFrom(n, i) as real == Choose2(n - i)
    decreases n - i
  {
    if i < n {
      PairsIsChoose2(n, i + 1);
      Choose2Next(n - i - 1);
    }
  }

  /** The contingency form: all pairs, less those inside rows and columns, plus twice those
      inside cells. */
  lemma ContingencyForm<X(!new), Y(!new)>(xs: seq<X>, ys: seq<Y>)
    requires |xs| == |ys|
    ensures AgreeFrom(xs, ys, 0) as real ==
      Choose2(|xs|) - Total(PairsOf(Tally(xs, 0))) - Total(PairsOf(Tally(ys, 0))) +
      2.0 * Total(PairsOf(Tally(Zip(xs, ys), 0)))
  {
    AgreeCounts(xs, ys, 0);
    SameIsClassPairs(xs, 0);
    SameIsClassPairs(ys, 0);
    SameIsClassPairs(Zip(xs, ys), 0);
    PairsIsChoose2(|xs|, 0);
  }

  // ---- what the index means --------------------------------------------------------------------

  lemma {:induction false} AgreeWithSymmetric<X, Y>(xs: seq<X>, ys: seq<Y>, i: nat, j: nat)
    requires |xs| == |ys| && i < j <= |xs|
    ensures AgreeWith(xs, ys, i, j) == AgreeWith(ys, xs, i, j)
    decreases |xs| - j
  {
    if j < |xs| { AgreeWithSymmetric(xs, ys, i, j + 1); }
  }

  lemma {:induction false} AgreeSymmetric<X, Y>(xs: seq<X>, ys: seq<Y>, i: nat)
    requires |xs| == |ys| && i <= |xs|
    ensures AgreeFrom(xs, ys, i) == AgreeFrom(ys, xs, i)
    decreases |xs| - i
  {
    if i < |xs| {
      AgreeWithSymmetric(xs, ys, i, i + 1);
      AgreeSymmetric(xs, ys, i + 1);
    }
  }

  /** Two labellings that put the same positions together. */
  ghost predicate SameKernel<X, Y>(xs: seq<X>, ys: seq<Y>) {
    |xs| == |ys| && forall i, j :: 0 <= i < j < |xs| ==> (xs[i] == xs[j] <==> ys[i] == ys[j])
  }

  lemma {:induction false} AgreeWithRelabelled<X, Y, Z>(xs: seq<X>, ys: seq<Y>, zs: seq<Z>, i: nat, j: nat)
    requires |xs| == |ys| && SameKernel(ys, zs) && i < j <= |xs|
    ensures AgreeWith(xs, ys, i, j) == AgreeWith(xs, zs, i, j)
    decreases |xs| - j
  {
    if j < |xs| { AgreeWithRelabelled(xs, ys, zs, i, j + 1); }
  }

  /** Renaming the communities of one side changes nothing. */
  lemma {:induction false} AgreeRelabelled<X, Y, Z>(xs: seq<X>, ys: seq<Y>, zs: seq<Z>, i: nat)
    requires |xs| == |ys| && SameKernel(ys, zs) && i <= |xs|
    ensures AgreeFrom(xs, ys, i) == AgreeFrom(xs, zs, i)
    decreases |xs| - i
  {
    if i < |xs| {
      AgreeWithRelabelled(xs, ys, zs, i, i + 1);
      AgreeRelabelled(xs, ys, zs, i + 1);
    }
  }

  lemma {:induction false} AgreeWithAll<X, Y>(xs: seq<X>, ys: seq<Y>, i: nat, j: nat)
    requires |xs| == |ys| && i < j <= |xs|
    ensures AgreeWith(xs, ys, i, j) <= |xs| - j
    ensures AgreeWith(xs, ys, i, j) == |xs| - j <==> forall k :: j <= k < |xs| ==> Agree(xs[i], xs[k], ys[i], ys[k])
    decreases |xs| - j
  {
    if j < |xs| { AgreeWithAll(xs, ys, i, j + 1); }
  }

  lemma {:induction false} AgreeAll<X, Y>(xs: seq<X>, ys: seq<Y>, i: nat)
    requires |xs| == |ys| && i <= |xs|
    ensures AgreeFrom(xs, ys, i) <= PairsFrom(|xs|, i)
    ensures AgreeFrom(xs, ys, i) == PairsFrom(|xs|, i) <==>
      forall j, k :: i <= j < k < |xs| ==> Agree(xs[j], xs[k], ys[j], ys[k])
    decreases |xs| - i
  {
    if i < |xs| {
      AgreeWithAll(xs, ys, i, i + 1);
      AgreeAll(xs, ys, i + 1);
    }
  }

  /** Every pair agrees exactly when the two labellings are the same partition. */
  lemma PerfectIffSamePartition<X, Y>(xs: seq<X>, ys: seq<Y>)
    requires |xs| == |ys|
    ensures AgreeFrom(xs, ys, 0) <= PairsFrom(|xs|, 0)
    ensures AgreeFrom(xs, ys, 0) == PairsFrom(|xs|, 0) <==> SameKernel(xs, ys)
  {
    AgreeAll(xs, ys, 0);
  }

  // ---- the loop ----------------------------------------------------------------------------------

  ghost function LabelsOf(a: map<Node, int>, nodes: seq<Node>): (r: seq<int>)
    requires forall x :: x in nodes ==> x in a
    ensures |r| == |nodes| && forall i :: 0 <= i < |nodes| ==> nodes[i] in a && r[i] == a[nodes[i]]
  {
    assert forall i :: 0 <= i < |nodes| ==> nodes[i] in nodes;
    seq(|nodes|, i requires 0 <= i < |nodes| => a[nodes[i]])
  }

  /** `_rand_index`, before rounding: agreements over pairs, and 0 when there is no pair. */
  method RandScore(a: map<Node, int>, b: map<Node, int>, nodes: seq<Node>)
    returns (agree: nat, total: nat, score: real)
    requires forall x :: x in nodes ==> x in a && x in b
    ensures agree == AgreeFrom(LabelsOf(a, nodes), LabelsOf(b, nodes), 0)
    ensures total == PairsFrom(|nodes|, 0)
    ensures total == 0 ==> score == 0.0
    ensures total > 0 ==> score * total as real == agree as real && 0.0 <= score <= 1.0
    ensures total > 0 ==> (score == 1.0 <==> SameKernel(LabelsOf(a, nodes), LabelsOf(b, nodes)))
  {
    ghost var xs, ys := LabelsOf(a, nodes), LabelsOf(b, nodes);
    agree, total := 0, 0;
    for i := 0 to |nodes|
      invariant agree + AgreeFrom(xs, ys, i) == AgreeFrom(xs, ys, 0)
      invariant total + PairsFrom(|nodes|, i) == PairsFrom(|nodes|, 0)
    {
      for j := i + 1 to |nodes|
        invariant agree + AgreeWith(xs, ys, i, j) + AgreeFrom(xs, ys, i + 1) == AgreeFrom(xs, ys, 0)
        invariant total + (|nodes| - j) + PairsFrom(|nodes|, i + 1) == PairsFrom(|nodes|, 0)
      {
        total := total + 1;
        if (a[nodes[i]] == a[nodes[j]]) == (b[nodes[i]] == b[nodes[j]]) {
          agree := agree + 1;
        }
      }
    }
    PerfectIffSamePartition(xs, ys);
    score := if total > 0 then agree as real / total as real else 0.0;
    if total > 0 { RatioFacts(agree, total); }
  }

  lemma RatioFacts(agree: nat, total: nat)
    requires 0 < total && agree <= total
    ensures var score := agree as real / total as real;
            score * total as real == agree as real && 0.0 <= score <= 1.0 && (score == 1.0 <==> agree == total)
  {
  }

  /** The inner loop: one community's members. */
  method AddMembers(before: map<Node, int>, c: Detector.Entry, ghost r: map<Node, int>) returns (a: map<Node, int>)
    requires Detector.IsEntryOf(c, r)
    requires forall x :: x in before ==> x in r && before[x] == r[x]
    ensures forall x :: x in a <==> x in before || x in c.members
    ensures forall x :: x in a ==> a[x] == r[x]
  {
    a := before;
    for j := 0 to |c.members|
      invariant forall x :: x in a <==> x in before || x in c.members[..j]
      invariant forall x :: x in a ==> x in r && a[x] == r[x]
    {
      assert c.members[..j + 1] == c.members[..j] + [c.members[j]];
      assert c.members[j] in c.members;
      a := a[c.members[j] := c.community];
    }
    assert c.members[..|c.members|] == c.members;
  }

  /** `_assignment` reads the assignment back from the reported communities: what the detector
      listed for a refined partition is that partition. */
  method AssignmentOf(communities: seq<Detector.Entry>, ghost r: map<Node, int>) returns (a: map<Node, int>)
    requires Detector.Lists(communities, r, r.Values)
    ensures a == r
  {
    a := map[];
    ghost var read: set<int> := {};
    for i := 0 to |communities|
      invariant forall k :: 0 <= k < i ==> communities[k].community in read
      invariant forall x :: x in a <==> x in r && r[x] in read
      invariant forall x :: x in a ==> a[x] == r[x]
    {
      assert Detector.IsEntryOf(communities[i], r);
      a := AddMembers(a, communities[i], r);
      read := read + {communities[i].community};
    }
    forall x | x in r ensures r[x] in read {
      assert r[x] in r.Values;
    }
  }
}
