/** Reciprocal-rank fusion of the retrieval benchmark, in exact arithmetic. */
module RankFusion {
  import opened Ordering

  /** A search hit: its chunk, and the rest of what the hit carries. */
  datatype Item = Item(key: string, body: string)
  datatype Fused = Fused(item: Item, score: real)

  /** What a hit at a rank, counted from 0, adds to its chunk. */
  function Reciprocal(rank: nat): (r: real)
    ensures r > 0.0 && r * (60.0 + rank as real) == 1.0
  {
    1.0 / (60.0 + rank as real)
  }

  lemma EarlierIsWorthMore(i: nat, j: nat)
    requires i < j
    ensures Reciprocal(i) > Reciprocal(j)
  {
    var x, y := 60.0 + i as real, 60.0 + j as real;
    assert Reciprocal(i) * x == 1.0 && Reciprocal(j) * y == 1.0;
    Shrinks(Reciprocal(i), x, Reciprocal(j), y);
  }

  lemma Shrinks(p: real, x: real, q: real, y: real)
    requires 0.0 < x < y && q > 0.0 && p * x == 1.0 && q * y == 1.0
    ensures p > q
  {
    assert q * y - p * x == q * (y - x) + (q - p) * x;
    PositiveProduct(q, y - x);
    NegativeFactor(q - p, x);
  }

  lemma PositiveProduct(x: real, y: real)
    requires x > 0.0 && y > 0.0
    ensures x * y > 0.0
  {
  }

  lemma NegativeFactor(d: real, x: real)
    requires x > 0.0 && d * x < 0.0
    ensures d < 0.0
  {
  }

  // ---- the score of a key -------------------------------------------------------------

  /** The reciprocals of the ranks below n at which the key stands. */
  ghost function ScoreIn(list: seq<Item>, n: nat, key: string): real
    requires n <= |list|
  {
    if n == 0 then 0.0
    else ScoreIn(list, n - 1, key) + (if list[n - 1].key == key then Reciprocal(n - 1) else 0.0)
  }

  /** The sum over the first m lists. */
  ghost function ScoreOver(lists: seq<seq<Item>>, m: nat, key: string): real
    requires m <= |lists|
  {
    if m == 0 then 0.0 else ScoreOver(lists, m - 1, key) + ScoreIn(lists[m - 1], |lists[m - 1]|, key)
  }

  ghost function ScoreOf(lists: seq<seq<Item>>, key: string): real { ScoreOver(lists, |lists|, key) }

  ghost predicate OccursIn(list: seq<Item>, key: string) {
    exists r :: 0 <= r < |list| && list[r].key == key
  }

  lemma {:induction false} ScoreInSigns(list: seq<Item>, n: nat, key: string)
    requires n <= |list|
    ensures ScoreIn(list, n, key) >= 0.0
    ensures forall r :: 0 <= r < n && list[r].key == key ==> ScoreIn(list, n, key) >= Reciprocal(r)
    ensures (forall r :: 0 <= r < n ==> list[r].key != key) ==> ScoreIn(list, n, key) == 0.0
  {
    if n > 0 { ScoreInSigns(list, n - 1, key); }
  }

  /** A key that stands at only one rank scores that rank's reciprocal. */
  lemma {:induction false} ScoreInOnce(list: seq<Item>, n: nat, key: string, r: nat)
    requires r < n <= |list| && list[r].key == key
    requires forall k :: 0 <= k < n && list[k].key == key ==> k == r
    ensures ScoreIn(list, n, key) == Reciprocal(r)
  {
    if n - 1 == r {
      ScoreInSigns(list, n - 1, key);
    } else {
      ScoreInOnce(list, n - 1, key, r);
    }
  }

  // ---- fusion respects agreement ----------------------------------------------------------

  /** In every list where b stands it stands once, and a stands somewhere above it. */
  ghost predicate AlwaysAbove(lists: seq<seq<Item>>, a: string, b: string) {
    forall l, r :: 0 <= l < |lists| && 0 <= r < |lists[l]| && lists[l][r].key == b ==>
      (forall k :: 0 <= k < |lists[l]| && lists[l][k].key == b ==> k == r) &&
      exists i :: 0 <= i < r && lists[l][i].key == a
  }

  lemma AboveInOneList(lists: seq<seq<Item>>, a: string, b: string, l: nat)
    requires AlwaysAbove(lists, a, b) && l < |lists|
    ensures ScoreIn(lists[l], |lists[l]|, a) >= ScoreIn(lists[l], |lists[l]|, b)
    ensures OccursIn(lists[l], b) ==> ScoreIn(lists[l], |lists[l]|, a) > ScoreIn(lists[l], |lists[l]|, b)
  {
    var list := lists[l];
    ScoreInSigns(list, |list|, a);
    ScoreInSigns(list, |list|, b);
    if r :| 0 <= r < |list| && list[r].key == b {
      var i :| 0 <= i < r && list[i].key == a;
      ScoreInOnce(list, |list|, b, r);
      EarlierIsWorthMore(i, r);
    }
  }

  lemma {:induction false} AboveOverLists(lists: seq<seq<Item>>, a: string, b: string, m: nat)
    requires AlwaysAbove(lists, a, b) && m <= |lists|
    ensures ScoreOver(lists, m, a) >= ScoreOver(lists, m, b)
    ensures (exists l :: 0 <= l < m && OccursIn(lists[l], b)) ==> ScoreOver(lists, m, a) > ScoreOver(lists, m, b)
  {
    if m > 0 {
      AboveOverLists(lists, a, b, m - 1);
      AboveInOneList(lists, a, b, m - 1);
    }
  }

  /** The order of the lists does not matter. */
  lemma {:induction false} ScoreWithout(lists: seq<seq<Item>>, m: nat, i: nat, key: string)
    requires i < m <= |lists|
    ensures ScoreOver(lists, m, key)
         == ScoreIn(lists[i], |lists[i]|, key) + ScoreOver(lists[..i] + lists[i + 1..], m - 1, key)
  {
    var rest := lists[..i] + lists[i + 1..];
    if m - 1 == i {
      ScorePrefix(lists, rest, i, key);
    } else {
      ScoreWithout(lists, m - 1, i, key);
      assert rest[m - 2] == lists[m - 1];
    }
  }

  lemma {:induction false} ScorePrefix(lists: seq<seq<Item>>, other: seq<seq<Item>>, m: nat, key: string)
    requires m <= |lists| && m <= |other| && forall i :: 0 <= i < m ==> lists[i] == other[i]
    ensures ScoreOver(lists, m, key) == ScoreOver(other, m, key)
  {
    if m > 0 { ScorePrefix(lists, other, m - 1, key); }
  }

  lemma {:induction false} ScoreIgnoresListOrder(lists: seq<seq<Item>>, other: seq<seq<Item>>, key: string)
    requires multiset(lists) == multiset(other)
    ensures ScoreOf(lists, key) == ScoreOf(other, key)
    decreases |lists|
  {
    assert |multiset(lists)| == |lists| && |multiset(other)| == |other|;
    if lists != [] {
      var n := |lists| - 1;
      SameMembers(lists, other);
      assert lists[n] in other;
      var i :| 0 <= i < |other| && other[i] == lists[n];
      Removed(lists, other, i);
      ScoreIgnoresListOrder(lists[..n], other[..i] + other[i + 1..], key);
      ScorePrefix(lists, lists[..n], n, key);
      ScoreWithout(other, |other|, i, key);
    }
  }

  // ---- the dictionary ------------------------------------------------------------------------

  /** Hit (l, r) comes before position (m, n) in reading order. */
  ghost predicate Earlier(l: nat, r: nat, m: nat, n: nat) { l < m || (l == m && r < n) }

  ghost predicate KeyAt(lists: seq<seq<Item>>, l: nat, r: nat, key: string) {
    l < |lists| && r < |lists[l]| && lists[l][r].key == key
  }

  /** The key's first hit, in reading order. */
  ghost predicate FirstAt(lists: seq<seq<Item>>, l: nat, r: nat, key: string) {
    KeyAt(lists, l, r, key) && forall l': nat, r': nat :: KeyAt(lists, l', r', key) ==> !Earlier(l', r', l, r)
  }

  lemma FirstUnique(lists: seq<seq<Item>>, l: nat, r: nat, l': nat, r': nat, key: string)
    requires FirstAt(lists, l, r, key) && FirstAt(lists, l', r', key)
    ensures l == l' && r == r'
  {
    assert !Earlier(l, r, l', r') && !Earlier(l', r', l, r);
  }

  /** A position between two hits, or the end. */
  ghost predicate Position(lists: seq<seq<Item>>, m: nat, n: nat) {
    if m < |lists| then n <= |lists[m]| else m == |lists| && n == 0
  }

  ghost predicate SeenBefore(lists: seq<seq<Item>>, m: nat, n: nat, key: string) {
    exists l: nat, r: nat :: KeyAt(lists, l, r, key) && Earlier(l, r, m, n)
  }

  /** What the hits before position (m, n) add up to. */
  ghost function PartialScore(lists: seq<seq<Item>>, m: nat, n: nat, key: string): real
    requires Position(lists, m, n)
  {
    ScoreOver(lists, m, key) + (if m < |lists| then ScoreIn(lists[m], n, key) else 0.0)
  }

  /** The entry of a key: its first hit, with the score so far. */
  ghost predicate EntryOf(lists: seq<seq<Item>>, m: nat, n: nat, key: string, f: Fused)
    requires Position(lists, m, n)
  {
    f.score == PartialScore(lists, m, n, key) &&
    exists l: nat, r: nat :: FirstAt(lists, l, r, key) && f.item == lists[l][r] && Earlier(l, r, m, n)
  }

  ghost predicate AppearsBefore(lists: seq<seq<Item>>, a: string, b: string) {
    forall l: nat, r: nat, l': nat, r': nat :: FirstAt(lists, l, r, a) && FirstAt(lists, l', r', b) ==>
      Earlier(l, r, l', r')
  }

  /** Keys stand in the order in which they first appeared. */
  ghost predicate ByFirstAppearance(lists: seq<seq<Item>>, order: seq<string>) {
    forall i, j :: 0 <= i < j < |order| ==> AppearsBefore(lists, order[i], order[j])
  }

  /** The dictionary after the hits before position (m, n). */
  ghost predicate Table(lists: seq<seq<Item>>, m: nat, n: nat, order: seq<string>, fused: map<string, Fused>)
    requires Position(lists, m, n)
  {
    Distinct(order) && ByFirstAppearance(lists, order) &&
    (forall k :: k in order <==> k in fused) &&
    (forall k :: k in fused <==> SeenBefore(lists, m, n, k)) &&
    forall k :: k in fused ==> EntryOf(lists, m, n, k, fused[k])
  }

  lemma SeenNext(lists: seq<seq<Item>>, m: nat, n: nat, key: string)
    requires m < |lists| && n < |lists[m]|
    ensures SeenBefore(lists, m, n + 1, key) <==> SeenBefore(lists, m, n, key) || lists[m][n].key == key
  {
    if lists[m][n].key == key {
      assert KeyAt(lists, m, n, key) && Earlier(m, n, m, n + 1);
    }
    if l: nat, r: nat :| KeyAt(lists, l, r, key) && Earlier(l, r, m, n) {
      assert Earlier(l, r, m, n + 1);
    }
    if l: nat, r: nat :| KeyAt(lists, l, r, key) && Earlier(l, r, m, n + 1) {
      assert Earlier(l, r, m, n) || (l == m && r == n);
    }
  }

  lemma EntryKept(lists: seq<seq<Item>>, m: nat, n: nat, key: string, f: Fused)
    requires m < |lists| && n < |lists[m]| && EntryOf(lists, m, n, key, f)
    ensures lists[m][n].key != key ==> EntryOf(lists, m, n + 1, key, f)
    ensures lists[m][n].key == key ==> EntryOf(lists, m, n + 1, key, f.(score := f.score + Reciprocal(n)))
  {
    var l: nat, r: nat :| FirstAt(lists, l, r, key) && f.item == lists[l][r] && Earlier(l, r, m, n);
    assert Earlier(l, r, m, n + 1);
  }

  lemma {:induction false} UnseenScoresZero(lists: seq<seq<Item>>, m: nat, n: nat, key: string)
    requires Position(lists, m, n) && !SeenBefore(lists, m, n, key)
    ensures PartialScore(lists, m, n, key) == 0.0
    decreases m
  {
    if m < |lists| {
      forall r | 0 <= r < n ensures lists[m][r].key != key {
        assert KeyAt(lists, m, r, key) ==> Earlier(m, r, m, n);
      }
      ScoreInSigns(lists[m], n, key);
    }
    if m > 0 {
      forall l: nat, r: nat | KeyAt(lists, l, r, key) ensures !Earlier(l, r, m - 1, |lists[m - 1]|) {
        assert !Earlier(l, r, m, n);
      }
      UnseenScoresZero(lists, m - 1, |lists[m - 1]|, key);
    }
  }

  lemma NewEntry(lists: seq<seq<Item>>, m: nat, n: nat, key: string)
    requires m < |lists| && n < |lists[m]| && lists[m][n].key == key && !SeenBefore(lists, m, n, key)
    ensures FirstAt(lists, m, n, key)
    ensures EntryOf(lists, m, n + 1, key, Fused(lists[m][n], Reciprocal(n)))
  {
    UnseenScoresZero(lists, m, n, key);
    assert KeyAt(lists, m, n, key) && Earlier(m, n, m, n + 1);
    assert FirstAt(lists, m, n, key);
  }

  lemma OrderGrows(lists: seq<seq<Item>>, m: nat, n: nat, order: seq<string>, key: string)
    requires ByFirstAppearance(lists, order) && FirstAt(lists, m, n, key)
    requires forall k :: k in order ==> SeenBefore(lists, m, n, k)
    ensures ByFirstAppearance(lists, order + [key])
  {
    forall k | k in order ensures AppearsBefore(lists, k, key) {
      forall l: nat, r: nat, l': nat, r': nat | FirstAt(lists, l, r, k) && FirstAt(lists, l', r', key)
        ensures Earlier(l, r, l', r')
      {
        FirstUnique(lists, l', r', m, n, key);
        var x: nat, y: nat :| KeyAt(lists, x, y, k) && Earlier(x, y, m, n);
        assert !Earlier(x, y, l, r);
      }
    }
  }

  /** A hit of a known key: its entry gains a reciprocal. */
  lemma TableUpdates(lists: seq<seq<Item>>, m: nat, n: nat, order: seq<string>, fused: map<string, Fused>, f: Fused)
    requires m < |lists| && n < |lists[m]| && Table(lists, m, n, order, fused) && lists[m][n].key in fused
    requires f == fused[lists[m][n].key].(score := fused[lists[m][n].key].score + Reciprocal(n))
    ensures Table(lists, m, n + 1, order, fused[lists[m][n].key := f])
  {
    var key := lists[m][n].key;
    forall k ensures SeenBefore(lists, m, n + 1, k) <==> SeenBefore(lists, m, n, k) || k == key {
      SeenNext(lists, m, n, k);
    }
    forall k | k in fused
      ensures k != key ==> EntryOf(lists, m, n + 1, k, fused[k])
      ensures k == key ==> EntryOf(lists, m, n + 1, k, f)
    {
      EntryKept(lists, m, n, k, fused[k]);
    }
  }

  /** A hit of a new key: the hit becomes its entry. */
  lemma TableInserts(lists: seq<seq<Item>>, m: nat, n: nat, order: seq<string>, fused: map<string, Fused>)
    requires m < |lists| && n < |lists[m]| && Table(lists, m, n, order, fused) && lists[m][n].key !in fused
    ensures Table(lists, m, n + 1, order + [lists[m][n].key],
                  fused[lists[m][n].key := Fused(lists[m][n], Reciprocal(n))])
  {
    var key := lists[m][n].key;
    forall k ensures SeenBefore(lists, m, n + 1, k) <==> SeenBefore(lists, m, n, k) || k == key {
      SeenNext(lists, m, n, k);
    }
    forall k | k in fused ensures EntryOf(lists, m, n + 1, k, fused[k]) {
      EntryKept(lists, m, n, k, fused[k]);
    }
    NewEntry(lists, m, n, key);
    OrderGrows(lists, m, n, order, key);
  }

  lemma SeenInNextList(lists: seq<seq<Item>>, m: nat, key: string)
    requires m < |lists|
    ensures SeenBefore(lists, m + 1, 0, key) <==> SeenBefore(lists, m, |lists[m]|, key)
  {
    if l: nat, r: nat :| KeyAt(lists, l, r, key) && Earlier(l, r, m + 1, 0) {
      assert Earlier(l, r, m, |lists[m]|);
    }
    if l: nat, r: nat :| KeyAt(lists, l, r, key) && Earlier(l, r, m, |lists[m]|) {
      assert Earlier(l, r, m + 1, 0);
    }
  }

  lemma EntryInNextList(lists: seq<seq<Item>>, m: nat, key: string, f: Fused)
    requires m < |lists| && EntryOf(lists, m, |lists[m]|, key, f)
    ensures EntryOf(lists, m + 1, 0, key, f)
  {
    var l: nat, r: nat :| FirstAt(lists, l, r, key) && f.item == lists[l][r] && Earlier(l, r, m, |lists[m]|);
    assert Earlier(l, r, m + 1, 0);
  }

  lemma NextList(lists: seq<seq<Item>>, m: nat, order: seq<string>, fused: map<string, Fused>)
    requires m < |lists| && Table(lists, m, |lists[m]|, order, fused)
    ensures Table(lists, m + 1, 0, order, fused)
  {
    forall k ensures SeenBefore(lists, m + 1, 0, k) <==> SeenBefore(lists, m, |lists[m]|, k) {
      SeenInNextList(lists, m, k);
    }
    forall k | k in fused ensures EntryOf(lists, m + 1, 0, k, fused[k]) {
      EntryInNextList(lists, m, k, fused[k]);
    }
  }

  // ---- the fusion ------------------------------------------------------------------------------

  /** Higher scores come first. */
  predicate ScoresHigher(x: Fused, y: Fused) { x.score > y.score }

  method AddHit(lists: seq<seq<Item>>, m: nat, n: nat, order0: seq<string>, fused0: map<string, Fused>)
    returns (order: seq<string>, fused: map<string, Fused>)
    requires m < |lists| && n < |lists[m]| && Table(lists, m, n, order0, fused0)
    ensures Table(lists, m, n + 1, order, fused)
  {
    order, fused := order0, fused0;
    var item := lists[m][n];
    var rrf := Reciprocal(n);
    if item.key in fused {
      var f := fused[item.key].(score := fused[item.key].score + rrf);
      TableUpdates(lists, m, n, order, fused, f);
      fused := fused[item.key := f];
    } else {
      TableInserts(lists, m, n, order, fused);
      order := order + [item.key];
      fused := fused[item.key := Fused(item, rrf)];
    }
  }

  /** One list: every hit in rank order. */
  method AccumulateList(lists: seq<seq<Item>>, m: nat, order0: seq<string>, fused0: map<string, Fused>)
    returns (order: seq<string>, fused: map<string, Fused>)
    requires m < |lists| && Table(lists, m, 0, order0, fused0)
    ensures Table(lists, m + 1, 0, order, fused)
  {
    order, fused := order0, fused0;
    for n := 0 to |lists[m]|
      invariant Table(lists, m, n, order, fused)
    {
      order, fused := AddHit(lists, m, n, order, fused);
    }
    NextList(lists, m, order, fused);
  }

  /** `fused.values()`: the entries in the order their keys were added. */
  function Values(order: seq<string>, fused: map<string, Fused>): (r: seq<Fused>)
    requires forall k :: k in order ==> k in fused
    ensures |r| == |order| && forall i :: 0 <= i < |order| ==> order[i] in fused && r[i] == fused[order[i]]
  {
    assert forall i :: 0 <= i < |order| ==> order[i] in order;
    seq(|order|, i requires 0 <= i < |order| => fused[order[i]])
  }

  /** What the fusion promises: every key once, with its first hit and the sum of its
      reciprocals, in descending order of score, ties in order of first appearance. */
  ghost predicate Fuses(lists: seq<seq<Item>>, r: seq<Fused>) {
    (forall i :: 0 <= i < |r| ==> EntryOf(lists, |lists|, 0, r[i].item.key, r[i])) &&
    (forall i, j :: 0 <= i < j < |r| ==> r[i].item.key != r[j].item.key) &&
    (forall l: nat, n: nat :: l < |lists| && n < |lists[l]| ==> HasKey(r, lists[l][n].key)) &&
    (forall i, j :: 0 <= i < j < |r| ==> r[i].score >= r[j].score) &&
    (forall i, j :: 0 <= i < j < |r| && r[i].score == r[j].score ==> AppearsBefore(lists, r[i].item.key, r[j].item.key))
  }

  ghost predicate HasKey(r: seq<Fused>, key: string) {
    exists i :: 0 <= i < |r| && r[i].item.key == key
  }

  lemma HigherIsStrictWeak()
    ensures StrictWeak(ScoresHigher)
  {
  }

  lemma EntryKey(lists: seq<seq<Item>>, m: nat, n: nat, key: string, f: Fused)
    requires Position(lists, m, n) && EntryOf(lists, m, n, key, f)
    ensures f.item.key == key
  {
  }

  /** The values before sorting: one entry a key, keys in order of first appearance. */
  lemma ValuesOfTable(lists: seq<seq<Item>>, order: seq<string>, fused: map<string, Fused>)
    requires Table(lists, |lists|, 0, order, fused)
    ensures var vs := Values(order, fused);
            Distinct(vs) && forall i :: 0 <= i < |vs| ==>
              vs[i].item.key == order[i] && EntryOf(lists, |lists|, 0, order[i], vs[i])
  {
    forall i | 0 <= i < |order| ensures fused[order[i]].item.key == order[i] {
      EntryKey(lists, |lists|, 0, order[i], fused[order[i]]);
    }
  }

  lemma SortedPair(lists: seq<seq<Item>>, order: seq<string>, vs: seq<Fused>, r: seq<Fused>, i: nat, j: nat)
    requires |vs| == |order| && Distinct(order) && ByFirstAppearance(lists, order)
    requires forall x :: 0 <= x < |vs| ==> vs[x].item.key == order[x]
    requires Ordered(ScoresHigher, r) && Distinct(r) && Stable(ScoresHigher, vs, r) && i < j < |r|
    ensures r[i].item.key != r[j].item.key && r[i].score >= r[j].score
    ensures r[i].score == r[j].score ==> AppearsBefore(lists, r[i].item.key, r[j].item.key)
  {
    assert r[i] in vs && r[j] in vs;
    var x, y := IndexOf(vs, r[i]), IndexOf(vs, r[j]);
    assert r[i] == vs[x] && r[j] == vs[y];
    assert x != y && order[x] != order[y];
    assert !ScoresHigher(r[j], r[i]);
    if r[i].score == r[j].score {
      assert Tied(ScoresHigher, r[i], r[j]);
      assert AppearsBefore(lists, order[x], order[y]);
    }
  }

  lemma SortedFuses(lists: seq<seq<Item>>, order: seq<string>, fused: map<string, Fused>)
    requires Table(lists, |lists|, 0, order, fused)
    ensures Fuses(lists, Sorted(ScoresHigher, Values(order, fused)))
  {
    var vs := Values(order, fused);
    var r := Sorted(ScoresHigher, vs);
    ValuesOfTable(lists, order, fused);
    HigherIsStrictWeak();
    SortedIsOrdered(ScoresHigher, vs);
    SameMembers(vs, r);
    SamePermutationDistinct(vs, r);
    SortedIsStable(ScoresHigher, vs);
    forall i | 0 <= i < |r| ensures EntryOf(lists, |lists|, 0, r[i].item.key, r[i]) {
      assert r[i] in vs;
    }
    forall i, j | 0 <= i < j < |r|
      ensures r[i].item.key != r[j].item.key && r[i].score >= r[j].score
      ensures r[i].score == r[j].score ==> AppearsBefore(lists, r[i].item.key, r[j].item.key)
    {
      SortedPair(lists, order, vs, r, i, j);
    }
    forall l: nat, n: nat | l < |lists| && n < |lists[l]| ensures HasKey(r, lists[l][n].key) {
      KeyIsListed(lists, order, fused, r, l, n);
    }
  }

  lemma KeyIsListed(lists: seq<seq<Item>>, order: seq<string>, fused: map<string, Fused>, r: seq<Fused>, l: nat, n: nat)
    requires Table(lists, |lists|, 0, order, fused) && l < |lists| && n < |lists[l]|
    requires forall f :: f in Values(order, fused) ==> f in r
    ensures HasKey(r, lists[l][n].key)
  {
    var key := lists[l][n].key;
    assert KeyAt(lists, l, n, key) && Earlier(l, n, |lists|, 0);
    assert key in order;
    var x :| 0 <= x < |order| && order[x] == key;
    EntryKey(lists, |lists|, 0, key, fused[key]);
    assert Values(order, fused)[x] in r;
    var i :| 0 <= i < |r| && r[i] == fused[key];
  }

  /** `_rrf_fuse`. */
  method RrfFuse(lists: seq<seq<Item>>) returns (r: seq<Fused>)
    ensures Fuses(lists, r)
  {
    var order: seq<string>, fused: map<string, Fused> := [], map[];
    for m := 0 to |lists|
      invariant Table(lists, m, 0, order, fused)
    {
      order, fused := AccumulateList(lists, m, order, fused);
    }
    SortedFuses(lists, order, fused);
    r := Sorted(ScoresHigher, Values(order, fused));
  }

  /** If a stands above b wherever b stands, a comes before b in the fusion. */
  lemma FusionRespectsAgreement(lists: seq<seq<Item>>, r: seq<Fused>, i: nat, j: nat)
    requires Fuses(lists, r) && i < |r| && j < |r|
    requires AlwaysAbove(lists, r[i].item.key, r[j].item.key)
    ensures i < j
  {
    var a, b := r[i].item.key, r[j].item.key;
    assert EntryOf(lists, |lists|, 0, a, r[i]) && EntryOf(lists, |lists|, 0, b, r[j]);
    var l: nat, n: nat :| FirstAt(lists, l, n, b) && r[j].item == lists[l][n] && Earlier(l, n, |lists|, 0);
    assert OccursIn(lists[l], b);
    AboveOverLists(lists, a, b, |lists|);
  }
}
