/** The scene benchmark pairs known cuts with detected keyframes: each cut, in order, takes
    the first unused detection within the tolerance. No pairing of cuts with detections is
    larger: its cuts lie too far apart to compete for a detection. For cuts that do compete,
    time order is enough. */
module SceneMatching {

  /** Which detection each matched cut took, by position. */
  type Matching = map<nat, nat>

  predicate Near(x: real, y: real, tol: real): (near: bool)
    ensures near <==> -tol <= x - y <= tol
  {
    (if x - y >= 0.0 then x - y else y - x) <= tol
  }

  ghost predicate Ascending(s: seq<real>) {
    forall i, j :: 0 <= i < j < |s| ==> s[i] <= s[j]
  }

  /** Pairs within the tolerance, no detection used twice. */
  ghost predicate IsMatching(m: Matching, cuts: seq<real>, detected: seq<real>, tol: real) {
    (forall i :: i in m ==> i < |cuts| && m[i] < |detected| && Near(detected[m[i]], cuts[i], tol)) && Injective(m)
  }

  ghost predicate Injective(m: Matching) {
    forall i, k :: i in m && k in m && m[i] == m[k] ==> i == k
  }

  /** Detection j is taken by one of the cuts before n. */
  ghost predicate Taken(m: Matching, n: nat, j: nat) {
    exists k :: k in m && k < n && m[k] == j
  }

  /** Cut i took the first detection still free for it, or there was none. */
  ghost predicate FirstFree(m: Matching, cuts: seq<real>, detected: seq<real>, tol: real, i: nat)
    requires i < |cuts|
  {
    if i in m then
      m[i] < |detected| && Near(detected[m[i]], cuts[i], tol) && !Taken(m, i, m[i]) &&
      forall j :: 0 <= j < m[i] && Near(detected[j], cuts[i], tol) ==> Taken(m, i, j)
    else
      forall j :: 0 <= j < |detected| && Near(detected[j], cuts[i], tol) ==> Taken(m, i, j)
  }

  /** The greedy choices for the first n cuts. */
  ghost predicate Greedy(m: Matching, cuts: seq<real>, detected: seq<real>, tol: real, n: nat) {
    n <= |cuts| && (forall i :: i in m ==> i < n) &&
    forall i :: 0 <= i < n ==> FirstFree(m, cuts, detected, tol, i)
  }

  ghost predicate AgreesUpTo(m: Matching, g: Matching, n: nat) {
    forall i :: 0 <= i < n ==> (i in m <==> i in g) && (i in g ==> m[i] == g[i])
  }

  lemma TakenBy(m: Matching, n: nat, k: nat)
    requires k in m && k < n
    ensures Taken(m, n, m[k])
  {
  }

  lemma GreedyIsMatching(m: Matching, cuts: seq<real>, detected: seq<real>, tol: real, n: nat)
    requires Greedy(m, cuts, detected, tol, n)
    ensures IsMatching(m, cuts, detected, tol)
  {
    forall i | i in m ensures FirstFree(m, cuts, detected, tol, i) {
    }
    forall i, k | i in m && k in m && m[i] == m[k] ensures i == k {
      if i < k { TakenBy(m, k, i); }
      if k < i { TakenBy(m, i, k); }
    }
  }

  /** If a later cut can be near the earlier detection, it can be near the later one that the
      earlier cut gives up: the order of cuts and detections makes the exchange possible. */
  lemma Uncross(c1: real, c2: real, d1: real, d2: real, tol: real)
    requires c1 <= c2 && d1 <= d2
    requires Near(d2, c1, tol) && Near(d1, c2, tol)
    ensures Near(d2, c2, tol)
  {
  }

  /** What a rival gives cut n was not taken by the earlier greedy cuts it agrees with. */
  lemma RivalIsFree(r: Matching, g: Matching, cuts: seq<real>, detected: seq<real>, tol: real, n: nat, k: nat)
    requires IsMatching(r, cuts, detected, tol) && AgreesUpTo(r, g, n) && k in r
    ensures Taken(g, n, r[k]) <==> k < n
  {
    if k < n {
      assert g[k] == r[k];
    }
    if Taken(g, n, r[k]) {
      var i :| i in g && i < n && g[i] == r[k];
      assert r[i] == r[k];
    }
  }

  /** Nobody else uses j: cut n simply takes it. */
  lemma TakeUnused(r: Matching, cuts: seq<real>, detected: seq<real>, tol: real, n: nat, j: nat)
    requires IsMatching(r, cuts, detected, tol) && n < |cuts| && j < |detected| && Near(detected[j], cuts[n], tol)
    requires forall k :: k in r ==> r[k] != j
    ensures IsMatching(r[n := j], cuts, detected, tol) && |r[n := j]| >= |r|
  {
    assert r[n := j].Keys == r.Keys + {n};
    if n in r { assert r.Keys + {n} == r.Keys; }
  }

  /** Cut k gives j up to cut n, which had nothing. */
  lemma TakeOver(r: Matching, cuts: seq<real>, detected: seq<real>, tol: real, n: nat, k: nat)
    requires IsMatching(r, cuts, detected, tol) && n < |cuts| && n !in r && k in r && Near(detected[r[k]], cuts[n], tol)
    ensures var r' := (r - {k})[n := r[k]]; IsMatching(r', cuts, detected, tol) && |r'| >= |r|
  {
    var r' := (r - {k})[n := r[k]];
    assert r'.Keys == r.Keys - {k} + {n};
    assert |r.Keys - {k}| == |r.Keys| - 1;
  }

  lemma SwapInjective(r: Matching, n: nat, k: nat)
    requires Injective(r) && n in r && k in r && n != k
    ensures Injective(r[n := r[k]][k := r[n]])
  {
    var r' := r[n := r[k]][k := r[n]];
    forall i, x | i in r' && x in r' && r'[i] == r'[x] ensures i == x {
      var a := if i == n then k else if i == k then n else i;
      var b := if x == n then k else if x == k then n else x;
      assert r[a] == r[b];
    }
  }

  /** Cuts n and k swap their detections. */
  lemma Swap(r: Matching, cuts: seq<real>, detected: seq<real>, tol: real, n: nat, k: nat)
    requires IsMatching(r, cuts, detected, tol) && n in r && k in r && n != k
    requires Near(detected[r[k]], cuts[n], tol) && Near(detected[r[n]], cuts[k], tol)
    ensures var r' := r[n := r[k]][k := r[n]]; IsMatching(r', cuts, detected, tol) && |r'| >= |r|
  {
    SwapInjective(r, n, k);
    assert r[n := r[k]][k := r[n]].Keys == r.Keys;
  }

  ghost predicate ChangedFrom(r: Matching, r': Matching, n: nat) {
    forall i :: i < n ==> (i in r <==> i in r') && (i in r ==> r[i] == r'[i])
  }

  lemma AgreesOneMore(r: Matching, r': Matching, g: Matching, n: nat)
    requires AgreesUpTo(r, g, n) && ChangedFrom(r, r', n) && (n in r' <==> n in g) && (n in g ==> r'[n] == g[n])
    ensures AgreesUpTo(r', g, n + 1)
  {
  }

  /** The changed rival agrees with the greedy choices one cut further and lost no pair. */
  ghost predicate Improves(r: Matching, r': Matching, g: Matching, cuts: seq<real>, detected: seq<real>, tol: real,
                           n: nat)
  {
    IsMatching(r', cuts, detected, tol) && AgreesUpTo(r', g, n + 1) && |r'| >= |r|
  }

  lemma UncrossAt(cuts: seq<real>, detected: seq<real>, tol: real, n: nat, k: nat, j: nat, j': nat)
    requires Ascending(cuts) && Ascending(detected) && n < k < |cuts| && j < j' < |detected|
    requires Near(detected[j'], cuts[n], tol) && Near(detected[j], cuts[k], tol)
    ensures Near(detected[j'], cuts[k], tol)
  {
    Uncross(cuts[n], cuts[k], detected[j], detected[j'], tol);
  }

  /** The greedy cut takes the detection of a later cut of the rival, which gets the cut's own. */
  lemma ExchangeSwap(r: Matching, g: Matching, cuts: seq<real>, detected: seq<real>, tol: real, n: nat, k: nat)
    returns (r': Matching)
    requires n != k && n in g && k in r && r[k] == g[n] && n in r
    requires IsMatching(r, cuts, detected, tol) && AgreesUpTo(r, g, n) && n < k
    requires Near(detected[r[k]], cuts[n], tol) && Near(detected[r[n]], cuts[k], tol)
    ensures Improves(r, r', g, cuts, detected, tol, n)
  {
    Swap(r, cuts, detected, tol, n, k);
    r' := r[n := r[k]][k := r[n]];
    AgreesOneMore(r, r', g, n);
  }

  lemma ExchangeTake(r: Matching, g: Matching, cuts: seq<real>, detected: seq<real>, tol: real, n: nat, k: nat)
    returns (r': Matching)
    requires n < k && n < |cuts| && n in g && k in r && r[k] == g[n] && n !in r
    requires IsMatching(r, cuts, detected, tol) && AgreesUpTo(r, g, n) && Near(detected[g[n]], cuts[n], tol)
    ensures Improves(r, r', g, cuts, detected, tol, n)
  {
    TakeOver(r, cuts, detected, tol, n, k);
    r' := (r - {k})[n := r[k]];
    AgreesOneMore(r, r', g, n);
  }

  lemma ExchangeUnused(r: Matching, g: Matching, cuts: seq<real>, detected: seq<real>, tol: real, n: nat)
    returns (r': Matching)
    requires n < |cuts| && n in g && g[n] < |detected| && Near(detected[g[n]], cuts[n], tol)
    requires IsMatching(r, cuts, detected, tol) && AgreesUpTo(r, g, n) && forall k :: k in r ==> r[k] != g[n]
    ensures Improves(r, r', g, cuts, detected, tol, n)
  {
    TakeUnused(r, cuts, detected, tol, n, g[n]);
    r' := r[n := g[n]];
    AgreesOneMore(r, r', g, n);
  }

  /** The rival's own choice for cut n, if it differs, comes later than the greedy one. */
  lemma GreedyIsEarlier(r: Matching, g: Matching, cuts: seq<real>, detected: seq<real>, tol: real, n: nat)
    requires n < |cuts| && n in r
    requires IsMatching(r, cuts, detected, tol) && AgreesUpTo(r, g, n) && FirstFree(g, cuts, detected, tol, n)
    ensures n in g && g[n] <= r[n] && g[n] < |detected| && Near(detected[g[n]], cuts[n], tol)
  {
    RivalIsFree(r, g, cuts, detected, tol, n, n);
  }

  /** Where the greedy cut and a rival disagree, the rival can be changed to agree without
      losing a pair. */
  lemma Exchange(r: Matching, g: Matching, cuts: seq<real>, detected: seq<real>, tol: real, n: nat)
    returns (r': Matching)
    requires Ascending(cuts) && Ascending(detected) && n < |cuts|
    requires IsMatching(r, cuts, detected, tol) && AgreesUpTo(r, g, n) && FirstFree(g, cuts, detected, tol, n)
    ensures Improves(r, r', g, cuts, detected, tol, n)
  {
    if n in r { GreedyIsEarlier(r, g, cuts, detected, tol, n); }
    if n !in g || (n in r && r[n] == g[n]) {
      r' := r;
      AgreesOneMore(r, r', g, n);
    } else if k :| k in r && r[k] == g[n] {
      RivalIsFree(r, g, cuts, detected, tol, n, k);
      if n in r {
        UncrossAt(cuts, detected, tol, n, k, g[n], r[n]);
        r' := ExchangeSwap(r, g, cuts, detected, tol, n, k);
      } else {
        r' := ExchangeTake(r, g, cuts, detected, tol, n, k);
      }
    } else {
      r' := ExchangeUnused(r, g, cuts, detected, tol, n);
    }
  }

  /** No matching is larger than the greedy one. */
  lemma {:induction false} GreedyBeats(r: Matching, g: Matching, cuts: seq<real>, detected: seq<real>, tol: real,
                                       n: nat)
    requires Ascending(cuts) && Ascending(detected) && Greedy(g, cuts, detected, tol, |cuts|) && n <= |cuts|
    requires IsMatching(r, cuts, detected, tol) && AgreesUpTo(r, g, n)
    ensures |r| <= |g|
    decreases |cuts| - n
  {
    if n == |cuts| {
      assert r == g;
    } else {
      var r' := Exchange(r, g, cuts, detected, tol, n);
      GreedyBeats(r', g, cuts, detected, tol, n + 1);
    }
  }

  /** The matched count is the size of a largest matching. */
  ghost predicate IsMaximum(cuts: seq<real>, detected: seq<real>, tol: real, matched: nat) {
    (exists m: Matching :: IsMatching(m, cuts, detected, tol) && |m| == matched) &&
    forall m: Matching :: IsMatching(m, cuts, detected, tol) ==> |m| <= matched
  }

  /** No detection can be near two cuts. */
  ghost predicate Spread(cuts: seq<real>, tol: real) {
    forall i, j :: 0 <= i < j < |cuts| ==> cuts[j] - cuts[i] > 2.0 * tol
  }

  lemma NearOneCut(cuts: seq<real>, tol: real, x: real, i: nat, j: nat)
    requires Spread(cuts, tol) && i < |cuts| && j < |cuts| && Near(x, cuts[i], tol) && Near(x, cuts[j], tol)
    ensures i == j
  {
    assert -2.0 * tol <= cuts[j] - cuts[i] <= 2.0 * tol;
  }

  /** Whoever can be matched is matched. */
  lemma SpreadTakesAll(g: Matching, cuts: seq<real>, detected: seq<real>, tol: real, i: nat, j: nat)
    requires Spread(cuts, tol) && Greedy(g, cuts, detected, tol, |cuts|)
    requires i < |cuts| && j < |detected| && Near(detected[j], cuts[i], tol)
    ensures i in g
  {
    assert FirstFree(g, cuts, detected, tol, i);
    if i !in g {
      var k :| k in g && k < i && g[k] == j;
      assert FirstFree(g, cuts, detected, tol, k);
      NearOneCut(cuts, tol, detected[j], i, k);
    }
  }

  /** For cuts that lie apart the greedy matching is a largest one, in whatever order the
      detections come. */
  lemma SpreadIsMaximum(g: Matching, cuts: seq<real>, detected: seq<real>, tol: real)
    requires Spread(cuts, tol) && Greedy(g, cuts, detected, tol, |cuts|)
    ensures IsMaximum(cuts, detected, tol, |g|)
  {
    GreedyIsMatching(g, cuts, detected, tol, |cuts|);
    forall m: Matching | IsMatching(m, cuts, detected, tol) ensures |m| <= |g| {
      forall i | i in m ensures i in g { SpreadTakesAll(g, cuts, detected, tol, i, m[i]); }
      MoreKeys(m, g);
    }
  }

  lemma MoreKeys(m: Matching, g: Matching)
    requires forall i :: i in m ==> i in g
    ensures |m| <= |g|
  {
    assert m.Keys <= g.Keys;
    assert g.Keys == m.Keys + (g.Keys - m.Keys);
    assert |m| == |m.Keys| && |g| == |g.Keys|;
  }

  /** `cuts`: one at the start of each scene. */
  const SCENE_SECONDS := 1.5
  const TOLERANCE := 0.6

  function SceneCuts(scenes: nat): (cuts: seq<real>)
    ensures |cuts| == scenes && forall i :: 0 <= i < scenes ==> cuts[i] == i as real * 1.5
  {
    seq(scenes, i requires 0 <= i < scenes => i as real * SCENE_SECONDS)
  }

  /** The benchmark's own cuts lie apart, however many scenes there are, so its count is that of
      a largest matching whatever the detections are. */
  lemma SceneCutsAreSpread(scenes: nat)
    ensures Spread(SceneCuts(scenes), TOLERANCE)
  {
    forall i, j | 0 <= i < j < scenes ensures SceneCuts(scenes)[j] - SceneCuts(scenes)[i] > 2.0 * TOLERANCE {
      assert j as real - i as real >= 1.0;
    }
  }

  /** The cases in which the order of the loop cannot cost a match: cuts apart, or cuts and
      detections both in time order. */
  ghost predicate Uncontested(cuts: seq<real>, detected: seq<real>, tol: real) {
    Spread(cuts, tol) || (Ascending(cuts) && Ascending(detected))
  }

  lemma GreedyIsMaximum(g: Matching, cuts: seq<real>, detected: seq<real>, tol: real)
    requires Uncontested(cuts, detected, tol) && Greedy(g, cuts, detected, tol, |cuts|)
    ensures IsMaximum(cuts, detected, tol, |g|)
  {
    if Spread(cuts, tol) {
      SpreadIsMaximum(g, cuts, detected, tol);
    } else {
      GreedyIsMatching(g, cuts, detected, tol, |cuts|);
      forall m: Matching | IsMatching(m, cuts, detected, tol) ensures |m| <= |g| {
        GreedyBeats(m, g, cuts, detected, tol, 0);
      }
    }
  }

  /** The inner loop: the first unused detection near the cut, or the length of the list. */
  method FirstUnused(c: real, detected: seq<real>, tol: real, used: set<nat>) returns (j: nat)
    ensures j <= |detected|
    ensures j < |detected| ==> j !in used && Near(detected[j], c, tol)
    ensures forall k :: 0 <= k < j && Near(detected[k], c, tol) ==> k in used
  {
    for k := 0 to |detected|
      invariant forall i :: 0 <= i < k && Near(detected[i], c, tol) ==> i in used
    {
      if k !in used && Near(detected[k], c, tol) {
        return k;
      }
    }
    return |detected|;
  }

  /** The matching loop of `measure_scene_and_ocr`. For cuts that lie apart, or lists in time
      order, it counts a largest matching; for any lists it counts a matching, so it never
      exceeds either. */
  method MatchScenes(cuts: seq<real>, detected: seq<real>, tol: real)
    returns (matched: nat, used: set<nat>, ghost m: Matching)
    ensures Greedy(m, cuts, detected, tol, |cuts|) && IsMatching(m, cuts, detected, tol)
    ensures matched == |m| == |used| && matched <= |cuts| && matched <= |detected|
    ensures forall j :: j in used <==> Taken(m, |cuts|, j)
    ensures Uncontested(cuts, detected, tol) ==> IsMaximum(cuts, detected, tol, matched)
  {
    matched, used, m := 0, {}, map[];
    for i := 0 to |cuts|
      invariant Greedy(m, cuts, detected, tol, i)
      invariant forall j :: j in used <==> Taken(m, i, j)
      invariant matched == |m| == |used| <= i
      invariant forall j :: j in used ==> j < |detected|
    {
      var j := FirstUnused(cuts[i], detected, tol, used);
      GreedyStep(m, cuts, detected, tol, i, j);
      if j < |detected| {
        used := used + {j};
        matched := matched + 1;
        m := m[i := j];
      }
    }
    GreedyIsMatching(m, cuts, detected, tol, |cuts|);
    BelowBound(used, |detected|);
    if Uncontested(cuts, detected, tol) {
      GreedyIsMaximum(m, cuts, detected, tol);
    }
  }

  lemma {:induction false} BelowBound(s: set<nat>, n: nat)
    requires forall j :: j in s ==> j < n
    ensures |s| <= n
  {
    if n == 0 {
      assert s == {};
    } else {
      BelowBound(s - {n - 1}, n - 1);
    }
  }

  lemma TakenKept(m: Matching, i: nat, j: nat, n: nat, k: nat)
    requires i !in m && n <= i
    ensures Taken(m[i := j], n, k) <==> Taken(m, n, k)
  {
    var m' := m[i := j];
    if Taken(m', n, k) {
      var x :| x in m' && x < n && m'[x] == k;
      assert x in m && m[x] == k;
    }
    if Taken(m, n, k) {
      var x :| x in m && x < n && m[x] == k;
      assert x in m' && m'[x] == k;
    }
  }

  lemma FirstFreeKept(m: Matching, cuts: seq<real>, detected: seq<real>, tol: real, i: nat, j: nat, x: nat)
    requires i !in m && x < i < |cuts| && FirstFree(m, cuts, detected, tol, x)
    ensures FirstFree(m[i := j], cuts, detected, tol, x)
  {
    forall k: nat ensures Taken(m[i := j], x, k) <==> Taken(m, x, k) {
      TakenKept(m, i, j, x, k);
    }
  }

  lemma TakenNext(m: Matching, i: nat, j: nat, k: nat)
    requires i !in m
    ensures Taken(m[i := j], i + 1, k) <==> Taken(m, i, k) || k == j
    ensures Taken(m, i + 1, k) <==> Taken(m, i, k)
  {
    var m' := m[i := j];
    assert m'[i] == j;
    if Taken(m, i, k) {
      var x :| x in m && x < i && m[x] == k;
      assert x in m' && m'[x] == k;
    }
  }

  lemma GreedyStep(m: Matching, cuts: seq<real>, detected: seq<real>, tol: real, i: nat, j: nat)
    requires Greedy(m, cuts, detected, tol, i) && i < |cuts| && j <= |detected|
    requires j < |detected| ==> !Taken(m, i, j) && Near(detected[j], cuts[i], tol)
    requires forall k :: 0 <= k < j && Near(detected[k], cuts[i], tol) ==> Taken(m, i, k)
    ensures var m' := if j < |detected| then m[i := j] else m;
            Greedy(m', cuts, detected, tol, i + 1) && |m'| == |m| + (if j < |detected| then 1 else 0) &&
            forall k :: Taken(m', i + 1, k) <==> Taken(m, i, k) || (j < |detected| && k == j)
  {
    forall k: nat
      ensures Taken(m[i := j], i + 1, k) <==> Taken(m, i, k) || k == j
      ensures Taken(m, i + 1, k) <==> Taken(m, i, k)
      ensures Taken(m[i := j], i, k) <==> Taken(m, i, k)
    {
      TakenNext(m, i, j, k);
      TakenKept(m, i, j, i, k);
    }
    if j < |detected| {
      var m' := m[i := j];
      forall x | 0 <= x < i ensures FirstFree(m', cuts, detected, tol, x) {
        FirstFreeKept(m, cuts, detected, tol, i, j, x);
      }
      assert FirstFree(m', cuts, detected, tol, i);
    } else {
      assert FirstFree(m, cuts, detected, tol, i);
    }
  }

  /** The part of the whole, zero of nothing. */
  ghost predicate IsShare(share: real, part: nat, whole: nat) {
    if whole == 0 then share == 0.0 else share * whole as real == part as real && 0.0 <= share <= 1.0
  }

  function Share(part: nat, whole: nat): (share: real)
    requires part <= whole
    ensures IsShare(share, part, whole)
  {
    if whole > 0 then part as real / whole as real else 0.0
  }

  /** `measure_scene_and_ocr`'s own count, over its own cuts 1.5 apart and whatever was detected: a
      largest matching within 0.6, so recall is the greatest any pairing could give, and neither
      rate exceeds one. */
  method MeasureScenes(scenes: nat, detected: seq<real>) returns (matched: nat, recall: real, precision: real)
    ensures IsMaximum(SceneCuts(scenes), detected, 0.6, matched)
    ensures IsShare(recall, matched, scenes) && IsShare(precision, matched, |detected|)
  {
    SceneCutsAreSpread(scenes);
    var used;
    ghost var m;
    matched, used, m := MatchScenes(SceneCuts(scenes), detected, TOLERANCE);
    recall, precision := Share(matched, scenes), Share(matched, |detected|);
  }
}
