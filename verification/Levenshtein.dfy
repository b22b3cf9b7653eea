/** `_lev` and the error rates built on it: the one-row dynamic program computes the least
    number of single-element edits, and that number is a metric. */
module Levenshtein {

  // ---- edit scripts -----------------------------------------------------------------

  datatype Edit<T> = Insert(at: nat, x: T) | Delete(at: nat) | Replace(at: nat, x: T)

  ghost predicate Applies<T>(e: Edit<T>, s: seq<T>) {
    match e
    case Insert(at, _) => at <= |s|
    case Delete(at) => at < |s|
    case Replace(at, _) => at < |s|
  }

  ghost function Apply<T>(e: Edit<T>, s: seq<T>): seq<T>
    requires Applies(e, s)
  {
    match e
    case Insert(at, x) => s[..at] + [x] + s[at..]
    case Delete(at) => s[..at] + s[at + 1..]
    case Replace(at, x) => s[at := x]
  }

  /** The script, applied edit by edit, turns a into b. */
  ghost predicate Turns<T>(script: seq<Edit<T>>, a: seq<T>, b: seq<T>) {
    if script == [] then a == b
    else Applies(script[0], a) && Turns(script[1..], Apply(script[0], a), b)
  }

  // ---- the recursive table -----------------------------------------------------------

  function Min(x: int, y: int): (m: int)
    ensures m <= x && m <= y && (m == x || m == y)
  {
    if x < y then x else y
  }

  function Max(x: int, y: int): (m: int)
    ensures m >= x && m >= y && (m == x || m == y)
  {
    if x < y then y else x
  }

  /** The entry of the table for two prefixes. */
  ghost function Dist<T>(a: seq<T>, b: seq<T>): nat
    decreases |a| + |b|
  {
    if a == [] then |b|
    else if b == [] then |a|
    else
      var a', b' := a[..|a| - 1], b[..|b| - 1];
      Min(Min(Dist(a', b) + 1, Dist(a, b') + 1), Dist(a', b') + (if a[|a| - 1] == b[|b| - 1] then 0 else 1))
  }

  // ---- the distance is a metric --------------------------------------------------------

  lemma {:induction false} DistBounds<T>(a: seq<T>, b: seq<T>)
    ensures |a| - |b| <= Dist(a, b) && |b| - |a| <= Dist(a, b)
    ensures Dist(a, b) <= Max(|a|, |b|)
    decreases |a| + |b|
  {
    if a != [] && b != [] {
      DistBounds(a[..|a| - 1], b);
      DistBounds(a, b[..|b| - 1]);
      DistBounds(a[..|a| - 1], b[..|b| - 1]);
    }
  }

  lemma {:induction false} DistSymmetric<T>(a: seq<T>, b: seq<T>)
    ensures Dist(a, b) == Dist(b, a)
    decreases |a| + |b|
  {
    if a != [] && b != [] {
      DistSymmetric(a[..|a| - 1], b);
      DistSymmetric(a, b[..|b| - 1]);
      DistSymmetric(a[..|a| - 1], b[..|b| - 1]);
    }
  }

  lemma {:induction false} DistZero<T>(a: seq<T>, b: seq<T>)
    ensures Dist(a, b) == 0 <==> a == b
    decreases |a| + |b|
  {
    if a != [] && b != [] {
      var a', b' := a[..|a| - 1], b[..|b| - 1];
      DistZero(a', b');
      assert a == a' + [a[|a| - 1]] && b == b' + [b[|b| - 1]];
      DistBounds(a', b);
      DistBounds(a, b');
    }
  }

  /** Dropping a last element changes the distance by at most one. */
  lemma {:induction false} DistDrop<T>(a: seq<T>, b: seq<T>)
    requires a != []
    ensures Dist(a, b) <= Dist(a[..|a| - 1], b) + 1
  {
  }

  /** Going from a to b and on to c is no shorter than going straight. */
  lemma {:induction false} DistTriangle<T>(a: seq<T>, b: seq<T>, c: seq<T>)
    ensures Dist(a, c) <= Dist(a, b) + Dist(b, c)
    decreases |a| + |b| + |c|
  {
    if a == [] {
      DistBounds(b, c);
    } else if c == [] {
      DistBounds(a, b);
    } else if b == [] {
      DistBounds(a, c);
    } else {
      var a', b', c' := a[..|a| - 1], b[..|b| - 1], c[..|c| - 1];
      if Dist(a, b) == Dist(a', b) + 1 {
        DistTriangle(a', b, c);
      } else if Dist(b, c) == Dist(b, c') + 1 {
        DistTriangle(a, b, c');
      } else if Dist(a, b) == Dist(a, b') + 1 {
        if Dist(b, c) == Dist(b', c) + 1 {
          DistTriangle(a, b', c);
        } else {
          DistTriangle(a, b', c');
        }
      } else {
        if Dist(b, c) == Dist(b', c) + 1 {
          DistTriangle(a', b', c);
        } else {
          DistTriangle(a', b', c');
        }
      }
    }
  }

  // ---- the distance is the length of a shortest script ------------------------------------

  lemma {:induction false} DistAppend<T>(a: seq<T>, b: seq<T>, s: seq<T>)
    ensures Dist(a + s, b + s) <= Dist(a, b)
    decreases |s|
  {
    if s == [] {
      assert a + s == a && b + s == b;
    } else {
      var s', x := s[..|s| - 1], s[|s| - 1];
      DistAppend(a, b, s');
      assert (a + s)[..|a + s| - 1] == a + s' && (b + s)[..|b + s| - 1] == b + s';
      assert (a + s)[|a + s| - 1] == x && (b + s)[|b + s| - 1] == x;
    }
  }

  /** Adding or removing one element in front of a common tail. */
  lemma OneInsert<T>(p: seq<T>, x: T, tail: seq<T>)
    ensures Dist(p + tail, p + [x] + tail) <= 1 && Dist(p + [x] + tail, p + tail) <= 1
  {
    DistZero(p, p);
    assert (p + [x])[..|p|] == p;
    DistDrop(p + [x], p);
    DistSymmetric(p, p + [x]);
    DistAppend(p, p + [x], tail);
    DistAppend(p + [x], p, tail);
  }

  lemma OneReplace<T>(p: seq<T>, x: T, y: T, tail: seq<T>)
    ensures Dist(p + [x] + tail, p + [y] + tail) <= 1
  {
    DistZero(p, p);
    var q, r := p + [x], p + [y];
    assert q[..|q| - 1] == p && r[..|r| - 1] == p;
    DistAppend(q, r, tail);
  }

  /** One edit moves a sequence by a distance of at most one. */
  lemma OneEdit<T(!new)>(e: Edit<T>, s: seq<T>)
    requires Applies(e, s)
    ensures Dist(s, Apply(e, s)) <= 1
  {
    match e {
      case Insert(at, x) => EditInserts(s, at, x);
      case Delete(at) => EditDeletes(s, at);
      case Replace(at, x) => EditReplaces(s, at, x);
    }
  }

  lemma EditInserts<T>(s: seq<T>, at: nat, x: T)
    requires at <= |s|
    ensures Dist(s, s[..at] + [x] + s[at..]) <= 1
  {
    assert s == s[..at] + s[at..];
    OneInsert(s[..at], x, s[at..]);
  }

  lemma SplitAt<T(!new)>(s: seq<T>, at: nat)
    requires at < |s|
    ensures s == s[..at] + [s[at]] + s[at + 1..]
    ensures forall x :: s[at := x] == s[..at] + [x] + s[at + 1..]
  {
  }

  lemma EditDeletes<T(!new)>(s: seq<T>, at: nat)
    requires at < |s|
    ensures Dist(s, s[..at] + s[at + 1..]) <= 1
  {
    var p, x, tail := s[..at], s[at], s[at + 1..];
    SplitAt(s, at);
    OneInsert(p, x, tail);
  }

  lemma EditReplaces<T(!new)>(s: seq<T>, at: nat, x: T)
    requires at < |s|
    ensures Dist(s, s[at := x]) <= 1
  {
    var p, y, tail := s[..at], s[at], s[at + 1..];
    SplitAt(s, at);
    OneReplace(p, y, x, tail);
  }

  /** No script is shorter than the distance. */
  lemma {:induction false} ScriptIsLongEnough<T(!new)>(script: seq<Edit<T>>, a: seq<T>, b: seq<T>)
    requires Turns(script, a, b)
    ensures Dist(a, b) <= |script|
    decreases |script|
  {
    if script == [] {
      DistZero(a, b);
    } else {
      var mid := Apply(script[0], a);
      OneEdit(script[0], a);
      ScriptIsLongEnough(script[1..], mid, b);
      DistTriangle(a, mid, b);
    }
  }

  lemma {:induction false} TurnsThen<T>(p: seq<Edit<T>>, q: seq<Edit<T>>, a: seq<T>, b: seq<T>, c: seq<T>)
    requires Turns(p, a, b) && Turns(q, b, c)
    ensures Turns(p + q, a, c)
    decreases |p|
  {
    if p == [] {
      assert p + q == q;
    } else {
      TurnsThen(p[1..], q, Apply(p[0], a), b, c);
      assert (p + q)[1..] == p[1..] + q;
    }
  }

  lemma ApplyBefore<T>(e: Edit<T>, a: seq<T>, tail: seq<T>)
    requires Applies(e, a)
    ensures Applies(e, a + tail) && Apply(e, a + tail) == Apply(e, a) + tail
  {
    match e {
      case Insert(at, x) =>
        assert (a + tail)[..at] == a[..at] && (a + tail)[at..] == a[at..] + tail;
      case Delete(at) =>
        assert (a + tail)[..at] == a[..at] && (a + tail)[at + 1..] == a[at + 1..] + tail;
      case Replace(at, x) =>
    }
  }

  /** A script for two prefixes works unchanged in front of a common tail. */
  lemma {:induction false} TurnsBefore<T>(p: seq<Edit<T>>, a: seq<T>, b: seq<T>, tail: seq<T>)
    requires Turns(p, a, b)
    ensures Turns(p, a + tail, b + tail)
    decreases |p|
  {
    if p != [] {
      ApplyBefore(p[0], a, tail);
      TurnsBefore(p[1..], Apply(p[0], a), b, tail);
    }
  }

  lemma OneTurn<T>(e: Edit<T>, a: seq<T>)
    requires Applies(e, a)
    ensures Turns([e], a, Apply(e, a))
  {
    assert [e][1..] == [];
    assert Turns([], Apply(e, a), Apply(e, a));
  }

  /** Delete the last element, then go on with the rest. */
  lemma DeleteLast<T>(a: seq<T>, b: seq<T>, rest: seq<Edit<T>>)
    requires a != [] && Turns(rest, a[..|a| - 1], b)
    ensures Turns([Delete(|a| - 1)] + rest, a, b)
  {
    var n := |a| - 1;
    assert Apply(Delete(n), a) == a[..n];
    OneTurn(Delete(n), a);
    TurnsThen([Delete(n)], rest, a, a[..n], b);
  }

  /** Reach all but the last element, then insert it. */
  lemma InsertLast<T>(a: seq<T>, b: seq<T>, rest: seq<Edit<T>>)
    requires b != [] && Turns(rest, a, b[..|b| - 1])
    ensures Turns(rest + [Insert(|b| - 1, b[|b| - 1])], a, b)
  {
    var n := |b| - 1;
    var e := Insert(n, b[n]);
    assert Apply(e, b[..n]) == b;
    OneTurn(e, b[..n]);
    TurnsThen(rest, [e], a, b[..n], b);
  }

  /** Turn the fronts into each other; the last element of a is still behind them. */
  lemma FrontsFirst<T>(a: seq<T>, b: seq<T>, rest: seq<Edit<T>>)
    requires a != [] && b != [] && Turns(rest, a[..|a| - 1], b[..|b| - 1])
    ensures Turns(rest, a, b[..|b| - 1] + [a[|a| - 1]])
  {
    TurnsBefore(rest, a[..|a| - 1], b[..|b| - 1], [a[|a| - 1]]);
    assert a == a[..|a| - 1] + [a[|a| - 1]];
  }

  lemma KeepLast<T>(a: seq<T>, b: seq<T>, rest: seq<Edit<T>>)
    requires a != [] && b != [] && Turns(rest, a[..|a| - 1], b[..|b| - 1]) && a[|a| - 1] == b[|b| - 1]
    ensures Turns(rest, a, b)
  {
    FrontsFirst(a, b, rest);
    assert b[..|b| - 1] + [a[|a| - 1]] == b;
  }

  /** Then replace it where the two differ. */
  lemma ReplaceLast<T>(a: seq<T>, b: seq<T>, rest: seq<Edit<T>>)
    requires a != [] && b != [] && Turns(rest, a[..|a| - 1], b[..|b| - 1])
    ensures Turns(rest + [Replace(|b| - 1, b[|b| - 1])], a, b)
  {
    var n := |b| - 1;
    var mid := b[..n] + [a[|a| - 1]];
    FrontsFirst(a, b, rest);
    var e := Replace(n, b[n]);
    assert Apply(e, mid) == b;
    OneTurn(e, mid);
    TurnsThen(rest, [e], a, mid, b);
  }

  /** Some script is as short as the distance. */
  lemma {:induction false} ShortestScript<T>(a: seq<T>, b: seq<T>) returns (script: seq<Edit<T>>)
    ensures Turns(script, a, b) && |script| == Dist(a, b)
    decreases |a| + |b|
  {
    if a == [] && b == [] {
      script := [];
    } else if b == [] || (a != [] && Dist(a, b) == Dist(a[..|a| - 1], b) + 1) {
      var rest := ShortestScript(a[..|a| - 1], b);
      DeleteLast(a, b, rest);
      script := [Delete(|a| - 1)] + rest;
    } else if a == [] || Dist(a, b) == Dist(a, b[..|b| - 1]) + 1 {
      var rest := ShortestScript(a, b[..|b| - 1]);
      InsertLast(a, b, rest);
      script := rest + [Insert(|b| - 1, b[|b| - 1])];
    } else {
      var rest := ShortestScript(a[..|a| - 1], b[..|b| - 1]);
      if a[|a| - 1] == b[|b| - 1] {
        KeepLast(a, b, rest);
        script := rest;
      } else {
        ReplaceLast(a, b, rest);
        script := rest + [Replace(|b| - 1, b[|b| - 1])];
      }
    }
  }

  /** The distance is the least length of a script of insertions, deletions and replacements. */
  lemma DistIsLeastScript<T(!new)>(a: seq<T>, b: seq<T>)
    ensures exists script :: Turns(script, a, b) && |script| == Dist(a, b)
    ensures forall script :: Turns(script, a, b) ==> Dist(a, b) <= |script|
  {
    var shortest := ShortestScript(a, b);
    forall script | Turns(script, a, b) ensures Dist(a, b) <= |script| {
      ScriptIsLongEnough(script, a, b);
    }
  }

  // ---- the one-row program -------------------------------------------------------------

  /** The recursive table, read at prefix lengths. */
  ghost function Cell<T>(a: seq<T>, b: seq<T>, i: nat, j: nat): nat
    requires i <= |a| && j <= |b|
  {
    Dist(a[..i], b[..j])
  }

  lemma CellStep<T>(a: seq<T>, b: seq<T>, i: nat, j: nat)
    requires 0 < i <= |a| && 0 < j <= |b|
    ensures Cell(a, b, i, j) ==
      Min(Min(Cell(a, b, i - 1, j) + 1, Cell(a, b, i, j - 1) + 1),
          Cell(a, b, i - 1, j - 1) + (if a[i - 1] == b[j - 1] then 0 else 1))
  {
    assert a[..i][..i - 1] == a[..i - 1] && b[..j][..j - 1] == b[..j - 1];
  }

  /** One pass of the outer loop: row i-1 of the table is overwritten in place by row i. */
  method NextRow<T(==)>(a: seq<T>, b: seq<T>, i: nat, dp: array<int>)
    requires 0 < i <= |a| && dp.Length == |b| + 1
    requires forall j :: 0 <= j <= |b| ==> dp[j] == Cell(a, b, i - 1, j)
    modifies dp
    ensures forall j :: 0 <= j <= |b| ==> dp[j] == Cell(a, b, i, j)
  {
    var prev := dp[0];
    dp[0] := i;
    for j := 1 to |b| + 1
      invariant prev == Cell(a, b, i - 1, j - 1)
      invariant forall k :: 0 <= k < j ==> dp[k] == Cell(a, b, i, k)
      invariant forall k :: j <= k <= |b| ==> dp[k] == Cell(a, b, i - 1, k)
    {
      CellStep(a, b, i, j);
      var cur := dp[j];
      dp[j] := Min(Min(dp[j] + 1, dp[j - 1] + 1), prev + (if a[i - 1] == b[j - 1] then 0 else 1));
      prev := cur;
    }
  }

  /** `_lev`. */
  method Lev<T(==,!new)>(a: seq<T>, b: seq<T>) returns (d: int)
    ensures d == Dist(a, b)
    ensures exists script :: Turns(script, a, b) && |script| == d
    ensures forall script :: Turns(script, a, b) ==> d <= |script|
  {
    var dp := new int[|b| + 1](j => j);
    for i := 1 to |a| + 1
      invariant forall j :: 0 <= j <= |b| ==> dp[j] == Cell(a, b, i - 1, j)
    {
      NextRow(a, b, i, dp);
    }
    d := dp[|b|];
    assert a[..|a|] == a && b[..|b|] == b;
    DistIsLeastScript(a, b);
  }

  ghost predicate IsOver(rate: real, d: nat, m: nat) {
    if m == 0 then rate == d as real else rate * m as real == d as real
  }

  function Quotient(x: real, y: real): (q: real)
    requires y > 0.0
    ensures q * y == x
  {
    x / y
  }

  /** A distance over the reference length, or over 1 when the reference is empty. */
  function Rate(d: nat, m: nat): (rate: real)
    ensures IsOver(rate, d, m)
  {
    Quotient(d as real, Max(1, m) as real)
  }

  lemma PositiveProduct(x: real, y: real)
    requires x > 0.0 && y > 0.0
    ensures x * y > 0.0
  {
  }

  lemma RateBounds(rate: real, x: real, y: real)
    requires y > 0.0 && x >= 0.0 && rate * y == x
    ensures rate >= 0.0 && (rate == 0.0 <==> x == 0.0) && (x <= y ==> rate <= 1.0)
  {
    if rate < 0.0 { PositiveProduct(-rate, y); }
    if rate > 0.0 { PositiveProduct(rate, y); }
    if rate > 1.0 { PositiveProduct(rate - 1.0, y); }
  }

  /** The rate is at most longest / max(1, m). */
  ghost predicate AtMost(rate: real, longest: nat, m: nat) {
    rate * Max(1, m) as real <= longest as real
  }

  lemma RateAtMost(d: nat, m: nat, longest: nat)
    requires d <= longest
    ensures AtMost(Rate(d, m), longest, m)
    ensures d == 0 <==> Rate(d, m) == 0.0
    ensures d <= m ==> Rate(d, m) <= 1.0
  {
    RateBounds(Rate(d, m), d as real, Max(1, m) as real);
  }

  /** `_cer` over characters and `_wer` over words. */
  method ErrorRate<T(==,!new)>(reference: seq<T>, hyp: seq<T>) returns (rate: real)
    ensures rate == Rate(Dist(reference, hyp), |reference|)
    ensures IsOver(rate, Dist(reference, hyp), |reference|)
  {
    var d := Lev(reference, hyp);
    rate := Rate(d, |reference|);
  }

  /** The rate is zero exactly on an exact match, and stays within 1 unless the reading is
      longer than the reference; in general it is at most the longer length over the reference. */
  lemma ErrorRateBounds<T>(reference: seq<T>, hyp: seq<T>)
    ensures Rate(Dist(reference, hyp), |reference|) == 0.0 <==> reference == hyp
    ensures |hyp| <= |reference| ==> Rate(Dist(reference, hyp), |reference|) <= 1.0
    ensures AtMost(Rate(Dist(reference, hyp), |reference|), Max(|reference|, |hyp|), |reference|)
  {
    DistZero(reference, hyp);
    DistBounds(reference, hyp);
    RateAtMost(Dist(reference, hyp), |reference|, Max(|reference|, |hyp|));
  }
}
